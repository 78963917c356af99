/** The chunk loop of the PNG check (`scripts/check-test-evidence.py`, `validate_png`),
    up to decompression. The checksum is a parameter. */
module PngChunks {
  import opened Bytes
  import opened Results
  import opened PngHeader

  const MAX_PNG_BYTES: nat := 32 * 1024 * 1024
  const SIGNATURE: ByteString := [0x89, 0x50, 0x4E, 0x47, 0x0D, 0x0A, 0x1A, 0x0A]
  const IHDR: ByteString := [0x49, 0x48, 0x44, 0x52]
  const PLTE: ByteString := [0x50, 0x4C, 0x54, 0x45]
  const IDAT: ByteString := [0x49, 0x44, 0x41, 0x54]
  const IEND: ByteString := [0x49, 0x45, 0x4E, 0x44]

  type U32 = n: nat | n < 0x1_0000_0000
  type Crc = ByteString -> U32

  datatype Chunk = Chunk(kind: ByteString, payload: ByteString)

  /** Bit five of a letter: set in lower case. */
  predicate IsLowerCase(b: Byte) { b / 32 % 2 == 1 }

  /** Four letters, the third in upper case. */
  predicate IsKind(kind: ByteString) {
    && |kind| == 4
    && (forall i :: 0 <= i < 4 ==> IsUpper(kind[i]) || IsLower(kind[i]))
    && !IsLowerCase(kind[2])
  }

  predicate IsCapital(b: Byte) { 'A' as int <= b <= 'Z' as int }
  predicate IsSmall(b: Byte) { 'a' as int <= b <= 'z' as int }

  /** A kind is four letters whose third is a capital; it is ancillary when its first is small. */
  lemma KindLetters(kind: ByteString, payload: ByteString)
    ensures IsKind(kind) <==>
            |kind| == 4 && IsCapital(kind[2]) && forall i :: 0 <= i < 4 ==> IsCapital(kind[i]) || IsSmall(kind[i])
    ensures IsKind(kind) ==> (IsAncillary(Chunk(kind, payload)) <==> IsSmall(kind[0]))
    ensures SIGNATURE == [137] + Ascii("PNG\r\n") + [26] + Ascii("\n")
    ensures IHDR == Ascii("IHDR") && PLTE == Ascii("PLTE") && IDAT == Ascii("IDAT") && IEND == Ascii("IEND")
  {
  }

  predicate IsChunk(c: Chunk) { IsKind(c.kind) && |c.payload| < 0x1_0000_0000 }

  predicate IsAncillary(c: Chunk) { |c.kind| == 4 && IsLowerCase(c.kind[0]) }

  // Bytes and chunks.

  function Serialize(c: Chunk, crc: Crc): ByteString {
    BigEndian(|c.payload|, 4) + c.kind + c.payload + BigEndian(crc(c.kind + c.payload), 4)
  }

  function SerializeAll(chunks: seq<Chunk>, crc: Crc): ByteString {
    if chunks == [] then [] else Serialize(chunks[0], crc) + SerializeAll(chunks[1..], crc)
  }

  /** The chunk at the start of `s`, if its length, kind and checksum are right. */
  function ParseFirst(s: ByteString, crc: Crc): (r: Option<Chunk>)
    ensures r.Some? ==> 12 + |r.value.payload| <= |s|
  {
    if |s| < 12 then None
    else
      var end := 12 + ReadBigEndian(s[..4]);
      if end > |s| || !IsKind(s[4..8]) then None
      else if crc(s[4..8] + s[8..end - 4]) != ReadBigEndian(s[end - 4..end]) then None
      else Some(Chunk(s[4..8], s[8..end - 4]))
  }

  lemma Radix4()
    ensures Radix(4) == 0x1_0000_0000
  {
    assert Radix(2) == 0x1_0000;
  }

  lemma ReadBack(n: U32)
    ensures ReadBigEndian(BigEndian(n, 4)) == n
  {
    Radix4();
    ReadBigEndianInverse(BigEndian(n, 4));
    BigEndianInjective(ReadBigEndian(BigEndian(n, 4)), n, 4);
  }

  /** A written chunk parses as itself, whatever follows. */
  lemma ParseAfterSerialize(c: Chunk, crc: Crc, rest: ByteString)
    requires IsChunk(c)
    ensures ParseFirst(Serialize(c, crc) + rest, crc) == Some(c)
    ensures (Serialize(c, crc) + rest)[12 + |c.payload|..] == rest
  {
    assert |c.kind| == 4;
    hide ReadBigEndian, BigEndian, IsKind;
    var length, check := BigEndian(|c.payload|, 4), BigEndian(crc(c.kind + c.payload), 4);
    ReadBack(|c.payload|);
    ReadBack(crc(c.kind + c.payload));
    var s := length + c.kind + c.payload + check + rest;
    assert s[..4] == length && s[4..8] == c.kind;
    var end := 12 + |c.payload|;
    assert s[8..end - 4] == c.payload && s[end - 4..end] == check && s[end..] == rest;
  }

  /** Only a written chunk parses. */
  lemma SerializeAfterParse(s: ByteString, crc: Crc)
    requires ParseFirst(s, crc).Some?
    ensures var c := ParseFirst(s, crc).value;
            IsChunk(c) && s == Serialize(c, crc) + s[12 + |c.payload|..]
  {
    hide ReadBigEndian, BigEndian;
    var c := ParseFirst(s, crc).value;
    var end := 12 + |c.payload|;
    Radix4();
    ReadBigEndianInverse(s[..4]);
    ReadBigEndianInverse(s[end - 4..end]);
    assert s == s[..4] + s[4..8] + s[8..end - 4] + s[end - 4..end] + s[end..];
  }

  // The loop's variables and one turn of it.

  datatype State = State(header: Option<Header>, palette: bool, compressed: seq<ByteString>, endedData: bool)

  const INITIAL: State := State(None, false, [], false)

  function Pow2(n: nat): nat { if n == 0 then 1 else 2 * Pow2(n - 1) }

  /** A palette the header allows. */
  predicate IsPalette(c: Chunk, header: Header) {
    && c.kind == PLTE && header.color !in {0, 4}
    && 0 < |c.payload| <= 768 && |c.payload| % 3 == 0
    && (header.color == 3 ==> |c.payload| / 3 <= Pow2(header.depth))
  }

  /** A palette has up to 256 entries of three bytes, with a colour type that has colour;
      where the image indexes it, no more than an index reaches. */
  lemma PaletteEntries(c: Chunk, header: Header)
    requires header.depth in Depths(header.color)
    ensures IsPalette(c, header) <==>
            && c.kind == Ascii("PLTE") && HasBit(header.color, 2)
            && |c.payload| % 3 == 0 && 1 <= |c.payload| / 3 <= 256
            && (HasBit(header.color, 1) ==>
                  |c.payload| / 3 <= match header.depth case 1 => 2 case 2 => 4 case 4 => 16 case _ => 256)
  {
    SampleFormat(header.color, header.depth);
    assert Pow2(4) == 16 && Pow2(8) == 256;
    assert header.color in {0, 2, 3, 4, 6};
    assert Ascii("PLTE") == PLTE;
  }

  /** Any chunk but the last. */
  function Step(state: State, c: Chunk): Option<State> {
    if state.header.None? then
      if c.kind != IHDR || |c.payload| != 13 || ParseHeader(c.payload).None? then None
      else Some(state.(header := ParseHeader(c.payload), endedData := state.endedData || state.compressed != []))
    else if c.kind == IHDR then None
    else if c.kind == PLTE then
      if state.palette || state.compressed != [] || !IsPalette(c, state.header.value) then None
      else Some(state.(palette := true))
    else if c.kind == IDAT then
      if state.endedData || (state.header.value.color == 3 && !state.palette) then None
      else Some(state.(compressed := state.compressed + [c.payload]))
    else if !IsAncillary(c) then None
    else Some(state.(endedData := state.endedData || state.compressed != []))
  }

  predicate IsEnd(state: State, c: Chunk, last: bool) {
    c.kind == IEND && state.header.Some? && c.payload == [] && last && state.compressed != []
  }

  /** The loop over chunks: the variables it leaves for decompression. */
  function Run(state: State, chunks: seq<Chunk>): Option<State>
    decreases |chunks|
  {
    if chunks == [] then None
    else if chunks[0].kind == IEND then if IsEnd(state, chunks[0], |chunks| == 1) then Some(state) else None
    else match Step(state, chunks[0])
      case None => None
      case Some(next) => Run(next, chunks[1..])
  }

  /** The same loop over bytes. */
  function Decide(state: State, s: ByteString, crc: Crc): Option<State>
    decreases |s|
  {
    match ParseFirst(s, crc)
    case None => None
    case Some(c) =>
      var rest := s[12 + |c.payload|..];
      if c.kind == IEND then if IsEnd(state, c, rest == []) then Some(state) else None
      else match Step(state, c)
        case None => None
        case Some(next) => Decide(next, rest, crc)
  }

  predicate AreChunks(chunks: seq<Chunk>) { forall c <- chunks :: IsChunk(c) }

  lemma {:induction false} DecideIsRun(state: State, chunks: seq<Chunk>, crc: Crc)
    requires AreChunks(chunks)
    ensures Decide(state, SerializeAll(chunks, crc), crc) == Run(state, chunks)
    decreases |chunks|
  {
    hide Step, Serialize, ParseFirst, IsEnd, IsChunk;
    if chunks == [] {
      NothingParses(crc);
    } else {
      var c, rest := chunks[0], SerializeAll(chunks[1..], crc);
      assert c in chunks;
      ParseAfterSerialize(c, crc, rest);
      assert rest == [] <==> |chunks| == 1 by {
        if |chunks| > 1 { SerializeNonempty(chunks[1..], crc); }
      }
      if c.kind != IEND && Step(state, c).Some? {
        DecideIsRun(Step(state, c).value, chunks[1..], crc);
      }
    }
  }

  lemma NothingParses(crc: Crc)
    ensures ParseFirst([], crc) == None
  {
  }

  lemma SerializeNonempty(chunks: seq<Chunk>, crc: Crc)
    requires chunks != []
    ensures SerializeAll(chunks, crc) != []
  {
    hide BigEndian;
  }

  /** Accepted bytes are tiled by chunks. */
  lemma {:induction false} DecideTiles(state: State, s: ByteString, crc: Crc) returns (chunks: seq<Chunk>)
    requires Decide(state, s, crc).Some?
    ensures AreChunks(chunks) && s == SerializeAll(chunks, crc)
    decreases |s|
  {
    hide Step, Serialize, ParseFirst, IsEnd, IsChunk;
    SerializeAfterParse(s, crc);
    var c := ParseFirst(s, crc).value;
    var rest := s[12 + |c.payload|..];
    if c.kind == IEND {
      EndIsLast(state, c, rest == []);
      chunks := [c];
      assert chunks[1..] == [] && SerializeAll([], crc) == [];
      assert Serialize(c, crc) + [] == Serialize(c, crc);
    } else {
      var later := DecideTiles(Step(state, c).value, rest, crc);
      chunks := [c] + later;
      assert chunks[1..] == later;
    }
  }

  lemma EndIsLast(state: State, c: Chunk, last: bool)
    requires IsEnd(state, c, last)
    ensures last
  {
  }

  /** The bytes are accepted exactly when chunks tile them that the loop accepts. */
  lemma DecideExact(state: State, s: ByteString, crc: Crc)
    ensures Decide(state, s, crc).Some? <==>
            exists chunks :: AreChunks(chunks) && s == SerializeAll(chunks, crc) && Run(state, chunks).Some?
    ensures forall chunks :: AreChunks(chunks) && s == SerializeAll(chunks, crc)
              ==> Decide(state, s, crc) == Run(state, chunks)
  {
    hide Step, Serialize, ParseFirst, Decide, Run, AreChunks, SerializeAll;
    forall chunks | AreChunks(chunks) && s == SerializeAll(chunks, crc)
      ensures Decide(state, s, crc) == Run(state, chunks)
    {
      DecideIsRun(state, chunks, crc);
    }
    if Decide(state, s, crc).Some? {
      var chunks := DecideTiles(state, s, crc);
    }
  }

  // The grammar the flags recognise.

  /** Before the data: ancillary chunks and at most one palette, present if the
      colours are indexed. */
  predicate IsPreamble(chunks: seq<Chunk>, header: Header) {
    && (forall c <- chunks :: IsAncillary(c) || IsPalette(c, header))
    && (forall i, j :: 0 <= i < j < |chunks| ==> !(chunks[i].kind == PLTE && chunks[j].kind == PLTE))
    && (header.color == 3 ==> exists c <- chunks :: c.kind == PLTE)
  }

  predicate IsData(chunks: seq<Chunk>) { forall c <- chunks :: c.kind == IDAT }

  predicate IsTrailer(chunks: seq<Chunk>) { forall c <- chunks :: IsAncillary(c) }

  function Payloads(chunks: seq<Chunk>): seq<ByteString> {
    if chunks == [] then [] else [chunks[0].payload] + Payloads(chunks[1..])
  }

  const END: Chunk := Chunk(IEND, [])

  /** One leading header, the preamble, one contiguous run of data, the
      trailer and a final empty end chunk. */
  ghost predicate IsImage(
    chunks: seq<Chunk>, first: ByteString, header: Header, preamble: seq<Chunk>, data: seq<Chunk>, trailer: seq<Chunk>)
  {
    && chunks == [Chunk(IHDR, first)] + (preamble + (data + (trailer + [END])))
    && |first| == 13 && ParseHeader(first) == Some(header)
    && IsPreamble(preamble, header) && data != [] && IsData(data) && IsTrailer(trailer)
  }

  predicate HasPalette(chunks: seq<Chunk>) { exists c <- chunks :: c.kind == PLTE }

  lemma AncillaryIsOther(c: Chunk)
    requires IsAncillary(c)
    ensures c.kind != IHDR && c.kind != PLTE && c.kind != IDAT && c.kind != IEND
  {
  }

  predicate InTrailer(state: State) { state.header.Some? && state.compressed != [] && state.endedData }
  predicate InData(state: State) { state.header.Some? && state.compressed != [] && !state.endedData }
  predicate InPreamble(state: State) { state.header.Some? && state.compressed == [] && !state.endedData }

  lemma {:induction false} TrailerRuns(state: State, trailer: seq<Chunk>)
    requires InTrailer(state) && IsTrailer(trailer)
    ensures Run(state, trailer + [END]) == Some(state)
    decreases |trailer|
  {
    var chunks := trailer + [END];
    if trailer == [] {
      assert chunks == [END];
    } else {
      assert chunks[0] == trailer[0] && chunks[1..] == trailer[1..] + [END] && trailer[0] in trailer;
      AncillaryIsOther(trailer[0]);
      TrailerRuns(state, trailer[1..]);
    }
  }

  lemma {:induction false} TrailerParses(state: State, chunks: seq<Chunk>) returns (trailer: seq<Chunk>)
    requires InTrailer(state) && Run(state, chunks).Some?
    ensures IsTrailer(trailer) && chunks == trailer + [END] && Run(state, chunks) == Some(state)
    decreases |chunks|
  {
    var c := chunks[0];
    assert chunks == [c] + chunks[1..];
    if c.kind == IEND {
      trailer := [];
    } else {
      assert IsAncillary(c);
      trailer := TrailerParses(state, chunks[1..]);
      trailer := [c] + trailer;
    }
  }

  function AfterData(state: State, data: seq<Chunk>, trailer: seq<Chunk>): State {
    state.(compressed := state.compressed + Payloads(data), endedData := trailer != [])
  }

  lemma {:induction false} DataRuns(state: State, data: seq<Chunk>, trailer: seq<Chunk>)
    requires InData(state) && IsData(data) && IsTrailer(trailer)
    requires state.header.value.color == 3 ==> state.palette
    ensures Run(state, data + (trailer + [END])) == Some(AfterData(state, data, trailer))
    decreases |data|
  {
    var chunks := data + (trailer + [END]);
    if data == [] {
      assert chunks == trailer + [END];
      assert state.compressed + [] == state.compressed;
      if trailer != [] {
        assert chunks[0] == trailer[0] && chunks[1..] == trailer[1..] + [END] && trailer[0] in trailer;
        AncillaryIsOther(trailer[0]);
        TrailerRuns(state.(endedData := true), trailer[1..]);
      }
    } else {
      var next := state.(compressed := state.compressed + [data[0].payload]);
      DataRuns(next, data[1..], trailer);
      hide Payloads, IsTrailer;
      assert chunks[0] == data[0] && chunks[1..] == data[1..] + (trailer + [END]) && data[0] in data;
      AfterFirstData(state, data, trailer);
    }
  }

  lemma AfterFirstData(state: State, data: seq<Chunk>, trailer: seq<Chunk>)
    requires data != []
    ensures AfterData(state, data, trailer)
            == AfterData(state.(compressed := state.compressed + [data[0].payload]), data[1..], trailer)
  {
    assert state.compressed + [data[0].payload] + Payloads(data[1..]) == state.compressed + Payloads(data);
  }

  lemma Prepend(c: Chunk, a: seq<Chunk>, b: seq<Chunk>)
    ensures [c] + (a + b) == ([c] + a) + b
  {
  }

  lemma DataCons(state: State, c: Chunk, data: seq<Chunk>, trailer: seq<Chunk>)
    requires c.kind == IDAT && IsData(data)
    ensures IsData([c] + data)
    ensures [c] + (data + (trailer + [END])) == ([c] + data) + (trailer + [END])
    ensures AfterData(state.(compressed := state.compressed + [c.payload]), data, trailer)
            == AfterData(state, [c] + data, trailer)
  {
    Prepend(c, data, trailer + [END]);
    assert ([c] + data)[1..] == data;
    assert state.compressed + [c.payload] + Payloads(data) == state.compressed + Payloads([c] + data);
  }

  lemma {:induction false} DataParses(state: State, chunks: seq<Chunk>) returns (data: seq<Chunk>, trailer: seq<Chunk>)
    requires InData(state) && Run(state, chunks).Some?
    ensures IsData(data) && IsTrailer(trailer) && chunks == data + (trailer + [END])
    ensures Run(state, chunks) == Some(AfterData(state, data, trailer))
    decreases |chunks|
  {
    var c := chunks[0];
    assert chunks == [c] + chunks[1..];
    assert state.compressed + [] == state.compressed;
    if c.kind == IEND {
      data, trailer := [], [];
    } else if c.kind == IDAT {
      var next := Step(state, c).value;
      data, trailer := DataParses(next, chunks[1..]);
      DataCons(state, c, data, trailer);
      data := [c] + data;
    } else {
      trailer := TrailerParses(state.(endedData := true), chunks[1..]);
      data := [];
      trailer := [c] + trailer;
    }
  }

  /** A preamble, given whether a palette came before it. */
  predicate IsPreambleAfter(chunks: seq<Chunk>, header: Header, palette: bool) {
    && (forall c <- chunks :: IsAncillary(c) || (IsPalette(c, header) && !palette))
    && (forall i, j :: 0 <= i < j < |chunks| ==> !(chunks[i].kind == PLTE && chunks[j].kind == PLTE))
    && (header.color == 3 ==> palette || HasPalette(chunks))
  }

  lemma PreambleFresh(chunks: seq<Chunk>, header: Header)
    ensures IsPreamble(chunks, header) <==> IsPreambleAfter(chunks, header, false)
  {
    hide IsPalette, IsAncillary;
  }

  function AfterPreamble(state: State, preamble: seq<Chunk>, data: seq<Chunk>, trailer: seq<Chunk>): State {
    AfterData(state.(palette := state.palette || HasPalette(preamble)), data, trailer)
  }

  lemma PreambleTail(chunks: seq<Chunk>, header: Header, palette: bool)
    requires chunks != [] && IsPreambleAfter(chunks, header, palette)
    ensures IsPreambleAfter(chunks[1..], header, palette || chunks[0].kind == PLTE)
    ensures (palette || HasPalette(chunks)) == (palette || chunks[0].kind == PLTE || HasPalette(chunks[1..]))
  {
    hide IsPalette;
    var tail := chunks[1..];
    assert forall c :: c in chunks <==> c == chunks[0] || c in tail;
    assert forall i :: 0 <= i < |tail| ==> tail[i] == chunks[i + 1];
    forall c | c in tail
      ensures IsAncillary(c) || (IsPalette(c, header) && !(palette || chunks[0].kind == PLTE))
    {
      var i :| 0 <= i < |tail| && tail[i] == c;
      if IsPalette(c, header) && chunks[0].kind == PLTE {
        PaletteKind(c, header);
      }
    }
  }

  lemma PaletteKind(c: Chunk, header: Header)
    requires IsPalette(c, header)
    ensures c.kind == PLTE && !IsAncillary(c)
  {
  }

  lemma {:induction false} PreambleRuns(state: State, preamble: seq<Chunk>, data: seq<Chunk>, trailer: seq<Chunk>)
    requires InPreamble(state) && IsPreambleAfter(preamble, state.header.value, state.palette)
    requires data != [] && IsData(data) && IsTrailer(trailer)
    ensures Run(state, preamble + (data + (trailer + [END]))) == Some(AfterPreamble(state, preamble, data, trailer))
    decreases |preamble|
  {
    hide IsPalette;
    var later := data + (trailer + [END]);
    var chunks := preamble + later;
    if preamble == [] {
      assert chunks == later;
      assert chunks[0] == data[0] && chunks[1..] == data[1..] + (trailer + [END]) && data[0] in data;
      var next := state.(compressed := [data[0].payload]);
      assert state.compressed + [data[0].payload] == next.compressed;
      DataRuns(next, data[1..], trailer);
      assert next.compressed + Payloads(data[1..]) == state.compressed + Payloads(data);
    } else {
      var c := preamble[0];
      assert chunks[0] == c && chunks[1..] == preamble[1..] + later && c in preamble;
      PreambleTail(preamble, state.header.value, state.palette);
      if IsAncillary(c) {
        AncillaryIsOther(c);
        PreambleRuns(state, preamble[1..], data, trailer);
      } else {
        PaletteKind(c, state.header.value);
        PreambleRuns(state.(palette := true), preamble[1..], data, trailer);
      }
    }
  }

  lemma PreambleCons(c: Chunk, tail: seq<Chunk>, header: Header, palette: bool)
    requires IsAncillary(c) || (IsPalette(c, header) && !palette)
    requires IsPreambleAfter(tail, header, palette || c.kind == PLTE)
    ensures IsPreambleAfter([c] + tail, header, palette)
    ensures (palette || HasPalette([c] + tail)) == (palette || c.kind == PLTE || HasPalette(tail))
  {
    var chunks := [c] + tail;
    assert forall d :: d in chunks <==> d == c || d in tail;
    forall i, j | 0 <= i < j < |chunks| ensures !(chunks[i].kind == PLTE && chunks[j].kind == PLTE) {
      assert chunks[j] == tail[j - 1] && tail[j - 1] in tail;
      if i > 0 {
        assert chunks[i] == tail[i - 1];
      } else if c.kind == PLTE {
        assert IsAncillary(tail[j - 1]);
        AncillaryIsOther(tail[j - 1]);
      }
    }
  }

  lemma {:induction false} PreambleParses(state: State, chunks: seq<Chunk>)
    returns (preamble: seq<Chunk>, data: seq<Chunk>, trailer: seq<Chunk>)
    requires InPreamble(state) && Run(state, chunks).Some?
    ensures IsPreambleAfter(preamble, state.header.value, state.palette)
    ensures data != [] && IsData(data) && IsTrailer(trailer)
    ensures chunks == preamble + (data + (trailer + [END]))
    ensures Run(state, chunks) == Some(AfterPreamble(state, preamble, data, trailer))
    decreases |chunks|
  {
    hide IsPalette;
    var c := chunks[0];
    assert chunks == [c] + chunks[1..];
    var next := Step(state, c).value;
    if c.kind == IDAT {
      data, trailer := DataParses(next, chunks[1..]);
      preamble := [];
      DataCons(state, c, data, trailer);
      data := [c] + data;
      assert [] + (data + (trailer + [END])) == data + (trailer + [END]);
    } else {
      preamble, data, trailer := PreambleParses(next, chunks[1..]);
      hide Run, Payloads, Step;
      PreambleCons(c, preamble, state.header.value, state.palette);
      Prepend(c, preamble, data + (trailer + [END]));
      preamble := [c] + preamble;
    }
  }

  /** What the loop leaves after an image. */
  ghost predicate Leaves(
    final: State, chunks: seq<Chunk>, first: ByteString, header: Header, preamble: seq<Chunk>, data: seq<Chunk>,
    trailer: seq<Chunk>)
  {
    && IsImage(chunks, first, header, preamble, data, trailer)
    && final == State(Some(header), HasPalette(preamble), Payloads(data), trailer != [])
  }

  lemma ImageRuns(
    chunks: seq<Chunk>, first: ByteString, header: Header, preamble: seq<Chunk>, data: seq<Chunk>, trailer: seq<Chunk>)
    requires IsImage(chunks, first, header, preamble, data, trailer)
    ensures Run(INITIAL, chunks) == Some(State(Some(header), HasPalette(preamble), Payloads(data), trailer != []))
  {
    hide ParseHeader, IsPalette;
    var later := preamble + (data + (trailer + [END]));
    assert chunks[0] == Chunk(IHDR, first) && chunks[1..] == later;
    var next := INITIAL.(header := Some(header));
    hide IsPreamble, IsPreambleAfter, HasPalette;
    PreambleFresh(preamble, header);
    PreambleRuns(next, preamble, data, trailer);
    assert next.compressed + Payloads(data) == Payloads(data);
  }

  lemma ImageParses(chunks: seq<Chunk>)
    returns (first: ByteString, header: Header, preamble: seq<Chunk>, data: seq<Chunk>, trailer: seq<Chunk>)
    requires Run(INITIAL, chunks).Some?
    ensures Leaves(Run(INITIAL, chunks).value, chunks, first, header, preamble, data, trailer)
  {
    hide ParseHeader, IsPalette;
    var c := chunks[0];
    first, header := c.payload, ParseHeader(c.payload).value;
    var next := Step(INITIAL, c).value;
    assert next == INITIAL.(header := Some(header));
    assert Run(INITIAL, chunks) == Run(next, chunks[1..]);
    hide Run, Step, IsPreamble, IsPreambleAfter, HasPalette;
    preamble, data, trailer := PreambleParses(next, chunks[1..]);
    PreambleFresh(preamble, header);
    assert c == Chunk(IHDR, first) && chunks == [c] + chunks[1..];
    assert next.compressed + Payloads(data) == Payloads(data);
  }

  /** The flags recognise exactly the grammar, and leave its header and data. */
  lemma RunIsGrammar(chunks: seq<Chunk>, final: State)
    ensures Run(INITIAL, chunks) == Some(final) <==>
            exists first, header, preamble, data, trailer ::
              Leaves(final, chunks, first, header, preamble, data, trailer)
  {
    hide Run, IsImage;
    if Run(INITIAL, chunks) == Some(final) {
      hide Leaves;
      var first, header, preamble, data, trailer := ImageParses(chunks);
    }
    forall first, header, preamble, data, trailer | Leaves(final, chunks, first, header, preamble, data, trailer)
      ensures Run(INITIAL, chunks) == Some(final)
    {
      ImageRuns(chunks, first, header, preamble, data, trailer);
    }
  }

  /** The file is the signature followed by chunks of an image, and nothing else. */
  ghost predicate IsPng(data: ByteString, crc: Crc, chunks: seq<Chunk>, final: State) {
    && |data| <= MAX_PNG_BYTES && AreChunks(chunks)
    && data == SIGNATURE + SerializeAll(chunks, crc)
    && exists first, header, preamble, idat, trailer :: Leaves(final, chunks, first, header, preamble, idat, trailer)
  }

  /** `validate_png` up to decompression: it gets there exactly when the chunks
      of an image tile the file from the signature to the end, and hands on
      that image's scanlines and data. */
  method ValidateChunks(data: ByteString, crc: Crc) returns (r: Option<State>)
    ensures r.Some? <==> exists chunks, final :: IsPng(data, crc, chunks, final)
    ensures forall chunks, final :: IsPng(data, crc, chunks, final) ==> r == Some(final)
  {
    if |data| > MAX_PNG_BYTES || !(SIGNATURE <= data) {
      return None;
    }
    hide Decide, IsPng;
    r := DecideFrom(data, |SIGNATURE|, crc);
    DecisionIsPng(data, crc);
  }

  /** The loop over the chunks of a file. */
  method DecideFrom(data: ByteString, start: nat, crc: Crc) returns (r: Option<State>)
    requires start <= |data|
    ensures r == Decide(INITIAL, data[start..], crc)
  {
    var offset := start;
    var rows: Option<Header>, palette, compressed, endedData := None, false, [], false;
    hide Decide, Step, ParseFirst;
    while offset < |data|
      invariant start <= offset <= |data|
      invariant Decide(INITIAL, data[start..], crc)
                == Decide(State(rows, palette, compressed, endedData), data[offset..], crc)
    {
      DecideTurn(State(rows, palette, compressed, endedData), data[offset..], crc);
      var chunk, end := ReadChunk(data, offset, crc);
      if chunk.None? {
        return None;
      }
      var kind, payload := chunk.value.kind, chunk.value.payload;
      assert data[offset..][12 + |payload|..] == data[end..];
      if kind == IEND {
        if rows.None? || |payload| != 0 || end != |data| || compressed == [] {
          return None;
        }
        return Some(State(rows, palette, compressed, endedData));
      }
      var ok;
      ok, rows, palette, compressed, endedData := TakeChunk(rows, palette, compressed, endedData, kind, payload);
      if !ok {
        return None;
      }
      offset := end;
    }
    assert data[offset..] == [];
    DecideTurn(State(rows, palette, compressed, endedData), [], crc);
    NothingParses(crc);
    r := None;
  }

  lemma DecideTurn(state: State, s: ByteString, crc: Crc)
    ensures Decide(state, s, crc) == match ParseFirst(s, crc)
            case None => None
            case Some(c) =>
              var rest := s[12 + |c.payload|..];
              if c.kind == IEND then if IsEnd(state, c, rest == []) then Some(state) else None
              else match Step(state, c)
                case None => None
                case Some(next) => Decide(next, rest, crc)
  {
    hide Step, ParseFirst;
  }

  /** The part of the loop's body that cuts the next chunk out of the file. */
  method ReadChunk(data: ByteString, offset: nat, crc: Crc) returns (chunk: Option<Chunk>, end: nat)
    requires offset <= |data|
    ensures chunk == ParseFirst(data[offset..], crc)
    ensures chunk.Some? ==> |chunk.value.kind| == 4 && end == offset + 12 + |chunk.value.payload| <= |data|
  {
    hide ReadBigEndian;
    ghost var rest := data[offset..];
    end := offset;
    if |data| - offset < 12 {
      return None, end;
    }
    var length := ReadBigEndian(data[offset..offset + 4]);
    var kind := data[offset + 4..offset + 8];
    end := offset + 12 + length;
    assert rest[..4] == data[offset..offset + 4] && rest[4..8] == kind;
    if end > |data| || !IsKind(kind) {
      return None, end;
    }
    var payload := data[offset + 8..end - 4];
    assert rest[8..12 + length - 4] == payload && rest[12 + length - 4..12 + length] == data[end - 4..end];
    if crc(kind + payload) != ReadBigEndian(data[end - 4..end]) {
      return None, end;
    }
    chunk := Some(Chunk(kind, payload));
  }

  /** The chunk kinds of the loop's body, other than the last. */
  method TakeChunk(
    rows: Option<Header>, palette: bool, compressed: seq<ByteString>, endedData: bool, kind: ByteString,
        payload: ByteString)
    returns (ok: bool, rows': Option<Header>, palette': bool, compressed': seq<ByteString>, endedData': bool)
    requires kind != IEND && |kind| == 4
    ensures Step(State(rows, palette, compressed, endedData), Chunk(kind, payload))
            == if ok then Some(State(rows', palette', compressed', endedData')) else None
  {
    hide ParseHeader, Pow2;
    ok, rows', palette', compressed', endedData' := false, rows, palette, compressed, endedData;
    if rows.None? && kind != IHDR {
      return;
    }
    if kind == IHDR {
      if rows.Some? || |payload| != 13 {
        return;
      }
      rows' := PngRows(payload);
      if rows'.None? {
        return;
      }
    } else if kind == PLTE {
      var color := rows.value.color;
      if palette || compressed != [] || color in {0, 4} || |payload| == 0 || |payload| % 3 != 0 || |payload| > 768
         || (color == 3 && |payload| / 3 > Pow2(rows.value.depth)) {
        return;
      }
      palette' := true;
    } else if kind == IDAT {
      if endedData || (rows.value.color == 3 && !palette) {
        return;
      }
      compressed' := compressed + [payload];
    } else if !IsLowerCase(kind[0]) {
      return;
    }
    if compressed' != [] && kind != IDAT {
      endedData' := true;
    }
    ok := true;
  }

  lemma DecisionIsPng(data: ByteString, crc: Crc)
    requires |data| <= MAX_PNG_BYTES && SIGNATURE <= data
    ensures var decision := Decide(INITIAL, data[|SIGNATURE|..], crc);
            && (decision.Some? <==> exists chunks, final :: IsPng(data, crc, chunks, final))
            && forall chunks, final :: IsPng(data, crc, chunks, final) ==> decision == Some(final)
  {
    hide Step, Serialize, ParseFirst, Decide, Run, AreChunks, SerializeAll, Leaves;
    var body := data[|SIGNATURE|..];
    assert data == SIGNATURE + body;
    DecideExact(INITIAL, body, crc);
    forall chunks, final | IsPng(data, crc, chunks, final) ensures Decide(INITIAL, body, crc) == Some(final) {
      assert body == (SIGNATURE + SerializeAll(chunks, crc))[|SIGNATURE|..] == SerializeAll(chunks, crc);
      RunIsGrammar(chunks, final);
    }
    if Decide(INITIAL, body, crc).Some? {
      var chunks :| AreChunks(chunks) && body == SerializeAll(chunks, crc) && Run(INITIAL, chunks).Some?;
      RunIsGrammar(chunks, Run(INITIAL, chunks).value);
      assert IsPng(data, crc, chunks, Run(INITIAL, chunks).value);
    }
  }
}
