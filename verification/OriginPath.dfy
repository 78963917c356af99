/** Origin-relative paths (`gateway-config/src/connections.rs`,
    `normalize_origin_relative_path`). */
module OriginPath {
  import opened Bytes
  import opened Results
  import Utf8

  const MAX_PATH_BYTES: nat := 1024
  const PERCENT: Byte := 0x25
  const SEPARATOR: set<Byte> := {SLASH}

  datatype PathError = InvalidPath | InvalidPercentEncoding | PathConfusion

  predicate IsEscapeAt(s: ByteString, i: nat) {
    i + 2 < |s| && s[i] == PERCENT && IsHexDigit(s[i + 1]) && IsHexDigit(s[i + 2])
  }

  /** Every `%` starts an escape. */
  predicate WellEscaped(s: ByteString) {
    forall i :: 0 <= i < |s| && s[i] == PERCENT ==> IsEscapeAt(s, i)
  }

  /** `percent_decode_str`: a `%` that starts no escape stands for itself. */
  function PercentDecode(s: ByteString): ByteString {
    if s == [] then []
    else if IsEscapeAt(s, 0) then [HexValue(s[1]) * 16 + HexValue(s[2])] + PercentDecode(s[3..])
    else [s[0]] + PercentDecode(s[1..])
  }

  /** What a byte is escaped as: `%`, the digit of its high half, the digit of its low. */
  predicate IsEscapeOf(e: ByteString, b: Byte) {
    |e| == 3 && e[0] == '%' as int && IsHexDigitOf(e[1], b / 16) && IsHexDigitOf(e[2], b % 16)
  }

  ghost predicate IsEscape(e: ByteString) { exists b: Byte :: IsEscapeOf(e, b) }

  /** Whether `s` spells `d`: an escape its byte, any other byte itself. */
  ghost predicate Spells(s: ByteString, d: ByteString) {
    if d == [] then s == []
    else
      && s != []
      && if |s| >= 3 && IsEscape(s[..3]) then IsEscapeOf(s[..3], d[0]) && Spells(s[3..], d[1..])
         else s[0] == d[0] && Spells(s[1..], d[1..])
  }

  lemma EscapeAt(s: ByteString, i: nat, b: Byte)
    requires i + 3 <= |s|
    ensures IsEscapeOf(s[i..i + 3], b) <==>
            IsEscapeAt(s, i) && b == HexValue(s[i + 1]) * 16 + HexValue(s[i + 2])
  {
    HexDigitsAre(s[i + 1], b / 16);
    HexDigitsAre(s[i + 2], b % 16);
  }

  lemma IsEscapeExact(s: ByteString, i: nat)
    ensures IsEscapeAt(s, i) <==> i + 3 <= |s| && IsEscape(s[i..i + 3])
  {
    if i + 3 <= |s| {
      var e := s[i..i + 3];
      if b: Byte :| IsEscapeOf(e, b) {
        EscapeAt(s, i, b);
      }
      if IsEscapeAt(s, i) {
        EscapeAt(s, i, HexValue(s[i + 1]) * 16 + HexValue(s[i + 2]));
      }
    }
  }

  /** Decoding gives exactly what is spelled. */
  lemma {:induction false} DecodeExact(s: ByteString, d: ByteString)
    ensures PercentDecode(s) == d <==> Spells(s, d)
    decreases |s|
  {
    hide IsEscapeAt, IsEscapeOf, IsEscape, HexValue;
    if s != [] && d != [] {
      IsEscapeExact(s, 0);
      var n := if IsEscapeAt(s, 0) then 3 else 1;
      if n == 3 {
        assert s[0..0 + 3] == s[..3];
        EscapeAt(s, 0, d[0]);
      } else {
        assert |s| >= 3 ==> s[0..0 + 3] == s[..3];
      }
      DecodeExact(s[n..], d[1..]);
      assert PercentDecode(s)[1..] == PercentDecode(s[n..]);
      assert d == [d[0]] + d[1..];
    }
  }

  /** Every byte escaped, in one letter case. */
  function PercentEncode(d: ByteString, upper: bool): ByteString {
    if d == [] then []
    else
      var digits := Ascii(if upper then "0123456789ABCDEF" else "0123456789abcdef");
      ['%' as int, digits[d[0] / 16], digits[d[0] % 16]] + PercentEncode(d[1..], upper)
  }

  lemma {:induction false} EncodedSpells(d: ByteString, upper: bool)
    ensures Spells(PercentEncode(d, upper), d)
  {
    if d != [] {
      var s := PercentEncode(d, upper);
      EncodedSpells(d[1..], upper);
      assert s[3..] == PercentEncode(d[1..], upper);
      assert IsEscapeOf(s[..3], d[0]);
    }
  }

  /** Decoding undoes escaping. */
  lemma DecodeEncode(d: ByteString, upper: bool)
    ensures PercentDecode(PercentEncode(d, upper)) == d
  {
    EncodedSpells(d, upper);
    DecodeExact(PercentEncode(d, upper), d);
  }

  /** Decoding goes by parts, where the first part ends no escape short. */
  lemma {:induction false} DecodeConcat(a: ByteString, b: ByteString)
    requires WellEscaped(a)
    ensures PercentDecode(a + b) == PercentDecode(a) + PercentDecode(b)
    decreases |a|
  {
    hide IsHexDigit, HexValue;
    var s := a + b;
    if a == [] {
      assert s == b;
    } else {
      var n := if IsEscapeAt(a, 0) then 3 else 1;
      assert forall i :: 0 <= i < |a| ==> s[i] == a[i];
      assert IsEscapeAt(s, 0) <==> IsEscapeAt(a, 0) by {
        assert a[0] == PERCENT ==> IsEscapeAt(a, 0);
      }
      assert s[n..] == a[n..] + b;
      assert WellEscaped(a[n..]) by {
        forall i | 0 <= i < |a[n..]| && a[n..][i] == PERCENT ensures IsEscapeAt(a[n..], i) {
          assert a[i + n] == PERCENT;
          assert IsEscapeAt(a, i + n);
        }
      }
      DecodeConcat(a[n..], b);
    }
  }

  /** `has_invalid_percent_escape`. */
  method HasInvalidPercentEscape(value: ByteString) returns (invalid: bool)
    ensures invalid <==> !WellEscaped(value)
  {
    var index := 0;
    while index < |value|
      invariant 0 <= index
      invariant forall i :: 0 <= i < |value| && i < index && value[i] == PERCENT ==> IsEscapeAt(value, i)
    {
      if value[index] == PERCENT {
        if !IsEscapeAt(value, index) {
          return true;
        }
        index := index + 3;
      } else {
        index := index + 1;
      }
    }
    invalid := false;
  }

  predicate IsRefusedByte(b: Byte) {
    b <= 0x20 || b == 0x7F || b == 0x3F || b == 0x23 || b == BACKSLASH
  }

  /** The shape checked before any segment is decoded. */
  predicate HasPathShape(value: ByteString) {
    && 0 < |value| <= MAX_PATH_BYTES
    && value[0] == SLASH
    && (forall i :: 0 <= i < |value| - 1 ==> !(value[i] == SLASH && value[i + 1] == SLASH))
    && (forall i :: 0 <= i < |value| ==> !IsRefusedByte(value[i]))
    && WellEscaped(value)
  }

  /** What a decoded segment must not be or hold. */
  predicate IsPlain(decoded: ByteString) {
    && decoded != [DOT] && decoded != [DOT, DOT]
    && SLASH !in decoded && BACKSLASH !in decoded && 0 !in decoded
  }

  function SegmentsError(segments: seq<ByteString>): Option<PathError> {
    if segments == [] then None
    else
      var decoded := PercentDecode(segments[0]);
      if !Utf8.IsUtf8(decoded) then Some(InvalidPercentEncoding)
      else if !IsPlain(decoded) then Some(PathConfusion)
      else SegmentsError(segments[1..])
  }

  /** `trim_end_matches('/')`. */
  function TrimSlashes(s: ByteString): (r: ByteString)
    ensures r <= s
  {
    if s != [] && s[|s| - 1] == SLASH then TrimSlashes(s[..|s| - 1]) else s
  }

  function Normalize(value: ByteString): Result<ByteString, PathError> {
    if !HasPathShape(value) then Err(InvalidPath)
    else match SegmentsError(Split(value, SEPARATOR))
      case Some(error) => Err(error)
      case None => Ok(if |value| > 1 then TrimSlashes(value) else value)
  }

  /** `normalize_origin_relative_path`. */
  method NormalizeOriginRelativePath(value: ByteString) returns (r: Result<ByteString, PathError>)
    ensures r == Normalize(value)
  {
    var invalid := HasInvalidPercentEscape(value);
    if value == [] || |value| > MAX_PATH_BYTES || value[0] != SLASH || invalid
       || (exists i :: 0 <= i < |value| - 1 && value[i] == SLASH && value[i + 1] == SLASH)
       || (exists i :: 0 <= i < |value| && IsRefusedByte(value[i])) {
      return Err(InvalidPath);
    }
    var segments := Split(value, SEPARATOR);
    assert segments[0..] == segments;
    for k := 0 to |segments|
      invariant SegmentsError(segments) == SegmentsError(segments[k..])
    {
      assert segments[k..][1..] == segments[k + 1..];
      var decoded := PercentDecode(segments[k]);
      if !Utf8.IsUtf8(decoded) {
        return Err(InvalidPercentEncoding);
      }
      if !IsPlain(decoded) {
        return Err(PathConfusion);
      }
    }
    r := Ok(if |value| > 1 then TrimSlashes(value) else value);
  }

  /** Which bytes are refused, and where a `%` stands right, by what they are. */
  lemma RefusedBytes(b: Byte, value: ByteString)
    ensures IsRefusedByte(b) <==> b <= ' ' as int || b == 127 || b in Ascii("?#\\")
    ensures WellEscaped(value) <==>
            forall i :: 0 <= i < |value| && value[i] == '%' as int ==> i + 3 <= |value| && IsEscape(value[i..i + 3])
  {
    var marks := Ascii("?#\\");
    assert marks[0] == 0x3F && marks[1] == 0x23 && marks[2] == 0x5C;
    forall i | 0 <= i < |value| ensures IsEscapeAt(value, i) <==> i + 3 <= |value| && IsEscape(value[i..i + 3]) {
      IsEscapeExact(value, i);
    }
  }

  /** The first segment that is not clean decides the error. */
  ghost predicate FirstUnclean(segments: seq<ByteString>, k: int) {
    0 <= k < |segments| && !Clean(segments[k]) && forall j :: 0 <= j < k ==> Clean(segments[j])
  }

  lemma {:induction false} SegmentsErrorIs(segments: seq<ByteString>, k: int)
    requires FirstUnclean(segments, k)
    ensures SegmentsError(segments) ==
            Some(if Utf8.IsUtf8(PercentDecode(segments[k])) then PathConfusion else InvalidPercentEncoding)
  {
    hide PercentDecode, IsPlain, Utf8.IsUtf8;
    if k > 0 {
      assert Clean(segments[0]);
      SegmentsErrorIs(segments[1..], k - 1);
    }
  }

  ghost predicate IsUnclean(segments: seq<ByteString>, text: bool) {
    exists k :: FirstUnclean(segments, k) && (Utf8.IsUtf8(PercentDecode(segments[k])) <==> text)
  }

  lemma SegmentsErrors(segments: seq<ByteString>)
    ensures SegmentsError(segments) == Some(InvalidPercentEncoding) <==> IsUnclean(segments, false)
    ensures SegmentsError(segments) == Some(PathConfusion) <==> IsUnclean(segments, true)
    ensures SegmentsError(segments) != Some(InvalidPath)
  {
    hide PercentDecode, Utf8.IsUtf8, Clean, SegmentsError;
    SegmentsErrorNone(segments);
    if segment :| segment in segments && !Clean(segment) {
      var n :| 0 <= n < |segments| && !Clean(segments[n]);
      var k := FindUnclean(segments, n);
      SegmentsErrorIs(segments, k);
      assert forall i :: FirstUnclean(segments, i) ==> i == k;
    }
  }

  /** Each error says what is wrong: the shape; else the first unclean segment is no
      text, or a text that a path could be confused by. */
  lemma NormalizeErrors(value: ByteString)
    ensures Normalize(value) == Err(InvalidPath) <==> !HasPathShape(value)
    ensures Normalize(value) == Err(InvalidPercentEncoding) <==>
            HasPathShape(value) && IsUnclean(Split(value, SEPARATOR), false)
    ensures Normalize(value) == Err(PathConfusion) <==>
            HasPathShape(value) && IsUnclean(Split(value, SEPARATOR), true)
  {
    hide HasPathShape, Split, IsUnclean, SegmentsError;
    SegmentsErrors(Split(value, SEPARATOR));
  }

  lemma {:induction false} FindUnclean(segments: seq<ByteString>, n: int) returns (k: int)
    requires 0 <= n < |segments| && !Clean(segments[n])
    ensures FirstUnclean(segments, k)
  {
    hide Clean;
    if j :| 0 <= j < n && !Clean(segments[j]) {
      k := FindUnclean(segments, j);
    } else {
      k := n;
    }
  }

  predicate Clean(segment: ByteString) {
    Utf8.IsUtf8(PercentDecode(segment)) && IsPlain(PercentDecode(segment))
  }

  lemma {:induction false} SegmentsErrorNone(segments: seq<ByteString>)
    ensures SegmentsError(segments).None? <==> forall segment <- segments :: Clean(segment)
  {
    hide PercentDecode, IsPlain, Utf8.IsUtf8;
    if segments != [] {
      SegmentsErrorNone(segments[1..]);
      assert segments == [segments[0]] + segments[1..];
      assert segments[0] in segments && forall segment <- segments[1..] :: segment in segments;
      assert Clean(segments[0]) <==> Utf8.IsUtf8(PercentDecode(segments[0])) && IsPlain(PercentDecode(segments[0]));
    }
  }

  /** What the result of normalising is: a path of the same shape without a
      trailing `/`, every segment of which decodes to something plain. */
  ghost predicate IsNormal(path: ByteString) {
    && HasPathShape(path)
    && (forall segment <- Split(path, SEPARATOR) :: Clean(segment))
    && (|path| > 1 ==> path[|path| - 1] != SLASH)
  }

  lemma PrefixShape(path: ByteString)
    requires HasPathShape(path + [SLASH]) && path != []
    ensures HasPathShape(path) && path[|path| - 1] != SLASH
  {
    var value := path + [SLASH];
    assert forall i :: 0 <= i < |path| ==> value[i] == path[i];
    forall i | 0 <= i < |path| && path[i] == PERCENT ensures IsEscapeAt(path, i) {
      assert value[i] == PERCENT;
      assert IsEscapeAt(value, i);
    }
    assert value[|path| - 1] == path[|path| - 1] && value[|path|] == SLASH;
  }

  /** Normalising succeeds exactly on paths whose segments are all clean, and
      drops only one trailing `/`; its result is normal. */
  lemma NormalizeExact(value: ByteString)
    ensures Normalize(value).Ok? <==> HasPathShape(value) && forall segment <- Split(value, SEPARATOR) :: Clean(segment)
    ensures Normalize(value).Ok? ==>
              && IsNormal(Normalize(value).value)
              && (Normalize(value).value == value || Normalize(value).value + [SLASH] == value)
  {
    hide Clean;
    SegmentsErrorNone(Split(value, SEPARATOR));
    if Normalize(value).Ok? && |value| > 1 && value[|value| - 1] == SLASH {
      var path := value[..|value| - 1];
      assert value == path + [SLASH];
      PrefixShape(path);
      SplitTrailing(path, SEPARATOR, SLASH);
      assert TrimSlashes(value) == path;
      assert forall segment <- Split(path, SEPARATOR) :: segment in Split(value, SEPARATOR);
    }
  }

  /** Normalising is idempotent. */
  lemma NormalizeIdempotent(value: ByteString)
    requires Normalize(value).Ok?
    ensures Normalize(Normalize(value).value) == Normalize(value)
  {
    hide Clean, HasPathShape;
    NormalizeExact(value);
    var path := Normalize(value).value;
    NormalizeExact(path);
  }

  // Splitting and decoding commute.

  function DecodeEach(segments: seq<ByteString>): (r: seq<ByteString>)
    ensures |r| == |segments|
  {
    if segments == [] then [] else [PercentDecode(segments[0])] + DecodeEach(segments[1..])
  }

  /** No escape spans a separator. */
  lemma {:induction false} DecodeAcross(a: ByteString, b: ByteString)
    ensures PercentDecode(a + [SLASH] + b) == PercentDecode(a) + [SLASH] + PercentDecode(b)
    decreases |a|
  {
    var s := a + [SLASH] + b;
    if a == [] {
      assert s[0] == SLASH && s[1..] == b;
    } else if IsEscapeAt(a, 0) {
      assert s[0] == a[0] && s[1] == a[1] && s[2] == a[2];
      assert s[3..] == a[3..] + [SLASH] + b;
      DecodeAcross(a[3..], b);
    } else {
      assert s[0] == a[0] && s[1..] == a[1..] + [SLASH] + b;
      assert !IsEscapeAt(s, 0) by {
        if |a| == 1 { assert s[1] == SLASH; }
        else if |a| == 2 { assert s[2] == SLASH; }
        else { assert s[1] == a[1] && s[2] == a[2]; }
      }
      DecodeAcross(a[1..], b);
    }
  }

  lemma {:induction false} SplitAt(a: ByteString, b: ByteString)
    requires SLASH !in a
    ensures Split(a + [SLASH] + b, SEPARATOR) == [a] + Split(b, SEPARATOR)
  {
    var s := a + [SLASH] + b;
    if a == [] {
      assert s[0] == SLASH && s[1..] == b;
    } else {
      assert s[0] == a[0] && s[1..] == a[1..] + [SLASH] + b;
      SplitAt(a[1..], b);
      assert [a[0]] + a[1..] == a;
    }
  }

  lemma {:induction false} SplitNone(a: ByteString)
    requires SLASH !in a
    ensures Split(a, SEPARATOR) == [a]
  {
    if a != [] {
      SplitNone(a[1..]);
      assert [a[0]] + a[1..] == a;
    }
  }

  lemma {:induction false} DecodeSplitCommute(s: ByteString)
    requires forall segment <- Split(s, SEPARATOR) :: SLASH !in PercentDecode(segment)
    ensures Split(PercentDecode(s), SEPARATOR) == DecodeEach(Split(s, SEPARATOR))
    decreases |s|
  {
    hide Split, PercentDecode;
    SplitStep(s, SEPARATOR);
    var parts := Split(s, SEPARATOR);
    var first := parts[0];
    assert first in parts;
    if |first| == |s| {
      SplitNone(PercentDecode(s));
      assert parts[1..] == [];
    } else {
      var rest := s[|first| + 1..];
      assert s == first + [SLASH] + rest;
      DecodeAcross(first, rest);
      SplitAt(PercentDecode(first), PercentDecode(rest));
      assert forall segment <- Split(rest, SEPARATOR) :: segment in parts;
      DecodeSplitCommute(rest);
    }
  }

  // Dot segments.

  predicate StartsWith(s: ByteString, prefix: ByteString) { prefix <= s }

  /** The length of the first path segment, its initial `/` included. */
  function SegmentLength(s: ByteString): (n: nat)
    requires s != []
    ensures 0 < n <= |s|
  {
    SplitStep(s[1..], SEPARATOR);
    1 + |Split(s[1..], SEPARATOR)[0]|
  }

  /** An output without its last segment and the `/` before it. */
  function DropLast(output: ByteString): ByteString {
    if output == [] then []
    else if output[|output| - 1] == SLASH then output[..|output| - 1] else DropLast(output[..|output| - 1])
  }

  /** `remove_dot_segments`, section 5.2.4 of RFC 3986. */
  function RemoveDotSegments(input: ByteString, output: ByteString): ByteString
    decreases |input|
  {
    if input == [] then output
    else if StartsWith(input, [DOT, DOT, SLASH]) then RemoveDotSegments(input[3..], output)
    else if StartsWith(input, [DOT, SLASH]) then RemoveDotSegments(input[2..], output)
    else if StartsWith(input, [SLASH, DOT, SLASH]) then RemoveDotSegments(input[2..], output)
    else if input == [SLASH, DOT] then RemoveDotSegments([SLASH], output)
    else if StartsWith(input, [SLASH, DOT, DOT, SLASH]) then RemoveDotSegments(input[3..], DropLast(output))
    else if input == [SLASH, DOT, DOT] then RemoveDotSegments([SLASH], DropLast(output))
    else if input == [DOT] || input == [DOT, DOT] then RemoveDotSegments([], output)
    else
      var n := SegmentLength(input);
      RemoveDotSegments(input[n..], output + input[..n])
  }

  ghost predicate NoDotSegments(s: ByteString) {
    forall segment <- Split(s, SEPARATOR) :: segment != [DOT] && segment != [DOT, DOT]
  }

  lemma DotFirst(body: ByteString, segment: ByteString)
    requires SLASH !in segment
    ensures body == segment || StartsWith(body, segment + [SLASH]) ==> Split(body, SEPARATOR)[0] == segment
  {
    if body == segment {
      SplitNone(body);
    } else if StartsWith(body, segment + [SLASH]) {
      var rest := body[|segment| + 1..];
      assert body == segment + [SLASH] + rest;
      SplitAt(segment, rest);
    }
  }

  function FirstOf(input: ByteString): ByteString
    requires input != []
  {
    Split(input[1..], SEPARATOR)[0]
  }

  /** The segment after the initial `/` decides which rule applies. */
  lemma FirstSegment(input: ByteString)
    requires input != [] && input[0] == SLASH
    ensures FirstOf(input) == [DOT] <==> StartsWith(input, [SLASH, DOT, SLASH]) || input == [SLASH, DOT]
    ensures FirstOf(input) == [DOT, DOT] <==>
            StartsWith(input, [SLASH, DOT, DOT, SLASH]) || input == [SLASH, DOT, DOT]
  {
    FirstIs(input, [DOT]);
    FirstIs(input, [DOT, DOT]);
    assert [SLASH] + [DOT] == [SLASH, DOT] && [SLASH] + [DOT] + [SLASH] == [SLASH, DOT, SLASH];
    assert [SLASH] + [DOT, DOT] == [SLASH, DOT, DOT];
    assert [SLASH] + [DOT, DOT] + [SLASH] == [SLASH, DOT, DOT, SLASH];
  }

  lemma FirstIs(input: ByteString, segment: ByteString)
    requires input != [] && input[0] == SLASH && SLASH !in segment
    ensures FirstOf(input) == segment <==>
            StartsWith(input, [SLASH] + segment + [SLASH]) || input == [SLASH] + segment
  {
    hide Split;
    var body := input[1..];
    assert input == [SLASH] + body;
    DotFirst(body, segment);
    SplitStep(body, SEPARATOR);
    if FirstOf(input) == segment && |segment| < |body| {
      assert body[..|segment| + 1] == segment + [SLASH];
    }
  }

  /** The segments after the first are those of the rest. */
  lemma LaterSegments(input: ByteString)
    requires input != [] && input[0] == SLASH
    ensures var n := SegmentLength(input);
            && (n < |input| ==> input[n] == SLASH)
            && (NoDotSegments(input) <==>
                FirstOf(input) != [DOT] && FirstOf(input) != [DOT, DOT] && NoDotSegments(input[n..]))
  {
    var body := input[1..];
    SplitStep(body, SEPARATOR);
    var parts := Split(body, SEPARATOR);
    var first := parts[0];
    assert Split(input, SEPARATOR) == [[]] + parts;
    assert forall i :: 0 <= i < |first| ==> body[i] == first[i] && body[i] != SLASH;
    assert forall i :: 0 <= i < |body| ==> body[i] == input[i + 1];
    var n := SegmentLength(input);
    assert parts == [first] + parts[1..];
    if n < |input| {
      assert input[n] == body[|first|] == SLASH;
      assert input[n..][1..] == body[|first| + 1..];
      assert Split(input[n..], SEPARATOR) == [[]] + parts[1..];
    } else {
      assert input[n..] == [] && parts[1..] == [];
    }
    var rest := Split(input[n..], SEPARATOR);
    assert rest == [[]] + parts[1..];
    assert forall segment :: segment in Split(input, SEPARATOR) <==> segment in rest || segment == first;
    assert first == FirstOf(input);
    hide Split;
    if NoDotSegments(input) {
      assert first in Split(input, SEPARATOR);
      assert NoDotSegments(input[n..]);
    }
  }

  lemma {:induction false} DropLastShortens(output: ByteString)
    ensures |DropLast(output)| <= |output|
  {
    if output != [] {
      DropLastShortens(output[..|output| - 1]);
    }
  }

  /** A dot segment makes the result shorter. */
  lemma {:induction false} RemoveDotsShortens(input: ByteString, output: ByteString)
    requires input != [] ==> input[0] == SLASH
    ensures |RemoveDotSegments(input, output)| <= |output| + |input|
    ensures !NoDotSegments(input) ==> |RemoveDotSegments(input, output)| < |output| + |input|
    decreases |input|
  {
    hide Split, NoDotSegments, SegmentLength, DropLast;
    DropLastShortens(output);
    if input == [] {
      assert NoDotSegments(input) by { NothingToRemove(); }
    } else {
      FirstSegment(input);
      LaterSegments(input);
      if StartsWith(input, [SLASH, DOT, SLASH]) {
        RemoveDotsShortens(input[2..], output);
      } else if input == [SLASH, DOT] {
        RemoveDotsShortens([SLASH], output);
      } else if StartsWith(input, [SLASH, DOT, DOT, SLASH]) {
        RemoveDotsShortens(input[3..], DropLast(output));
      } else if input == [SLASH, DOT, DOT] {
        RemoveDotsShortens([SLASH], DropLast(output));
      } else {
        var n := SegmentLength(input);
        RemoveDotsShortens(input[n..], output + input[..n]);
      }
    }
  }

  lemma NothingToRemove()
    ensures NoDotSegments([])
  {
  }

  /** Dot-segment removal leaves a rooted path alone exactly when it has no dot segment. */
  lemma RemoveDotsExact(path: ByteString)
    requires path != [] && path[0] == SLASH
    ensures RemoveDotSegments(path, []) == path <==> NoDotSegments(path)
  {
    hide RemoveDotSegments, NoDotSegments;
    RemoveDotsShortens(path, []);
    if NoDotSegments(path) {
      RemoveDotsIdentity(path, []);
      assert [] + path == path;
    }
  }

  /** Dot-segment removal changes no path without dot segments. */
  lemma {:induction false} RemoveDotsIdentity(input: ByteString, output: ByteString)
    requires NoDotSegments(input) && (input != [] ==> input[0] == SLASH)
    ensures RemoveDotSegments(input, output) == output + input
    decreases |input|
  {
    hide Split, NoDotSegments, SegmentLength, DropLast;
    if input == [] {
      assert output + input == output;
    } else {
      FirstSegment(input);
      LaterSegments(input);
      var n := SegmentLength(input);
      RemoveDotsIdentity(input[n..], output + input[..n]);
      assert output + input[..n] + input[n..] == output + input;
    }
  }

  lemma {:induction false} DecodedSegments(segments: seq<ByteString>)
    ensures forall decoded <- DecodeEach(segments) :: exists segment <- segments :: decoded == PercentDecode(segment)
  {
    hide PercentDecode;
    if segments != [] {
      DecodedSegments(segments[1..]);
      forall decoded | decoded in DecodeEach(segments)
        ensures exists segment <- segments :: decoded == PercentDecode(segment)
      {
        if decoded in DecodeEach(segments[1..]) {
          var segment :| segment in segments[1..] && decoded == PercentDecode(segment);
          assert segment in segments;
        } else {
          assert decoded == PercentDecode(segments[0]) && segments[0] in segments;
        }
      }
    }
  }

  lemma DotsDecode()
    ensures PercentDecode([DOT]) == [DOT] && PercentDecode([DOT, DOT]) == [DOT, DOT]
  {
    assert [DOT][1..] == [] && [DOT, DOT][1..] == [DOT];
    assert PercentDecode([DOT]) == [DOT] + PercentDecode([]);
  }

  /** Neither a dot segment nor with a separator of either kind, or a NUL, in it. */
  ghost predicate IsOrdinary(segment: ByteString) {
    && segment != Ascii(".") && segment != Ascii("..")
    && forall b <- segment :: b != '/' as int && b != '\\' as int && b != '\0' as int
  }

  lemma PlainIsOrdinary(segment: ByteString)
    ensures IsPlain(segment) <==> IsOrdinary(segment)
  {
    assert Ascii(".") == [DOT] && Ascii("..") == [DOT, DOT];
  }

  /** Path confusion is impossible: splitting an accepted path and decoding its
      segments gives the same as decoding it and splitting, no decoded segment
      holds a separator or a NUL or is a dot segment, and removing dot segments
      changes neither the path nor its decoded form. */
  lemma NoPathConfusion(value: ByteString)
    requires Normalize(value).Ok?
    ensures var path := Normalize(value).value;
            && Split(PercentDecode(path), SEPARATOR) == DecodeEach(Split(path, SEPARATOR))
            && (forall segment <- Split(PercentDecode(path), SEPARATOR) :: IsOrdinary(segment))
            && RemoveDotSegments(path, []) == path
            && RemoveDotSegments(PercentDecode(path), []) == PercentDecode(path)
  {
    NormalizeExact(value);
    var path := Normalize(value).value;
    assert IsNormal(path);
    hide Normalize, Split, PercentDecode, RemoveDotSegments;
    forall segment | segment in Split(path, SEPARATOR)
      ensures SLASH !in PercentDecode(segment) && segment != [DOT] && segment != [DOT, DOT]
    {
      assert Clean(segment);
      DotsDecode();
    }
    DecodeSplitCommute(path);
    DecodedSegments(Split(path, SEPARATOR));
    forall segment | segment in Split(PercentDecode(path), SEPARATOR) ensures IsOrdinary(segment) {
      PlainIsOrdinary(segment);
    }
    RemoveDotsIdentity(path, []);
    DecodedStart(path);
    RemoveDotsIdentity(PercentDecode(path), []);
    assert [] + path == path && [] + PercentDecode(path) == PercentDecode(path);
  }

  lemma DecodedStart(path: ByteString)
    requires path != [] && path[0] == SLASH
    ensures PercentDecode(path) != [] && PercentDecode(path)[0] == SLASH
  {
  }
}
