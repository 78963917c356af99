/** The labelled digest frame (`gateway-config/src/canonical_json.rs`, `framed_digest`).
    The hash is a parameter: what is proved is about the bytes fed to it. */
module DigestFrame {
  import opened Bytes
  import opened JsonNumbers
  import opened CanonicalJson

  /** `GGDIGEST` and a zero byte. */
  const MAGIC: ByteString := [0x47, 0x47, 0x44, 0x49, 0x47, 0x45, 0x53, 0x54, 0x00]
  const SEMANTIC: ByteString := [0x73, 0x65, 0x6D, 0x61, 0x6E, 0x74, 0x69, 0x63]
  const SOURCE: ByteString := [0x73, 0x6F, 0x75, 0x72, 0x63, 0x65]

  /** A byte string as long as memory allows: its length is a `u64`. */
  type Part = p: ByteString | |p| <= U64_MAX

  function Framed(part: Part): ByteString { BigEndian(|part|, 8) + part }

  function FrameParts(parts: seq<Part>): ByteString {
    if parts == [] then [] else Framed(parts[0]) + FrameParts(parts[1..])
  }

  function Frame(kind: Part, mediaType: Part, schemaVersion: Part, payload: Part): ByteString {
    MAGIC + FrameParts([kind, mediaType, schemaVersion, payload])
  }

  /** What a frame is, byte for byte: the magic, then the kind, the media type, the schema
      version and the payload, each after its length. */
  lemma FrameBytes(kind: Part, mediaType: Part, schemaVersion: Part, payload: Part)
    ensures Frame(kind, mediaType, schemaVersion, payload) ==
            Ascii("GGDIGEST\0")
            + (BigEndian(|kind|, 8) + kind)
            + (BigEndian(|mediaType|, 8) + mediaType)
            + (BigEndian(|schemaVersion|, 8) + schemaVersion)
            + (BigEndian(|payload|, 8) + payload)
  {
    hide Ascii, Framed, FrameParts, BigEndian;
    FrameLabels();
    FourParts(kind, mediaType, schemaVersion, payload);
    FourAfter(MAGIC, Framed(kind), Framed(mediaType), Framed(schemaVersion), Framed(payload));
    FramedIs(kind);
    FramedIs(mediaType);
    FramedIs(schemaVersion);
    FramedIs(payload);
  }

  lemma FrameLabels()
    ensures MAGIC == Ascii("GGDIGEST\0") && SEMANTIC == Ascii("semantic") && SOURCE == Ascii("source")
  {
  }

  lemma FramedIs(part: Part)
    ensures Framed(part) == BigEndian(|part|, 8) + part
  {
  }

  lemma FourParts(a: Part, b: Part, c: Part, d: Part)
    ensures FrameParts([a, b, c, d]) == Framed(a) + (Framed(b) + (Framed(c) + (Framed(d) + [])))
  {
    hide Framed;
    var parts := [a, b, c, d];
    assert parts[1..] == [b, c, d];
    assert [b, c, d][1..] == [c, d];
    assert [c, d][1..] == [d];
    assert [d][1..] == [];
    assert FrameParts([d]) == Framed(d) + [];
    assert FrameParts([c, d]) == Framed(c) + FrameParts([d]);
    assert FrameParts([b, c, d]) == Framed(b) + FrameParts([c, d]);
  }

  lemma FourAfter(m: ByteString, a: ByteString, b: ByteString, c: ByteString, d: ByteString)
    ensures m + (a + (b + (c + (d + [])))) == m + a + b + c + d
  {
    assert d + [] == d;
    Associates(m, a, b + (c + d));
    Associates(m + a, b, c + d);
    Associates(m + a + b, c, d);
  }

  lemma PartUnique(a: Part, b: Part, restA: ByteString, restB: ByteString)
    requires Framed(a) + restA == Framed(b) + restB
    ensures a == b && restA == restB
  {
    var s := Framed(a) + restA;
    assert s[..8] == BigEndian(|a|, 8) && s[..8] == BigEndian(|b|, 8);
    assert Radix(4) == 0x1_0000_0000 && Radix(8) == U64_MAX + 1;
    BigEndianInjective(|a|, |b|, 8);
    assert a == s[8..8 + |a|] && b == s[8..8 + |a|];
    assert restA == s[8 + |a|..] && restB == s[8 + |a|..];
  }

  /** As many framed parts are uniquely decodable. */
  lemma {:induction false} PartsUnique(a: seq<Part>, b: seq<Part>)
    requires |a| == |b| && FrameParts(a) == FrameParts(b)
    ensures a == b
  {
    if a != [] {
      PartUnique(a[0], b[0], FrameParts(a[1..]), FrameParts(b[1..]));
      PartsUnique(a[1..], b[1..]);
      assert a == [a[0]] + a[1..] && b == [b[0]] + b[1..];
    }
  }

  /** Equal frames carry equal labels and equal payloads. */
  lemma FrameUnique(k: Part, m: Part, v: Part, p: Part, k': Part, m': Part, v': Part, p': Part)
    requires Frame(k, m, v, p) == Frame(k', m', v', p')
    ensures k == k' && m == m' && v == v' && p == p'
  {
    hide FrameParts;
    var a, b := [k, m, v, p], [k', m', v', p'];
    assert FrameParts(a) == Frame(k, m, v, p)[|MAGIC|..] && FrameParts(b) == Frame(k', m', v', p')[|MAGIC|..];
    PartsUnique(a, b);
    assert a[0] == k && a[1] == m && a[2] == v && a[3] == p;
    assert b[0] == k' && b[1] == m' && b[2] == v' && b[3] == p';
  }

  /** No semantic frame is a source frame. */
  lemma SemanticIsNeverSource(m: Part, v: Part, p: Part, m': Part, v': Part, p': Part)
    ensures Frame(SEMANTIC, m, v, p) != Frame(SOURCE, m', v', p')
  {
    if Frame(SEMANTIC, m, v, p) == Frame(SOURCE, m', v', p') {
      FrameUnique(SEMANTIC, m, v, p, SOURCE, m', v', p');
    }
  }

  /** A semantic frame binds the media type, the schema version and the value
      itself, and nothing of how the value was spelled or of the platform. */
  lemma SemanticFrameBindsValue(
    f: Formatter, g: Formatter, m: Part, s: Part, v: Json, m': Part, s': Part, w: Json)
    requires Faithful(f) && Faithful(g) && Encodable(f, v) && Encodable(g, w)
    requires |Encode(f, v)| <= U64_MAX && |Encode(g, w)| <= U64_MAX
    ensures Frame(SEMANTIC, m, s, Encode(f, v)) == Frame(SEMANTIC, m', s', Encode(g, w))
            <==> m == m' && s == s' && Meaning(v) == Meaning(w)
  {
    hide Frame, Faithful, Encodable, Encode, Meaning;
    CanonicalBytesIdentifyValue(f, g, v, w);
    if Frame(SEMANTIC, m, s, Encode(f, v)) == Frame(SEMANTIC, m', s', Encode(g, w)) {
      FrameUnique(SEMANTIC, m, s, Encode(f, v), SEMANTIC, m', s', Encode(g, w));
    }
  }

  /** The hasher a frame is fed to. */
  class Hasher {
    var fed: ByteString

    constructor ()
      ensures fed == []
    {
      fed := [];
    }

    method Update(bytes: ByteString)
      modifies this
      ensures fed == old(fed) + bytes
    {
      fed := fed + bytes;
    }
  }

  lemma FrameStep(parts: seq<Part>, i: nat)
    requires i < |parts|
    ensures FrameParts(parts[i..]) == Framed(parts[i]) + FrameParts(parts[i + 1..])
  {
    assert parts[i..][1..] == parts[i + 1..];
  }

  /** `framed_digest`, for any hash of the bytes fed to it. */
  method FramedDigest<D>(kind: Part, mediaType: Part, schemaVersion: Part, payload: Part, hash: ByteString -> D)
    returns (digest: D)
    ensures digest == hash(Frame(kind, mediaType, schemaVersion, payload))
  {
    var hasher := new Hasher();
    hasher.Update(MAGIC);
    var parts := [kind, mediaType, schemaVersion, payload];
    assert parts[0..] == parts;
    hide Framed;
    for i := 0 to |parts|
      invariant hasher.fed + FrameParts(parts[i..]) == MAGIC + FrameParts(parts)
    {
      FrameStep(parts, i);
      ghost var before := hasher.fed;
      hasher.Update(BigEndian(|parts[i]|, 8));
      hasher.Update(parts[i]);
      FedPart(before, parts[i], FrameParts(parts[i + 1..]));
    }
    assert FrameParts(parts[|parts|..]) == [];
    assert hasher.fed == MAGIC + FrameParts(parts);
    digest := hash(hasher.fed);
  }

  lemma FedPart(before: ByteString, part: Part, later: ByteString)
    ensures before + BigEndian(|part|, 8) + part + later == before + (Framed(part) + later)
  {
    Associates(before, BigEndian(|part|, 8), part);
    Associates(before, Framed(part), later);
  }
}
