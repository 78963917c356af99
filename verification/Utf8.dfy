/** Unicode scalar values and strict UTF-8, section 3.9 of the Unicode Standard. */
module Utf8 {
  import opened Bytes
  import opened Ordering

  /** A Rust `char`. */
  type Scalar = x: int | 0 <= x < 0x11_0000 && !(0xD800 <= x < 0xE000)

  datatype Decoded = Malformed | Decoded(scalar: Scalar, width: nat)

  /** `char::encode_utf8`. */
  function Encode(c: Scalar): (r: ByteString)
    ensures 1 <= |r| <= 4
  {
    if c < 0x80 then [c]
    else if c < 0x800 then [0xC0 + c / 64, 0x80 + c % 64]
    else if c < 0x1_0000 then [0xE0 + c / 4096, 0x80 + c / 64 % 64, 0x80 + c % 64]
    else [0xF0 + c / 262144, 0x80 + c / 4096 % 64, 0x80 + c / 64 % 64, 0x80 + c % 64]
  }

  predicate IsContinuation(b: Byte) { 0x80 <= b < 0xC0 }

  /** Appends the six bits a continuation byte carries. */
  function Push(high: int, b: int): int { high * 64 + (b - 0x80) }

  function Checked(c: int, least: int, width: nat): Decoded {
    if least <= c < 0x11_0000 && 0 <= c && !(0xD800 <= c < 0xE000) then Decoded(c, width) else Malformed
  }

  /** The first scalar of `s`, refusing overlong forms, surrogates and values
      past U+10FFFF. */
  function DecodeFirst(s: ByteString): (r: Decoded)
    ensures r.Decoded? ==> 1 <= r.width <= |s|
  {
    if s == [] then Malformed
    else if s[0] < 0x80 then Decoded(s[0], 1)
    else if 0xC0 <= s[0] < 0xE0 && |s| >= 2 && IsContinuation(s[1]) then
      Checked(Push(s[0] - 0xC0, s[1]), 0x80, 2)
    else if 0xE0 <= s[0] < 0xF0 && |s| >= 3 && IsContinuation(s[1]) && IsContinuation(s[2]) then
      Checked(Push(Push(s[0] - 0xE0, s[1]), s[2]), 0x800, 3)
    else if 0xF0 <= s[0] < 0xF8 && |s| >= 4
            && IsContinuation(s[1]) && IsContinuation(s[2]) && IsContinuation(s[3]) then
      Checked(Push(Push(Push(s[0] - 0xF0, s[1]), s[2]), s[3]), 0x1_0000, 4)
    else Malformed
  }

  /** `str::from_utf8(s).is_ok()`. */
  predicate IsUtf8(s: ByteString) {
    s == [] || (var d := DecodeFirst(s); d.Decoded? && IsUtf8(s[d.width..]))
  }

  lemma PushOfParts(c: int)
    ensures Push(c / 64, 0x80 + c % 64) == c
    ensures c / 64 / 64 == c / 4096 && c / 4096 / 64 == c / 262144
  {
  }

  lemma PartsOfPush(high: int, b: Byte)
    requires IsContinuation(b)
    ensures Push(high, b) / 64 == high && 0x80 + Push(high, b) % 64 == b
  {
  }

  /** Decoding undoes encoding, whatever follows. */
  lemma DecodeAfterEncode(c: Scalar, rest: ByteString)
    ensures DecodeFirst(Encode(c) + rest) == Decoded(c, |Encode(c)|)
  {
    PushOfParts(c);
    PushOfParts(c / 64);
    PushOfParts(c / 4096);
    var e, s := Encode(c), Encode(c) + rest;
    assert forall i :: 0 <= i < |e| ==> s[i] == e[i];
    if c < 0x80 {
    } else if c < 0x800 {
      assert Push(s[0] - 0xC0, s[1]) == c;
    } else if c < 0x1_0000 {
      assert Push(Push(s[0] - 0xE0, s[1]), s[2]) == c;
    } else {
      assert Push(Push(Push(s[0] - 0xF0, s[1]), s[2]), s[3]) == c;
    }
  }

  /** Only the encoding of a scalar decodes to it. */
  lemma EncodeAfterDecode(s: ByteString)
    requires DecodeFirst(s).Decoded?
    ensures s[..DecodeFirst(s).width] == Encode(DecodeFirst(s).scalar)
  {
    hide Push;
    if s[0] < 0x80 {
    } else if s[0] < 0xE0 {
      EncodeTwo(s[0] - 0xC0, s[1]);
    } else if s[0] < 0xF0 {
      EncodeThree(s[0] - 0xE0, s[1], s[2]);
    } else {
      EncodeFour(s[0] - 0xF0, s[1], s[2], s[3]);
    }
  }

  lemma EncodeTwo(high: int, b: Byte)
    requires IsContinuation(b)
    ensures Push(high, b) / 64 == high && 0x80 + Push(high, b) % 64 == b
  {
    PartsOfPush(high, b);
  }

  lemma EncodeThree(high: int, b: Byte, c: Byte)
    requires IsContinuation(b) && IsContinuation(c)
    ensures var x := Push(Push(high, b), c);
            x / 4096 == high && 0x80 + x / 64 % 64 == b && 0x80 + x % 64 == c
  {
    hide Push;
    PartsOfPush(high, b);
    PartsOfPush(Push(high, b), c);
    Quotients(Push(Push(high, b), c));
  }

  lemma EncodeFour(high: int, b: Byte, c: Byte, d: Byte)
    requires IsContinuation(b) && IsContinuation(c) && IsContinuation(d)
    ensures var x := Push(Push(Push(high, b), c), d);
            x / 262144 == high && 0x80 + x / 4096 % 64 == b && 0x80 + x / 64 % 64 == c && 0x80 + x % 64 == d
  {
    hide Push;
    EncodeThree(high, b, c);
    PartsOfPush(Push(Push(high, b), c), d);
    Quotients(Push(Push(Push(high, b), c), d));
    Quotients(Push(Push(Push(high, b), c), d) / 64);
  }

  lemma Quotients(c: int)
    ensures c / 64 / 64 == c / 4096 && c / 64 / 4096 == c / 262144
  {
  }

  predicate IsByteIn(s: ByteString, i: nat, low: int, high: int) { i < |s| && low <= s[i] <= high }

  /** The rows of Table 3-7 of the Unicode Standard with `n` bytes. */
  predicate StartsWellFormed(s: ByteString, n: int) {
    match n
    case 1 => IsByteIn(s, 0, 0x00, 0x7F)
    case 2 => IsByteIn(s, 0, 0xC2, 0xDF) && IsByteIn(s, 1, 0x80, 0xBF)
    case 3 =>
      && IsByteIn(s, 2, 0x80, 0xBF)
      && (|| (IsByteIn(s, 0, 0xE0, 0xE0) && IsByteIn(s, 1, 0xA0, 0xBF))
          || (IsByteIn(s, 0, 0xE1, 0xEC) && IsByteIn(s, 1, 0x80, 0xBF))
          || (IsByteIn(s, 0, 0xED, 0xED) && IsByteIn(s, 1, 0x80, 0x9F))
          || (IsByteIn(s, 0, 0xEE, 0xEF) && IsByteIn(s, 1, 0x80, 0xBF)))
    case 4 =>
      && IsByteIn(s, 2, 0x80, 0xBF) && IsByteIn(s, 3, 0x80, 0xBF)
      && (|| (IsByteIn(s, 0, 0xF0, 0xF0) && IsByteIn(s, 1, 0x90, 0xBF))
          || (IsByteIn(s, 0, 0xF1, 0xF3) && IsByteIn(s, 1, 0x80, 0xBF))
          || (IsByteIn(s, 0, 0xF4, 0xF4) && IsByteIn(s, 1, 0x80, 0x8F)))
    case _ => false
  }

  /** A scalar is read exactly where a row of the table is. */
  lemma DecodesWellFormed(s: ByteString, n: int)
    ensures StartsWellFormed(s, n) <==> DecodeFirst(s).Decoded? && DecodeFirst(s).width == n
  {
  }

  /** A lead byte's offset and then six bits a byte. */
  function Sextets(lead: int, c: int, n: nat): (r: seq<int>)
    ensures |r| == n + 1
    decreases n
  {
    if n == 0 then [lead + c] else Sextets(lead, c / 64, n - 1) + [0x80 + c % 64]
  }

  lemma {:induction false} LexLessAppended(a: seq<int>, b: seq<int>, x: int, y: int)
    requires |a| == |b| && (LexLess(a, b) || (a == b && x < y))
    ensures LexLess(a + [x], b + [y])
  {
    if a != [] {
      assert (a + [x])[1..] == a[1..] + [x] && (b + [y])[1..] == b[1..] + [y];
      if a[0] == b[0] {
        LexLessAppended(a[1..], b[1..], x, y);
      }
    }
  }

  lemma {:induction false} SextetsKeepOrder(lead: int, a: int, b: int, n: nat)
    requires a < b
    ensures LexLess(Sextets(lead, a, n), Sextets(lead, b, n))
    decreases n
  {
    if n > 0 {
      if a / 64 < b / 64 {
        SextetsKeepOrder(lead, a / 64, b / 64, n - 1);
      }
      assert a / 64 < b / 64 || (a / 64 == b / 64 && a % 64 < b % 64);
      LexLessAppended(Sextets(lead, a / 64, n - 1), Sextets(lead, b / 64, n - 1), 0x80 + a % 64, 0x80 + b % 64);
    }
  }

  lemma EncodeIsSextets(c: Scalar)
    ensures c < 0x80 ==> Encode(c) == Sextets(0, c, 0)
    ensures 0x80 <= c < 0x800 ==> Encode(c) == Sextets(0xC0, c, 1)
    ensures 0x800 <= c < 0x1_0000 ==> Encode(c) == Sextets(0xE0, c, 2)
    ensures 0x1_0000 <= c ==> Encode(c) == Sextets(0xF0, c, 3)
  {
    Quotients(c);
    assert Sextets(0xC0, c, 1) == Sextets(0xC0, c / 64, 0) + [0x80 + c % 64];
    assert Sextets(0xE0, c / 64, 1) == Sextets(0xE0, c / 64 / 64, 0) + [0x80 + c / 64 % 64];
    assert Sextets(0xF0, c / 64 / 64, 1) == Sextets(0xF0, c / 64 / 64 / 64, 0) + [0x80 + c / 64 / 64 % 64];
    assert Sextets(0xF0, c / 64, 2) == Sextets(0xF0, c / 64 / 64, 1) + [0x80 + c / 64 % 64];
  }

  /** UTF-8 keeps the order of code points: the first byte that differs decides. */
  lemma EncodeKeepsOrder(a: Scalar, b: Scalar)
    requires a < b
    ensures LexLess(Encode(a), Encode(b))
  {
    var n := |Encode(a)| - 1;
    if n == |Encode(b)| - 1 {
      var lead := if n == 0 then 0 else if n == 1 then 0xC0 else if n == 2 then 0xE0 else 0xF0;
      EncodeIsSextets(a);
      EncodeIsSextets(b);
      SextetsKeepOrder(lead, a, b, n);
    }
  }

  lemma {:induction false} AsciiIsUtf8(s: ByteString)
    requires forall i :: 0 <= i < |s| ==> s[i] < 0x80
    ensures IsUtf8(s)
  {
    if s != [] {
      AsciiIsUtf8(s[1..]);
    }
  }
}
