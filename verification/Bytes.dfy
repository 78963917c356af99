/** Bytes, byte strings and splitting at separator bytes.
    A Rust `&str` is modelled by its UTF-8 bytes: every separator and character
    class the modelled code looks for is ASCII, so byte positions and character
    boundaries agree. */
module Bytes {
  type Byte = x: int | 0 <= x < 256
  type ByteString = seq<Byte>

  const U64_MAX: nat := 0xFFFF_FFFF_FFFF_FFFF

  type U64 = n: nat | n <= U64_MAX
  type I64 = i: int | -0x8000_0000_0000_0000 <= i < 0x8000_0000_0000_0000

  const SLASH: Byte := 0x2F
  const BACKSLASH: Byte := 0x5C
  const COLON: Byte := 0x3A
  const DOT: Byte := 0x2E

  function Min(a: int, b: int): int { if a <= b then a else b }
  function Max(a: int, b: int): int { if a >= b then a else b }

  /** `u64::saturating_add` and `saturating_mul` of the exact result `n`. */
  function Saturate(n: nat): (r: nat)
    ensures r <= U64_MAX && r <= n
  {
    Min(n, U64_MAX)
  }

  lemma SaturateAdd(a: nat, b: nat)
    ensures Saturate(Saturate(a) + b) == Saturate(a + b)
  {
  }

  /** The bytes of a text of ASCII characters. */
  function Ascii(text: string): (r: ByteString)
    requires forall i :: 0 <= i < |text| ==> text[i] as int < 128
    ensures |r| == |text| && forall i :: 0 <= i < |text| ==> r[i] == text[i] as int
  {
    seq(|text|, i requires 0 <= i < |text| => CharByte(text[i]))
  }

  function CharByte(c: char): Byte
    requires c as int < 128
  {
    c as int
  }

  predicate IsDigit(b: Byte) { 0x30 <= b <= 0x39 }
  predicate IsUpper(b: Byte) { 0x41 <= b <= 0x5A }
  predicate IsLower(b: Byte) { 0x61 <= b <= 0x7A }
  predicate IsAlphanumeric(b: Byte) { IsDigit(b) || IsUpper(b) || IsLower(b) }

  predicate IsHexDigit(b: Byte) { IsDigit(b) || 0x41 <= b <= 0x46 || 0x61 <= b <= 0x66 }

  function HexValue(b: Byte): (n: int)
    requires IsHexDigit(b)
    ensures 0 <= n < 16
  {
    if IsDigit(b) then b - 0x30 else if b >= 0x61 then b - 0x57 else b - 0x37
  }

  /** The digit of each half-byte, in either letter case. */
  predicate IsHexDigitOf(b: Byte, v: int) {
    0 <= v < 16 && (b == "0123456789ABCDEF"[v] as int || b == "0123456789abcdef"[v] as int)
  }

  lemma HexDigitsAre(b: Byte, v: int)
    ensures IsHexDigitOf(b, v) <==> IsHexDigit(b) && HexValue(b) == v
  {
    if IsHexDigit(b) {
      var h := HexValue(b);
      assert IsHexDigitOf(b, h);
    }
  }

  /** `to_ascii_lowercase` of one byte. */
  function FoldByte(b: Byte): Byte { if IsUpper(b) then b + 32 else b }

  /** `to_ascii_lowercase`. */
  function Fold(s: ByteString): (r: ByteString)
    ensures |r| == |s|
    ensures forall i :: 0 <= i < |s| ==> r[i] == FoldByte(s[i])
  {
    seq(|s|, i requires 0 <= i < |s| => FoldByte(s[i]))
  }

  /** The upper- and lower-case letter at one place of the alphabet. */
  predicate IsLetterPair(upper: Byte, lower: Byte) {
    'A' as int <= upper <= 'Z' as int && lower - 'a' as int == upper - 'A' as int
  }

  predicate SameLetter(a: Byte, b: Byte) { a == b || IsLetterPair(a, b) || IsLetterPair(b, a) }

  /** Folding forgets letter case and nothing else. */
  lemma FoldsAlike(a: ByteString, b: ByteString)
    ensures Fold(a) == Fold(b) <==> |a| == |b| && forall i :: 0 <= i < |a| ==> SameLetter(a[i], b[i])
  {
    forall i | 0 <= i < |a| && i < |b| ensures FoldByte(a[i]) == FoldByte(b[i]) <==> SameLetter(a[i], b[i]) {
      FoldsByteAlike(a[i], b[i]);
    }
    if Fold(a) == Fold(b) {
      assert forall i :: 0 <= i < |a| ==> FoldByte(a[i]) == Fold(a)[i] == Fold(b)[i] == FoldByte(b[i]);
    }
  }

  lemma FoldsByteAlike(a: Byte, b: Byte)
    ensures FoldByte(a) == FoldByte(b) <==> SameLetter(a, b)
  {
  }

  lemma Associates(a: ByteString, b: ByteString, c: ByteString)
    ensures a + b + c == a + (b + c)
  {
  }

  /** `str::split` at any byte of `seps`: always at least one part. */
  function Split(s: ByteString, seps: set<Byte>): (parts: seq<ByteString>)
    ensures |parts| >= 1
  {
    if s == [] then [[]]
    else
      var rest := Split(s[1..], seps);
      if s[0] in seps then [[]] + rest
      else [[s[0]] + rest[0]] + rest[1..]
  }

  /** The first part runs to the first separator; the other parts are the
      split of what follows it. */
  lemma {:induction false} SplitStep(s: ByteString, seps: set<Byte>)
    ensures var first := Split(s, seps)[0];
            && first <= s
            && (forall b <- first :: b !in seps)
            && (|first| == |s| ==> Split(s, seps) == [s])
            && (|first| < |s| ==>
                  s[|first|] in seps && Split(s, seps)[1..] == Split(s[|first| + 1..], seps))
  {
    if s != [] && s[0] !in seps {
      SplitStep(s[1..], seps);
      var first := Split(s[1..], seps)[0];
      assert Split(s, seps)[0] == [s[0]] + first;
      assert s == [s[0]] + s[1..];
      if |first| < |s[1..]| {
        assert s[1..][|first| + 1..] == s[|first| + 2..];
        assert Split(s, seps)[1..] == Split(s[1..], seps)[1..];
      }
    } else if s != [] {
      assert Split(s, seps)[0] == [];
      assert s[0 + 1..] == s[1..];
      assert Split(s, seps)[1..] == Split(s[1..], seps);
    }
  }

  /** Every byte of a string is a separator or belongs to a part. */
  lemma {:induction false} SplitCovers(s: ByteString, seps: set<Byte>, i: nat)
    requires i < |s| && s[i] !in seps
    ensures exists part <- Split(s, seps) :: s[i] in part
  {
    var rest := Split(s[1..], seps);
    if i == 0 {
      assert s[0] in Split(s, seps)[0];
    } else {
      SplitCovers(s[1..], seps, i - 1);
      var part :| part in rest && s[i] in part;
      var k :| 0 <= k < |rest| && rest[k] == part;
      if s[0] in seps {
        assert Split(s, seps)[k + 1] == part;
      } else if k == 0 {
        assert s[i] in Split(s, seps)[0];
      } else {
        assert Split(s, seps)[k] == part;
      }
    }
  }

  /** Splitting at a separator that does not occur beyond the ones given
      changes nothing. */
  lemma {:induction false} SplitSameSeparators(s: ByteString, small: set<Byte>, large: set<Byte>)
    requires small <= large
    requires forall b <- s :: b in large ==> b in small
    ensures Split(s, small) == Split(s, large)
  {
    if s != [] {
      SplitSameSeparators(s[1..], small, large);
    }
  }

  /** A trailing separator adds an empty part. */
  lemma {:induction false} SplitTrailing(s: ByteString, seps: set<Byte>, last: Byte)
    requires last in seps
    ensures Split(s + [last], seps) == Split(s, seps) + [[]]
  {
    if s == [] {
      assert ([] + [last])[1..] == [];
    } else {
      assert (s + [last])[1..] == s[1..] + [last];
      SplitTrailing(s[1..], seps, last);
    }
  }

  /** The `k` low bytes of `n`, most significant first. */
  function BigEndian(n: nat, k: nat): (r: ByteString)
    ensures |r| == k
  {
    if k == 0 then [] else BigEndian(n / 256, k - 1) + [n % 256]
  }

  function Radix(k: nat): (r: nat)
    ensures r > 0
  { 
    if k == 0 then 1 else 256 * Radix(k - 1)
  }

  /** Each byte counts its power of 256. */
  lemma {:induction false} BigEndianAt(n: nat, k: nat, i: nat)
    requires i < k
    ensures BigEndian(n, k)[i] == n / Radix(k - 1 - i) % 256
  {
    if i < k - 1 {
      BigEndianAt(n / 256, k - 1, i);
      var r := Radix(k - 2 - i);
      Divided(n, r);
      assert Radix(k - 1 - i) == 256 * r;
    }
  }

  lemma Divided(n: nat, b: nat)
    requires b > 0
    ensures n / 256 / b == n / (256 * b)
  {
    var q := n / 256;
    var t := q / b;
    Between(q, b);
    QuotientFrom(n, 256 * b, t);
  }

  lemma Between(n: nat, d: nat)
    requires d > 0
    ensures d * (n / d) <= n < d * (n / d) + d
  {
  }

  lemma Ordered(d: nat, a: int, b: int)
    ensures a <= b ==> d * a <= d * b
  {
    if a <= b {
      assert d * (b - a) >= 0;
    }
  }

  lemma QuotientFrom(n: nat, d: nat, t: nat)
    requires d > 0 && d * t <= n < d * t + d
    ensures n / d == t
  {
    var k := n / d;
    Between(n, d);
    Ordered(d, k + 1, t);
    Ordered(d, t + 1, k);
    assert d * (k + 1) == d * k + d && d * (t + 1) == d * t + d;
  }

  lemma {:induction false} BigEndianInjective(a: nat, b: nat, k: nat)
    requires a < Radix(k) && b < Radix(k) && BigEndian(a, k) == BigEndian(b, k)
    ensures a == b
  {
    if k > 0 {
      var x, y := BigEndian(a, k), BigEndian(b, k);
      assert x[..k - 1] == BigEndian(a / 256, k - 1) && y[..k - 1] == BigEndian(b / 256, k - 1);
      assert x[k - 1] == a % 256 && y[k - 1] == b % 256;
      BigEndianInjective(a / 256, b / 256, k - 1);
    }
  }

  /** The number big-endian bytes spell. */
  function ReadBigEndian(s: ByteString): nat {
    if s == [] then 0 else ReadBigEndian(s[..|s| - 1]) * 256 + s[|s| - 1]
  }

  lemma {:induction false} ReadBigEndianInverse(s: ByteString)
    ensures ReadBigEndian(s) < Radix(|s|) && BigEndian(ReadBigEndian(s), |s|) == s
  {
    if s != [] {
      var init, last := s[..|s| - 1], s[|s| - 1];
      ReadBigEndianInverse(init);
      var n := ReadBigEndian(init) * 256 + last;
      assert n / 256 == ReadBigEndian(init) && n % 256 == last;
      assert s == init + [last];
    }
  }
}
