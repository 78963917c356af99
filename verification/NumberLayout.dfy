/** The layout of a number's digits, and reading it back
    (`gateway-config/src/canonical_json.rs`, `ecmascript_number`). */
module NumberLayout {
  import opened Bytes
  import opened Decimals

  const ZERO: Byte := 0x30
  const PLUS: Byte := 0x2B
  const MINUS: Byte := 0x2D
  const LETTER_E: Byte := 0x65

  /** `digits` with the point after the `n`th: plain up to 21 integer places, a
      leading `0.` down to ten to the minus six, otherwise with an exponent. */
  function Layout(digits: ByteString, n: int): ByteString
    requires digits != []
  {
    var k := |digits|;
    if k <= n <= 21 then digits + Zeros(n - k)
    else if 0 < n <= 21 then digits[..n] + [DOT] + digits[n..]
    else if -6 < n <= 0 then [ZERO, DOT] + Zeros(-n) + digits
    else Scientific(digits, n)
  }

  function Scientific(digits: ByteString, n: int): ByteString
    requires digits != []
  {
    digits[..1] + (if |digits| > 1 then [DOT] + digits[1..] else []) + [LETTER_E] + ExponentText(n - 1)
  }

  function ExponentText(x: int): ByteString {
    if x >= 0 then [PLUS] + NatText(x) else [MINUS] + NatText(-x)
  }

  // Reading the JSON number grammar.

  /** The first position of `b`, or the length. */
  function Find(text: ByteString, b: Byte): (i: nat)
    ensures i <= |text|
    ensures i < |text| ==> text[i] == b
    ensures forall j :: 0 <= j < i ==> text[j] != b
  {
    if text == [] || text[0] == b then 0 else 1 + Find(text[1..], b)
  }

  function ReadExponent(text: ByteString): int {
    if text != [] && text[0] == MINUS then -ReadDigits(text[1..])
    else if text != [] && text[0] == PLUS then ReadDigits(text[1..])
    else ReadDigits(text)
  }

  function ReadMantissa(text: ByteString, exponent: int): real {
    var j := Find(text, DOT);
    var fraction := if j < |text| then text[j + 1..] else [];
    Times(ReadDigits(text[..j] + fraction) as real, Ten(exponent - |fraction|))
  }

  /** The value of an unsigned number: digits, an optional fraction, an optional exponent. */
  function ReadMagnitude(text: ByteString): real {
    var i := Find(text, LETTER_E);
    ReadMantissa(text[..i], if i < |text| then ReadExponent(text[i + 1..]) else 0)
  }

  function ReadNumber(text: ByteString): real {
    if text != [] && text[0] == MINUS then -ReadMagnitude(text[1..]) else ReadMagnitude(text)
  }

  lemma MantissaPlain(whole: ByteString, exponent: int)
    requires AllDigits(whole)
    ensures ReadMantissa(whole, exponent) == Times(ReadDigits(whole) as real, Ten(exponent))
  {
    assert Find(whole, DOT) == |whole|;
    assert whole[..|whole|] + [] == whole;
  }

  lemma MantissaPointed(whole: ByteString, fraction: ByteString, exponent: int)
    requires AllDigits(whole)
    ensures ReadMantissa(whole + [DOT] + fraction, exponent)
            == Times(ReadDigits(whole + fraction) as real, Ten(exponent - |fraction|))
  {
    var text := whole + [DOT] + fraction;
    assert forall j :: 0 <= j < |whole| ==> text[j] == whole[j];
    assert text[|whole|] == DOT;
    assert Find(text, DOT) == |whole|;
    assert text[..|whole|] == whole && text[|whole| + 1..] == fraction;
  }

  lemma MagnitudeWithoutExponent(text: ByteString)
    requires forall i :: 0 <= i < |text| ==> text[i] != LETTER_E
    ensures ReadMagnitude(text) == ReadMantissa(text, 0)
  {
    assert Find(text, LETTER_E) == |text|;
    assert text[..|text|] == text;
  }

  lemma MagnitudeWithExponent(mantissa: ByteString, x: int)
    requires forall i :: 0 <= i < |mantissa| ==> mantissa[i] != LETTER_E
    ensures ReadMagnitude(mantissa + [LETTER_E] + ExponentText(x)) == ReadMantissa(mantissa, x)
  {
    var tail := ExponentText(x);
    var text := mantissa + [LETTER_E] + tail;
    assert forall j :: 0 <= j < |mantissa| ==> text[j] == mantissa[j];
    assert text[|mantissa|] == LETTER_E;
    assert Find(text, LETTER_E) == |mantissa|;
    assert text[..|mantissa|] == mantissa && text[|mantissa| + 1..] == tail;
    var absolute := if x >= 0 then x else -x;
    ReadNatText(absolute);
    assert tail[1..] == NatText(absolute);
  }

  lemma PlainReads(digits: ByteString, n: nat)
    requires digits != [] && AllDigits(digits)
    ensures ReadMagnitude(digits + Zeros(n)) == Times(ReadDigits(digits) as real, Ten(n))
  {
    hide ReadMantissa, ReadMagnitude, ReadDigits, Ten, Times;
    var text := digits + Zeros(n);
    MagnitudeWithoutExponent(text);
    MantissaPlain(text, 0);
    ReadTrailingZeros(digits, n);
    PlainShift(digits, n);
  }

  lemma PointedReads(whole: ByteString, fraction: ByteString)
    requires AllDigits(whole) && AllDigits(fraction)
    ensures ReadMagnitude(whole + [DOT] + fraction) == Times(ReadDigits(whole + fraction) as real, Ten(-|fraction|))
  {
    hide ReadMantissa, ReadMagnitude, ReadDigits, Ten, Times;
    MagnitudeWithoutExponent(whole + [DOT] + fraction);
    MantissaPointed(whole, fraction, 0);
  }

  lemma ScientificReads(digits: ByteString, n: int)
    requires digits != [] && AllDigits(digits)
    ensures ReadMagnitude(Scientific(digits, n)) == Times(ReadDigits(digits) as real, Ten(n - |digits|))
  {
    hide ReadMantissa, ReadMagnitude, ReadDigits, Ten, Times, ExponentText;
    var mantissa := digits[..1] + if |digits| > 1 then [DOT] + digits[1..] else [];
    if |digits| > 1 {
      assert mantissa == digits[..1] + [DOT] + digits[1..];
      MantissaPointed(digits[..1], digits[1..], n - 1);
      assert digits[..1] + digits[1..] == digits;
    } else {
      assert mantissa == digits;
      MantissaPlain(digits, n - 1);
    }
    MagnitudeWithExponent(mantissa, n - 1);
  }

  lemma PointLayoutReads(digits: ByteString, n: int)
    requires AllDigits(digits) && 0 < n < |digits| && n <= 21
    ensures ReadMagnitude(Layout(digits, n)) == Times(ReadDigits(digits) as real, Ten(n - |digits|))
  {
    hide ReadMagnitude, ReadDigits, Ten, Times, Scientific, Zeros;
    var whole, fraction := digits[..n], digits[n..];
    assert Layout(digits, n) == whole + [DOT] + fraction;
    assert whole + fraction == digits;
    hide Layout;
    assert -|fraction| == n - |digits|;
    PointedReads(whole, fraction);
  }

  lemma ZeroLayoutShape(digits: ByteString, n: int)
    requires digits != [] && -6 < n <= 0
    ensures Layout(digits, n) == [ZERO] + [DOT] + (Zeros(-n) + digits)
    ensures [ZERO] + (Zeros(-n) + digits) == Zeros(1 - n) + digits
  {
    assert Zeros(1 - n) == [ZERO] + Zeros(-n);
    hide Zeros, Scientific;
    Associates([ZERO], Zeros(-n), digits);
    Associates([ZERO, DOT], Zeros(-n), digits);
    assert [ZERO, DOT] == [ZERO] + [DOT];
  }

  lemma ZeroLayoutReads(digits: ByteString, n: int)
    requires digits != [] && AllDigits(digits) && -6 < n <= 0
    ensures ReadMagnitude(Layout(digits, n)) == Times(ReadDigits(digits) as real, Ten(n - |digits|))
  {
    hide ReadMagnitude, ReadDigits, Ten, Times, Layout;
    var fraction := Zeros(-n) + digits;
    ZeroLayoutShape(digits, n);
    PointedReads([ZERO], fraction);
    ReadLeadingZeros(1 - n, digits);
    assert -|fraction| == n - |digits|;
  }

  /** The layout is lossless: whichever of its four forms is used, reading it
      back gives exactly the digits times ten to the `n - k`. */
  lemma LayoutReads(digits: ByteString, n: int)
    requires digits != [] && AllDigits(digits)
    ensures ReadMagnitude(Layout(digits, n)) == Times(ReadDigits(digits) as real, Ten(n - |digits|))
  {
    hide ReadMagnitude, ReadDigits, Ten, Times, Scientific;
    if |digits| <= n <= 21 {
      PlainReads(digits, n - |digits|);
    } else if 0 < n <= 21 {
      PointLayoutReads(digits, n);
    } else if -6 < n <= 0 {
      ZeroLayoutReads(digits, n);
    } else {
      ScientificReads(digits, n);
    }
  }

  lemma PlainShift(digits: ByteString, n: nat)
    requires AllDigits(digits)
    ensures Times((ReadDigits(digits) * TenNat(n)) as real, Ten(0)) == Times(ReadDigits(digits) as real, Ten(n))
  {
    ReadNonnegative(digits);
    ValShift(ReadDigits(digits), n, 0);
  }

  /** Digits that neither start nor end with a zero. */
  predicate IsCanonical(digits: ByteString) {
    && digits != [] && AllDigits(digits)
    && digits[0] != ZERO && digits[|digits| - 1] != ZERO
  }

  lemma {:induction false} CanonicalText(digits: ByteString)
    requires digits != [] && AllDigits(digits) && digits[0] != ZERO
    ensures ReadDigits(digits) > 0 && NatText(ReadDigits(digits)) == digits
  {
    var last := |digits| - 1;
    if last == 0 {
      assert digits[..0] == [];
      assert digits == [digits[0]];
    } else {
      CanonicalText(digits[..last]);
      var high, low := ReadDigits(digits[..last]), digits[last] as int - 0x30;
      assert ReadDigits(digits) == high * 10 + low;
      assert (high * 10 + low) / 10 == high && (high * 10 + low) % 10 == low;
      assert digits == digits[..last] + [digits[last]];
    }
  }

  /** Distinct canonical digits or points have distinct layouts. */
  lemma LayoutInjective(a: ByteString, m: int, b: ByteString, n: int)
    requires IsCanonical(a) && IsCanonical(b) && Layout(a, m) == Layout(b, n)
    ensures a == b && m == n
  {
    LayoutReads(a, m);
    LayoutReads(b, n);
    CanonicalText(a);
    CanonicalText(b);
    LastDigit(a);
    LastDigit(b);
    TrimmedUnique(Decimal(ReadDigits(a), m - |a|), Decimal(ReadDigits(b), n - |b|));
  }

  lemma LastDigit(digits: ByteString)
    requires digits != [] && AllDigits(digits) && ReadDigits(digits) >= 0
    ensures ReadDigits(digits) % 10 == digits[|digits| - 1] as int - 0x30
  {
    var high := ReadDigits(digits[..|digits| - 1]);
    assert ReadDigits(digits) == high * 10 + (digits[|digits| - 1] as int - 0x30);
  }

  predicate IsNumberByte(b: Byte) {
    IsDigit(b) || b == DOT || b == LETTER_E || b == PLUS || b == MINUS
  }

  lemma LayoutBytes(digits: ByteString, n: int)
    requires digits != [] && AllDigits(digits)
    ensures Layout(digits, n) != [] && IsDigit(Layout(digits, n)[0])
    ensures forall i :: 0 <= i < |Layout(digits, n)| ==> IsNumberByte(Layout(digits, n)[i])
  {
    hide NatText;
  }

  /** The bytes a JSON number may hold. */
  predicate IsNumberChar(b: Byte) { IsNumberByte(b) || b == 0x45 }

  /** How many bytes at the start may belong to a number. */
  function Run(s: ByteString): (n: nat)
    ensures n <= |s|
  {
    if s == [] || !IsNumberChar(s[0]) then 0 else 1 + Run(s[1..])
  }

  lemma {:induction false} RunExact(a: ByteString, rest: ByteString)
    requires forall i :: 0 <= i < |a| ==> IsNumberByte(a[i])
    requires rest == [] || !IsNumberChar(rest[0])
    ensures Run(a + rest) == |a|
  {
    if a == [] {
      assert a + rest == rest;
    } else {
      assert (a + rest)[1..] == a[1..] + rest;
      RunExact(a[1..], rest);
    }
  }
}
