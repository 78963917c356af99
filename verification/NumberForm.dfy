/** Which of its forms a number's text takes, read off its value
    (`gateway-config/src/canonical_json.rs`, `ecmascript_number`). */
module NumberForm {
  import opened Bytes
  import opened Decimals
  import opened NumberLayout

  /** Nothing, or a point and digits that do not end in a zero. */
  predicate IsFraction(tail: ByteString) {
    tail == [] || (|tail| >= 2 && tail[0] == '.' as int && AllDigits(tail[1..]) && tail[|tail| - 1] != '0' as int)
  }

  /** The value's whole part, and a fraction. */
  ghost predicate IsPlainForm(text: ByteString, value: real) {
    value >= 0.0 && var whole := NatText(value.Floor); whole <= text && IsFraction(text[|whole|..])
  }

  /** One nonzero digit and a fraction, `e`, a sign, and digits without a leading zero. */
  predicate IsExponentAt(text: ByteString, i: int, sign: Byte, x: int) {
    && 1 <= i <= |text| - 2 && x > 0
    && '1' as int <= text[0] <= '9' as int && IsFraction(text[1..i])
    && text[i] == 'e' as int && text[i + 1] == sign && text[i + 2..] == NatText(x)
  }

  ghost predicate HasExponent(text: ByteString, sign: Byte) { exists i, x :: IsExponentAt(text, i, sign, x) }

  ghost predicate IsExponentForm(text: ByteString, value: real) {
    HasExponent(text, if value < 1.0 then '-' as int else '+' as int)
  }

  predicate NeedsExponent(value: real) { value < 0.000001 || value >= 1000000000000000000000.0 }

  /** An exponent exactly below a millionth and from ten to the twenty-one on. */
  ghost predicate IsNumberForm(text: ByteString, value: real) {
    && ('e' as int in text <==> NeedsExponent(value))
    && if NeedsExponent(value) then IsExponentForm(text, value) else IsPlainForm(text, value)
  }

  // The value against powers of ten.

  lemma {:induction false} ReadBelow(text: ByteString)
    requires AllDigits(text)
    ensures 0 <= ReadDigits(text) < TenNat(|text|)
  {
    if text != [] {
      ReadBelow(text[..|text| - 1]);
    }
  }

  lemma {:induction false} ReadSplit(a: ByteString, b: ByteString)
    ensures ReadDigits(a + b) == ReadDigits(a) * TenNat(|b|) + ReadDigits(b)
    decreases |b|
  {
    if b == [] {
      assert a + b == a;
    } else {
      var init, last := b[..|b| - 1], b[|b| - 1];
      ReadSplit(a, init);
      assert (a + b)[..|a + b| - 1] == a + init && (a + b)[|a + b| - 1] == last;
      assert ReadDigits(a) * TenNat(|b|) == ReadDigits(a) * TenNat(|init|) * 10;
    }
  }

  /** Digits with a nonzero first lie between two powers of ten. */
  lemma CanonicalBounds(digits: ByteString)
    requires digits != [] && AllDigits(digits) && digits[0] != ZERO
    ensures TenNat(|digits| - 1) <= ReadDigits(digits) < TenNat(|digits|)
  {
    CanonicalText(digits);
    ReadNatText(ReadDigits(digits));
    DigitCountBounds(ReadDigits(digits));
  }

  lemma TenTimes(a: int, b: int)
    ensures Times(Ten(a), Ten(b)) == Ten(a + b)
    ensures Ten(a) > 0.0 && Ten(b) > 0.0
  {
    PowerAdd(10.0, a, b);
  }

  lemma ValueBounds(digits: ByteString, n: int)
    requires digits != [] && AllDigits(digits) && digits[0] != ZERO
    ensures Ten(n - 1) <= Times(ReadDigits(digits) as real, Ten(n - |digits|)) < Ten(n)
  {
    hide ReadDigits, Ten, Times, TenNat;
    var k, s := |digits|, ReadDigits(digits);
    CanonicalBounds(digits);
    TenNatIsTen(k - 1);
    TenNatIsTen(k);
    TenTimes(k - 1, n - k);
    TenTimes(k, n - k);
    TimesMonotone(TenNat(k - 1) as real, s as real, Ten(n - k));
    TimesMonotone(s as real, TenNat(k) as real, Ten(n - k));
  }

  lemma PowersOfTen()
    ensures Ten(0) == 1.0 && Ten(-6) == 0.000001 && Ten(21) == 1000000000000000000000.0
  {
    assert TenNat(6) == 1_000_000;
    assert TenNat(12) == 1_000_000_000_000 && TenNat(18) == 1_000_000_000_000_000_000;
    assert TenNat(21) == 1_000_000_000_000_000_000_000;
    TenNatIsTen(6);
    TenNatIsTen(21);
    TenTimes(-6, 6);
  }

  /** Where the point is says which range the value is in. */
  lemma RangeOfPoint(digits: ByteString, n: int)
    requires digits != [] && AllDigits(digits) && digits[0] != ZERO
    ensures var value := Times(ReadDigits(digits) as real, Ten(n - |digits|));
            && value > 0.0
            && (NeedsExponent(value) <==> n <= -6 || n > 21)
            && (value < 1.0 <==> n <= 0)
  {
    ValueBounds(digits, n);
    PowersOfTen();
    hide ReadDigits, Ten, Times;
    if n <= -6 {
      PowerMonotone(10.0, n, -6);
    } else {
      PowerMonotone(10.0, -6, n - 1);
    }
    if n <= 21 {
      PowerMonotone(10.0, n, 21);
    } else {
      PowerMonotone(10.0, 21, n - 1);
    }
    if n <= 0 {
      PowerMonotone(10.0, n, 0);
    } else {
      PowerMonotone(10.0, 0, n - 1);
    }
  }

  // The forms.

  lemma FloorIs(value: real, n: int)
    requires n as real <= value < (n + 1) as real
    ensures value.Floor == n
  {
  }

  lemma WholeForm(digits: ByteString, n: int)
    requires IsCanonical(digits) && |digits| <= n <= 21
    ensures IsPlainForm(Layout(digits, n), Times(ReadDigits(digits) as real, Ten(n - |digits|)))
  {
    hide Ten, Times, NatText, TenNat, ReadDigits;
    var s, z := ReadDigits(digits), n - |digits|;
    CanonicalText(digits);
    NatTextShifted(s, z);
    var whole := s * TenNat(z);
    TenNatIsTen(z);
    assert Times(s as real, Ten(z)) == whole as real by {
      ValShift(s, z, 0);
      TimesOne(whole as real);
    }
    FloorIs(whole as real, whole);
    assert Layout(digits, n) == NatText(whole);
    assert NatText(whole)[|NatText(whole)|..] == [];
  }

  lemma TimesOne(x: real)
    ensures Times(x, Ten(0)) == x
  {
    TimesLaws(1.0, x, 0.0);
    TimesLaws(x, 1.0, 0.0);
  }

  /** A point after `n` digits cuts off the whole part. */
  lemma PointFloor(digits: ByteString, n: int)
    requires AllDigits(digits) && 0 < n < |digits|
    ensures var value, whole := Times(ReadDigits(digits) as real, Ten(n - |digits|)), ReadDigits(digits[..n]);
            whole as real <= value < (whole + 1) as real
  {
    hide Ten, Times, TenNat, ReadDigits;
    var whole, fraction := digits[..n], digits[n..];
    var h, l, z := ReadDigits(whole), ReadDigits(fraction), |digits| - n;
    assert digits == whole + fraction;
    ReadSplit(whole, fraction);
    ReadBelow(fraction);
    ReadNonnegative(whole);
    var low, value, high := h * TenNat(z), ReadDigits(digits), (h + 1) * TenNat(z);
    assert low <= value < high;
    TenTimes(-z, 0);
    TimesMonotone(low as real, value as real, Ten(-z));
    TimesMonotone(value as real, high as real, Ten(-z));
    ValShift(h, z, -z);
    ValShift(h + 1, z, -z);
    TimesOne(h as real);
    TimesOne((h + 1) as real);
  }

  lemma PlainParts(whole: ByteString, fraction: ByteString, value: real)
    requires value >= 0.0 && NatText(value.Floor) == whole
    requires fraction != [] && AllDigits(fraction) && fraction[|fraction| - 1] != ZERO
    ensures IsPlainForm(whole + [DOT] + fraction, value)
  {
    hide NatText;
    var tail, text := [DOT] + fraction, whole + [DOT] + fraction;
    assert text == whole + tail;
    assert text[|whole|..] == tail && tail[1..] == fraction && tail[|tail| - 1] == fraction[|fraction| - 1];
  }

  lemma PointWhole(digits: ByteString, n: int)
    requires IsCanonical(digits) && 0 < n < |digits|
    ensures var value := Times(ReadDigits(digits) as real, Ten(n - |digits|));
            value >= 0.0 && NatText(value.Floor) == digits[..n]
  {
    hide Ten, Times, NatText, ReadDigits;
    PointFloor(digits, n);
    CanonicalText(digits[..n]);
    FloorIs(Times(ReadDigits(digits) as real, Ten(n - |digits|)), ReadDigits(digits[..n]));
  }

  lemma PointShape(digits: ByteString, n: int)
    requires 0 < n < |digits| && n <= 21
    ensures Layout(digits, n) == digits[..n] + [DOT] + digits[n..]
  {
    hide Zeros, Scientific;
  }

  lemma PointForm(digits: ByteString, n: int)
    requires IsCanonical(digits) && 0 < n < |digits| && n <= 21
    ensures IsPlainForm(Layout(digits, n), Times(ReadDigits(digits) as real, Ten(n - |digits|)))
  {
    hide Ten, Times, NatText, ReadDigits, IsPlainForm, Layout;
    PointWhole(digits, n);
    PointShape(digits, n);
    PlainParts(digits[..n], digits[n..], Times(ReadDigits(digits) as real, Ten(n - |digits|)));
  }

  lemma LeadingForm(digits: ByteString, n: int)
    requires IsCanonical(digits) && -6 < n <= 0
    ensures IsPlainForm(Layout(digits, n), Times(ReadDigits(digits) as real, Ten(n - |digits|)))
  {
    assert NatText(0) == [ZERO];
    hide Ten, Times, ReadDigits, IsPlainForm, Layout, NeedsExponent, NatText;
    RangeOfPoint(digits, n);
    var value := Times(ReadDigits(digits) as real, Ten(n - |digits|));
    FloorIs(value, 0);
    ZeroLayoutShape(digits, n);
    PlainParts([ZERO], Zeros(-n) + digits, value);
  }

  lemma ExponentParts(first: Byte, point: ByteString, sign: Byte, x: int)
    requires '1' as int <= first <= '9' as int && IsFraction(point) && x > 0
    ensures var text := [first] + point + [LETTER_E] + ([sign] + NatText(x));
            IsExponentAt(text, 1 + |point|, sign, x) && text[1 + |point|] == LETTER_E
  {
    hide NatText, IsFraction;
    var i, text := 1 + |point|, [first] + point + [LETTER_E] + ([sign] + NatText(x));
    assert text[1..i] == point;
    assert text[i + 2..] == NatText(x);
  }

  lemma ScientificShape(digits: ByteString, n: int) returns (point: ByteString)
    requires IsCanonical(digits) && (n <= -6 || n > 21)
    ensures IsFraction(point)
    ensures var x, sign: Byte := if n > 0 then n - 1 else 1 - n, if n <= 0 then MINUS else PLUS;
            Layout(digits, n) == [digits[0]] + point + [LETTER_E] + ([sign] + NatText(x))
  {
    hide NatText, Zeros;
    point := if |digits| > 1 then [DOT] + digits[1..] else [];
    assert |digits| > 1 ==> point[1..] == digits[1..] && point[|point| - 1] == digits[|digits| - 1];
    assert digits[..1] == [digits[0]];
  }

  lemma ScientificForm(digits: ByteString, n: int)
    requires IsCanonical(digits) && (n <= -6 || n > 21)
    ensures 'e' as int in Layout(digits, n)
    ensures IsExponentForm(Layout(digits, n), Times(ReadDigits(digits) as real, Ten(n - |digits|)))
  {
    hide Layout, Ten, Times, ReadDigits, NatText, NeedsExponent, IsExponentAt, IsFraction;
    RangeOfPoint(digits, n);
    var point := ScientificShape(digits, n);
    var x, sign: Byte := if n > 0 then n - 1 else 1 - n, if n <= 0 then MINUS else PLUS;
    ExponentParts(digits[0], point, sign, x);
    var text := Layout(digits, n);
    assert IsExponentAt(text, 1 + |point|, sign, x);
    assert |text| > 1 + |point| && text[1 + |point|] in text;
  }

  lemma PlainHasNoExponent(digits: ByteString, n: int)
    requires AllDigits(digits) && digits != [] && -6 < n <= 21
    ensures 'e' as int !in Layout(digits, n)
  {
  }

  /** The layout has the form its value calls for. */
  lemma LayoutForm(digits: ByteString, n: int)
    requires IsCanonical(digits)
    ensures IsNumberForm(Layout(digits, n), ReadMagnitude(Layout(digits, n)))
  {
    hide Layout, Ten, Times, ReadDigits, ReadMagnitude, IsExponentForm, IsPlainForm, NeedsExponent;
    LayoutReads(digits, n);
    RangeOfPoint(digits, n);
    if n <= -6 || n > 21 {
      ScientificForm(digits, n);
    } else {
      PlainHasNoExponent(digits, n);
      if |digits| <= n {
        WholeForm(digits, n);
      } else if n > 0 {
        PointForm(digits, n);
      } else {
        LeadingForm(digits, n);
      }
    }
  }
}
