/** Number serialization, section 3.2.2.3 of RFC 8785
    (`gateway-config/src/canonical_json.rs`, `write_number` and `ecmascript_number`). */
module JsonNumbers {
  import opened Bytes
  import opened Results
  import opened Decimals
  import opened Doubles
  import opened DigitChoice
  import opened NumberLayout
  import opened NumberForm
  import opened JsonText

  const MAX_SAFE_INTEGER: nat := 0x1F_FFFF_FFFF_FFFF

  lemma SafeIsFiftyThreeBits()
    ensures MAX_SAFE_INTEGER as real == Two(53) - 1.0
  {
    HiddenIsTwo();
    TwoStep(53);
    assert Times(2.0, HIDDEN as real) == 2.0 * (HIDDEN as real);
  }

  /** What a number token reads as: `as_u64`, else `as_i64`, else the nearest
      double (`Zero` is either zero), else nothing finite. */
  datatype Number =
    | Unsigned(n: U64)
    | Signed(i: I64)
    | Zero
    | Float(negative: bool, magnitude: Finite)
    | NotFinite

  /** Rust's float formatting: `{:e}` and `{:.p$e}` with `k = p + 1` digits. */
  datatype Formatter = Formatter(shortest: Double -> Decimal, nearest: (Double, nat) -> Decimal)

  /** The formatter does what those formats promise. */
  ghost predicate Faithful(f: Formatter) {
    && (forall d :: IsDouble(d) ==> IsShortest(Magnitude(d), Rounding(d), f.shortest(d)))
    && (forall d, k: nat :: IsDouble(d) && k >= 1 ==> IsNearest(Magnitude(d), k, f.nearest(d, k)))
  }

  /** A faithful formatter exists, so nothing proved of one is vacuous. */
  lemma FaithfulFormatterExists() returns (f: Formatter)
    ensures Faithful(f)
  {
    hide IsShortest, IsNearest;
    f := Formatter((d: Double) => SomeShortest(d), (d: Double, k: nat) => SomeNearest(d, k));
  }

  ghost function SomeShortest(d: Double): (r: Decimal)
    ensures IsDouble(d) ==> IsShortest(Magnitude(d), Rounding(d), r)
  {
    if IsDouble(d) then
      assert exists r :: IsShortest(Magnitude(d), Rounding(d), r) by {
        MagnitudeInside(d);
        var r := ShortestExists(Magnitude(d), Rounding(d));
      }
      var r :| IsShortest(Magnitude(d), Rounding(d), r); r
    else Decimal(0, 0)
  }

  ghost function SomeNearest(d: Double, k: nat): (r: Decimal)
    ensures IsDouble(d) && k >= 1 ==> IsNearest(Magnitude(d), k, r)
  {
    if IsDouble(d) && k >= 1 then
      assert exists r :: IsNearest(Magnitude(d), k, r) by {
        MagnitudeInside(d);
        var r := NearestExists(Magnitude(d), k);
      }
      var r :| IsNearest(Magnitude(d), k, r); r
    else Decimal(0, 0)
  }

  /** `trim_end_matches('0')`. */
  function TrimZeros(digits: ByteString): (r: ByteString)
    ensures r <= digits
  {
    if digits != [] && digits[|digits| - 1] == ZERO then TrimZeros(digits[..|digits| - 1]) else digits
  }

  /** The digits the code settles on for a double. */
  function ChosenDigits(f: Formatter, d: Double): Decimal {
    var shortest := f.shortest(d);
    Choose(Rounding(d), shortest, f.nearest(d, DigitCount(shortest.s)))
  }

  /** The text of a positive double, or `None` where no digit is left. */
  function MagnitudeText(f: Formatter, d: Double): Option<ByteString> {
    var chosen := ChosenDigits(f, d);
    var text := NatText(chosen.s);
    var digits := TrimZeros(text);
    if digits == [] then None else Some(Layout(digits, chosen.q + |text|))
  }

  function WithSign(negative: bool, text: ByteString): ByteString {
    if negative then [MINUS] + text else text
  }

  /** `i64::unsigned_abs`. */
  function UnsignedAbs(i: int): nat { if i < 0 then -i else i }

  /** `write_number`: the text, or `None` outside the I-JSON safe range. */
  function NumberText(f: Formatter, number: Number): Option<ByteString> {
    match number
    case Unsigned(n) => if n > MAX_SAFE_INTEGER then None else Some(NatText(n))
    case Signed(i) =>
      if UnsignedAbs(i) > MAX_SAFE_INTEGER then None
      else if i < 0 then Some([MINUS] + NatText(UnsignedAbs(i))) else Some(NatText(i))
    case Zero => Some([ZERO])
    case Float(negative, d) =>
      if Magnitude(d) > MAX_SAFE_INTEGER as real then None
      else if MagnitudeText(f, d).None? then None
      else Some(WithSign(negative, MagnitudeText(f, d).value))
    case NotFinite => None
  }

  /** The number itself: for a float, the nearest double of its token. */
  function NumberValue(number: Number): real {
    match number
    case Unsigned(n) => n as real
    case Signed(i) => i as real
    case Zero => 0.0
    case Float(negative, d) => if negative then -Magnitude(d) else Magnitude(d)
    case NotFinite => 0.0
  }

  function AbsoluteValue(x: real): real { if x < 0.0 then -x else x }

  /** The chosen digits are ECMAScript's, and trimming them changes nothing. */
  lemma ChosenIsEcmaScript(f: Formatter, d: Double)
    requires Faithful(f) && IsDouble(d)
    ensures IsEcmaScript(Magnitude(d), Rounding(d), ChosenDigits(f, d))
    ensures ChosenDigits(f, d).s % 10 != 0
    ensures TrimZeros(NatText(ChosenDigits(f, d).s)) == NatText(ChosenDigits(f, d).s)
  {
    hide IsShortest, IsNearest, IsEcmaScript;
    var shortest := f.shortest(d);
    MagnitudeInside(d);
    ChoiceIsEcmaScript(Magnitude(d), Rounding(d), shortest, f.nearest(d, DigitCount(shortest.s)));
    EcmaScriptIsTrimmed(Magnitude(d), Rounding(d), ChosenDigits(f, d));
    var s := ChosenDigits(f, d).s;
    ReadNatText(s);
    LastDigit(NatText(s));
  }

  /** The text of a double reads back, exactly, as digits that round to it. */
  lemma MagnitudeReads(f: Formatter, d: Double)
    requires Faithful(f) && IsDouble(d)
    ensures MagnitudeText(f, d).Some?
    ensures ReadMagnitude(MagnitudeText(f, d).value) == Val(ChosenDigits(f, d))
    ensures In(Rounding(d), Val(ChosenDigits(f, d)))
    ensures var text := MagnitudeText(f, d).value;
            text != [] && IsDigit(text[0]) && forall i :: 0 <= i < |text| ==> IsNumberByte(text[i])
  {
    hide Layout, ReadMagnitude, ChosenDigits, TrimZeros;
    ChosenIsEcmaScript(f, d);
    var chosen := ChosenDigits(f, d);
    var text := NatText(chosen.s);
    ReadNatText(chosen.s);
    LayoutReads(text, chosen.q + |text|);
    LayoutBytes(text, chosen.q + |text|);
  }

  /** The text of a double has the form its value calls for. */
  lemma MagnitudeForm(f: Formatter, d: Double)
    requires Faithful(f) && IsDouble(d)
    ensures MagnitudeText(f, d).Some?
    ensures var text := MagnitudeText(f, d).value; IsNumberForm(text, ReadMagnitude(text))
  {
    hide Layout, ReadMagnitude, ChosenDigits, TrimZeros, IsNumberForm;
    ChosenIsEcmaScript(f, d);
    var chosen := ChosenDigits(f, d);
    var text := NatText(chosen.s);
    ReadNatText(chosen.s);
    LastDigit(text);
    LeadingDigit(chosen.s);
    LayoutForm(text, chosen.q + |text|);
  }

  lemma {:induction false} LeadingDigit(n: nat)
    requires n > 0
    ensures NatText(n)[0] != ZERO
  {
    if n >= 10 {
      LeadingDigit(n / 10);
    }
  }

  // Integers are doubles.

  lemma {:induction false} Normalize(m: nat, e: int) returns (d: Double)
    requires 0 < m < 2 * HIDDEN && LEAST_EXPONENT <= e <= GREATEST_EXPONENT
    ensures IsDouble(d) && Magnitude(d) == Times(m as real, Two(e))
    decreases e - LEAST_EXPONENT
  {
    if m >= HIDDEN || e == LEAST_EXPONENT {
      d := Double(m, e);
    } else {
      TwoStep(e);
      TimesLaws(m as real, 2.0, Two(e - 1));
      TimesLaws(2.0, m as real, Two(e - 1));
      assert (2 * m) as real == Times(2.0, m as real);
      d := Normalize(2 * m, e - 1);
    }
  }

  lemma NatIsDouble(n: nat) returns (d: Double)
    requires 0 < n <= MAX_SAFE_INTEGER
    ensures IsDouble(d) && Magnitude(d) == n as real
  {
    TimesLaws(1.0, n as real, 0.0);
    TimesLaws(n as real, 1.0, 0.0);
    d := Normalize(n, 0);
  }

  /** What an integer's text reads as. */
  lemma NatTextReads(n: nat)
    ensures ReadMagnitude(NatText(n)) == n as real
    ensures IsDigit(NatText(n)[0]) && forall i :: 0 <= i < |NatText(n)| ==> IsNumberByte(NatText(n)[i])
  {
    ReadNatText(n);
    assert NatText(n) + Zeros(0) == NatText(n);
    PlainReads(NatText(n), 0);
    TimesLaws(1.0, n as real, 0.0);
    TimesLaws(n as real, 1.0, 0.0);
  }

  ghost predicate Accepted(f: Formatter, number: Number) {
    NumberText(f, number).Some?
  }

  /** A finite number within the I-JSON safe range. */
  predicate IsSafe(number: Number) {
    !number.NotFinite? && AbsoluteValue(NumberValue(number)) <= MAX_SAFE_INTEGER as real
  }

  /** The numbers that have a text are exactly the safe ones. */
  lemma AcceptedExactly(f: Formatter, number: Number)
    requires Faithful(f)
    ensures Accepted(f, number) <==> IsSafe(number)
  {
    hide Faithful, Magnitude, MagnitudeText;
    if number.Float? {
      MagnitudeReads(f, number.magnitude);
      MagnitudeInside(number.magnitude);
    }
  }

  /** `t` has the sign of `x`, and its magnitude rounds to that of `x`. */
  ghost predicate ReadsAs(t: real, x: real, d: Double) {
    && IsDouble(d) && Magnitude(d) == AbsoluteValue(x)
    && In(Rounding(d), AbsoluteValue(t)) && (t > 0.0 <==> x > 0.0) && t != 0.0
  }

  /** Every accepted text reads back as zero exactly for zero, and otherwise as
      digits that round to the number's double. */
  lemma NumberReads(f: Formatter, number: Number) returns (d: Double)
    requires Faithful(f) && Accepted(f, number)
    ensures NumberValue(number) == 0.0 ==> ReadNumber(NumberText(f, number).value) == 0.0
    ensures NumberValue(number) != 0.0 ==> ReadsAs(ReadNumber(NumberText(f, number).value), NumberValue(number), d)
  {
    hide ReadMagnitude, Magnitude, Rounding, Val, MagnitudeText, ChosenDigits, NatText;
    d := Double(1, 0);
    var text := NumberText(f, number).value;
    match number {
      case Unsigned(n) =>
        NatTextReads(n);
        if n > 0 {
          d := NatIsDouble(n);
          MagnitudeInside(d);
        }
      case Signed(i) =>
        var n := UnsignedAbs(i);
        NatTextReads(n);
        assert i < 0 ==> text[1..] == NatText(n);
        if n > 0 {
          d := NatIsDouble(n);
          MagnitudeInside(d);
        }
      case Zero =>
        NatTextReads(0);
        assert NatText(0) == [ZERO] by { NatTextZero(); }
      case Float(negative, magnitude) =>
        d := magnitude;
        MagnitudeReads(f, d);
        MagnitudeInside(d);
        assert negative ==> text[1..] == MagnitudeText(f, d).value;
      case NotFinite =>
    }
  }

  lemma NatTextZero()
    ensures NatText(0) == [ZERO]
  {
  }

  /** Numbers with one text are one number. */
  lemma SameTextSameValue(f: Formatter, a: Number, b: Number)
    requires Faithful(f) && Accepted(f, a) && Accepted(f, b)
    requires NumberText(f, a) == NumberText(f, b)
    ensures NumberValue(a) == NumberValue(b)
  {
    hide Faithful, NumberText, NumberValue, ReadNumber, Rounding, Magnitude;
    var d := NumberReads(f, a);
    var e := NumberReads(f, b);
    if NumberValue(a) != 0.0 && NumberValue(b) != 0.0 {
      RoundingUnique(d, e, AbsoluteValue(ReadNumber(NumberText(f, a).value)));
    }
  }

  // An integer and the double it equals have one text.

  function StripZeros(n: nat): (r: Decimal)
    requires n > 0
    ensures r.s % 10 != 0 && r.q >= 0 && n == r.s * TenNat(r.q)
  {
    if n % 10 != 0 then Decimal(n, 0)
    else
      var r := StripZeros(n / 10);
      assert n == 10 * (n / 10) && r.s * TenNat(r.q + 1) == 10 * (r.s * TenNat(r.q)) by {
        ShiftedDigits(r.s, r.q + 1);
      }
      Decimal(r.s, r.q + 1)
  }

  lemma ValOfNat(n: nat)
    ensures Val(Decimal(n, 0)) == n as real
  {
    TimesLaws(1.0, n as real, 0.0);
    TimesLaws(n as real, 1.0, 0.0);
  }

  lemma StrippedValue(n: nat)
    requires n > 0
    ensures Val(StripZeros(n)) == n as real
    ensures DigitCount(StripZeros(n).s) <= DigitCount(n)
  {
    var r := StripZeros(n);
    ValShift(r.s, r.q, 0);
    ValOfNat(n);
    ShiftGrows(r.s, r.q);
    DigitCountMonotone(r.s, n);
  }

  lemma LargeExponent(d: Double)
    requires IsDouble(d) && d.e > 0
    ensures Magnitude(d) >= 2.0 * (HIDDEN as real)
  {
    var m, t := d.m as real, Two(d.e);
    PowerMonotone(2.0, 1, d.e);
    TwoStep(1);
    TimesLaws(1.0, 2.0, 0.0);
    TimesLaws(2.0, 1.0, 0.0);
    TimesMonotone(HIDDEN as real, m, t);
    TimesMonotone(2.0, t, HIDDEN as real);
    TimesLaws(HIDDEN as real, 2.0, 0.0);
    TimesLaws(HIDDEN as real, t, 0.0);
    assert Times(2.0, HIDDEN as real) == 2.0 * (HIDDEN as real);
  }

  /** Around a safe integer, the interval reaches at most a half either way. */
  lemma IntegerInterval(d: Double, n: nat, y: real)
    requires IsDouble(d) && Magnitude(d) == n as real && n <= MAX_SAFE_INTEGER && In(Rounding(d), y)
    ensures n as real - 0.5 <= y <= n as real + 0.5
  {
    var m, t := d.m as real, Two(d.e);
    if d.e > 0 {
      LargeExponent(d);
    }
    PowerMonotone(2.0, d.e, 0);
    TimesLaws(m, 0.5, t);
    TimesLaws(m, HalfGapBelow(d), t);
    TimesMonotone(HalfGapBelow(d), 0.5, t);
    TimesMonotone(t, 1.0, 0.5);
    TimesLaws(0.5, t, 0.0);
    TimesLaws(0.5, 1.0, 0.0);
    TimesLaws(1.0, 0.5, 0.0);
  }

  /** A decimal within a half of an integer is that integer or has at least as many digits. */
  lemma NearIntegerDigits(n: nat, c: Decimal)
    requires n > 0 && c.s > 0 && n as real - 0.5 <= Val(c) <= n as real + 0.5
    ensures Val(c) == n as real || DigitCount(c.s) >= DigitCount(n)
  {
    hide Val, TenNat, DigitCount;
    if c.q >= 0 {
      var whole := WholeValue(c);
      WithinHalf(whole, n);
    } else {
      FractionDigits(n, c);
      DigitCountMonotone(n, c.s);
    }
  }

  lemma WithinHalf(a: nat, b: nat)
    requires b as real - 0.5 <= a as real <= b as real + 0.5
    ensures a == b
  {
    assert (b - 1) as real < a as real < (b + 1) as real;
  }

  lemma WholeValue(c: Decimal) returns (whole: nat)
    requires c.q >= 0
    ensures Val(c) == whole as real
  {
    whole := c.s * TenNat(c.q);
    ValShift(c.s, c.q, 0);
    ValOfNat(whole);
  }

  /** With a fraction digit, the significand exceeds the integer it is near. */
  lemma FractionDigits(n: nat, c: Decimal)
    requires n > 0 && c.q < 0 && n as real - 0.5 <= Val(c)
    ensures c.s >= n
  {
    var low, unit := n as real - 0.5, Ten(-c.q);
    assert Times(Val(c), unit) == c.s as real by {
      PowerAdd(10.0, c.q, -c.q);
      TimesLaws(c.s as real, Ten(c.q), unit);
      TimesLaws(c.s as real, 1.0, 0.0);
      TimesLaws(1.0, c.s as real, 0.0);
    }
    assert unit >= 10.0 by {
      PowerMonotone(10.0, 1, -c.q);
      TimesLaws(1.0, 10.0, 0.0);
      TimesLaws(10.0, 1.0, 0.0);
      assert Ten(1) == Times(10.0, Ten(0));
    }
    hide Val, Ten;
    TimesMonotone(low, Val(c), unit);
    TimesMonotone(10.0, unit, low);
    TimesLaws(low, unit, 0.0);
    assert Times(10.0, low) == 10.0 * low;
  }

  /** The digits chosen for an integral double are the integer's own. */
  lemma IntegralDigits(f: Formatter, d: Double, n: nat)
    requires Faithful(f) && IsDouble(d) && Magnitude(d) == n as real && 0 < n <= MAX_SAFE_INTEGER
    ensures ChosenDigits(f, d) == StripZeros(n)
  {
    hide ChosenDigits, StripZeros, Val, Magnitude, Rounding, DigitCount;
    ChosenIsEcmaScript(f, d);
    MagnitudeInside(d);
    var c, own := ChosenDigits(f, d), StripZeros(n);
    StrippedValue(n);
    assert Identifies(Rounding(d), own, DigitCount(own.s));
    IntegerInterval(d, n, Val(c));
    NearIntegerDigits(n, c);
    assert Val(c) == n as real;
    TrimmedUnique(c, own);
  }

  lemma SafeIntegerDigits(n: nat)
    requires n <= MAX_SAFE_INTEGER
    ensures |NatText(n)| <= 16
  {
    ReadNatText(n);
    if n > 0 {
      assert TenNat(16) == 10_000_000_000_000_000 by {
        assert TenNat(4) == 10_000;
        assert TenNat(8) == 100_000_000;
        assert TenNat(12) == 1_000_000_000_000;
      }
      DigitCountBounds(n);
      if DigitCount(n) > 16 {
        TenNatMonotone(16, DigitCount(n));
      }
    }
  }

  lemma IntegralText(f: Formatter, d: Double, n: nat)
    requires Faithful(f) && IsDouble(d) && Magnitude(d) == n as real && 0 < n <= MAX_SAFE_INTEGER
    ensures MagnitudeText(f, d) == Some(NatText(n))
  {
    hide Faithful, ChosenDigits, StripZeros, TrimZeros, NatText, TenNat, Magnitude;
    IntegralDigits(f, d, n);
    ChosenIsEcmaScript(f, d);
    var own := StripZeros(n);
    NatTextShifted(own.s, own.q);
    SafeIntegerDigits(n);
    assert Layout(NatText(own.s), own.q + |NatText(own.s)|) == NatText(own.s) + Zeros(own.q);
  }

  /** The sign and the text of the magnitude. */
  lemma TextOfValue(f: Formatter, number: Number)
    requires Faithful(f) && Accepted(f, number) && NumberValue(number) != 0.0
    ensures var d := DoubleOf(f, number);
            && IsDouble(d) && Magnitude(d) == AbsoluteValue(NumberValue(number))
            && MagnitudeText(f, d).Some?
            && NumberText(f, number) == Some(WithSign(NumberValue(number) < 0.0, MagnitudeText(f, d).value))
  {
    hide Faithful, MagnitudeText, NatText, Magnitude, Rounding;
    match number {
      case Unsigned(n) =>
        var d := DoubleOf(f, number);
        IntegralText(f, d, n);
      case Signed(i) =>
        var d := DoubleOf(f, number);
        IntegralText(f, d, UnsignedAbs(i));
      case Zero =>
      case Float(negative, d) =>
        MagnitudeInside(d);
        MagnitudeInside(DoubleOf(f, number));
        RoundingUnique(d, DoubleOf(f, number), Magnitude(d));
        MagnitudeReads(f, d);
      case NotFinite =>
    }
  }

  ghost function DoubleOf(f: Formatter, number: Number): (d: Double)
    requires Accepted(f, number) && NumberValue(number) != 0.0
    ensures IsDouble(d) && Magnitude(d) == AbsoluteValue(NumberValue(number))
  {
    assert exists d :: IsDouble(d) && Magnitude(d) == AbsoluteValue(NumberValue(number)) by {
      if number.Float? {
        MagnitudeInside(number.magnitude);
      } else {
        var d := NatIsDouble(if number.Unsigned? then number.n else UnsignedAbs(number.i));
      }
    }
    var d :| IsDouble(d) && Magnitude(d) == AbsoluteValue(NumberValue(number));
    d
  }

  /** A number has one text, however its token was written. */
  lemma SameValueSameText(f: Formatter, a: Number, b: Number)
    requires Faithful(f) && Accepted(f, a) && Accepted(f, b)
    requires NumberValue(a) == NumberValue(b)
    ensures NumberText(f, a) == NumberText(f, b)
  {
    if NumberValue(a) == 0.0 {
      ZeroText(f, a);
      ZeroText(f, b);
    } else {
      hide NumberText, NumberValue, MagnitudeText, Magnitude, Rounding;
      TextOfValue(f, a);
      TextOfValue(f, b);
      var d, e := DoubleOf(f, a), DoubleOf(f, b);
      MagnitudeInside(d);
      MagnitudeInside(e);
      RoundingUnique(d, e, Magnitude(d));
    }
  }

  lemma ZeroText(f: Formatter, number: Number)
    requires Accepted(f, number) && NumberValue(number) == 0.0
    ensures NumberText(f, number) == Some([ZERO])
  {
    NatTextZero();
    if number.Float? {
      MagnitudeInside(number.magnitude);
    }
  }

  /** Numbers are identified by their value: two accepted tokens have one text
      exactly when they are one double. */
  lemma NumbersByValue(f: Formatter, a: Number, b: Number)
    requires Faithful(f) && Accepted(f, a) && Accepted(f, b)
    ensures NumberText(f, a) == NumberText(f, b) <==> NumberValue(a) == NumberValue(b)
  {
    hide *;
    if NumberText(f, a) == NumberText(f, b) {
      SameTextSameValue(f, a, b);
    }
    if NumberValue(a) == NumberValue(b) {
      SameValueSameText(f, a, b);
    }
  }

  /** Formatters that keep their promises write the same text: it does not depend on
      the platform. */
  lemma FormattersAgree(f: Formatter, g: Formatter, number: Number)
    requires Faithful(f) && Faithful(g)
    ensures NumberText(f, number) == NumberText(g, number)
  {
    hide Faithful, Magnitude, Rounding, IsEcmaScript, ChosenDigits;
    if number.Float? {
      var d := number.magnitude;
      ChosenIsEcmaScript(f, d);
      ChosenIsEcmaScript(g, d);
      MagnitudeInside(d);
      EcmaScriptIsUnique(Magnitude(d), Rounding(d), ChosenDigits(f, d), ChosenDigits(g, d));
    }
  }

  /** What a number's text looks like: `0` for zero, else a sign for the negative ones and
      the form the value read calls for. */
  ghost predicate IsCanonicalNumber(text: ByteString) {
    var value := ReadNumber(text);
    if value == 0.0 then text == Ascii("0")
    else if value < 0.0 then text != [] && text[0] == '-' as int && IsNumberForm(text[1..], -value)
    else IsNumberForm(text, value)
  }

  lemma SignedForm(text: ByteString, negative: bool)
    requires text != [] && IsDigit(text[0])
    requires ReadMagnitude(text) > 0.0 && IsNumberForm(text, ReadMagnitude(text))
    ensures IsCanonicalNumber(WithSign(negative, text))
  {
    hide ReadMagnitude, IsNumberForm;
    if negative {
      assert WithSign(negative, text)[1..] == text;
    }
  }

  /** Every accepted number's text has its form. */
  lemma NumberHasForm(f: Formatter, number: Number)
    requires Faithful(f) && Accepted(f, number)
    ensures IsCanonicalNumber(NumberText(f, number).value)
  {
    hide Faithful, MagnitudeText, NatText, Magnitude, Rounding, ReadMagnitude, IsNumberForm, NumberText, NumberValue;
    var d := NumberReads(f, number);
    if NumberValue(number) == 0.0 {
      ZeroText(f, number);
      assert Ascii("0") == [ZERO];
    } else {
      TextOfValue(f, number);
      d := DoubleOf(f, number);
      MagnitudeForm(f, d);
      MagnitudeReads(f, d);
      MagnitudeInside(d);
      SignedForm(MagnitudeText(f, d).value, NumberValue(number) < 0.0);
    }
  }

  /** A number's text starts with a digit or a sign and holds only number characters. */
  lemma NumberTextBytes(f: Formatter, number: Number)
    requires Faithful(f) && Accepted(f, number)
    ensures var text := NumberText(f, number).value;
            && text != [] && (IsDigit(text[0]) || text[0] == MINUS)
            && forall i :: 0 <= i < |text| ==> IsNumberByte(text[i])
  {
    hide Faithful, MagnitudeText, NatText, Magnitude;
    match number {
      case Unsigned(n) => NatTextReads(n);
      case Signed(i) => NatTextReads(UnsignedAbs(i));
      case Zero =>
      case Float(_, d) => MagnitudeReads(f, d);
      case NotFinite =>
    }
  }

  /** The layout rules of `ecmascript_number`, pushing onto `text`. */
  method PushLayout(text: ByteString, digits: ByteString, n: int) returns (r: ByteString)
    requires digits != []
    ensures r == text + Layout(digits, n)
  {
    hide NatText, Zeros, Scientific;
    var k := |digits|;
    if k <= n <= 21 {
      r := text + digits;
      r := r + Zeros(n - k);
      Associates(text, digits, Zeros(n - k));
    } else if 0 < n <= 21 {
      r := text + digits[..n];
      r := r + [DOT];
      r := r + digits[n..];
      Associates(text, digits[..n], [DOT]);
      Associates(text, digits[..n] + [DOT], digits[n..]);
    } else if -6 < n <= 0 {
      r := text + [ZERO, DOT];
      r := r + Zeros(-n);
      r := r + digits;
      Associates(text, [ZERO, DOT], Zeros(-n));
      Associates(text, [ZERO, DOT] + Zeros(-n), digits);
    } else {
      r := PushScientific(text, digits, n);
    }
  }

  method PushScientific(text: ByteString, digits: ByteString, n: int) returns (r: ByteString)
    requires digits != []
    ensures r == text + Scientific(digits, n)
  {
    hide ExponentText;
    r := text + digits[..1];
    ghost var point := if |digits| > 1 then [DOT] + digits[1..] else [];
    if digits[1..] != [] {
      r := r + [DOT];
      r := r + digits[1..];
      Associates(text + digits[..1], [DOT], digits[1..]);
    }
    assert r == text + digits[..1] + point;
    Associates(text, digits[..1], point);
    r := PushExponent(r, n - 1);
    Associates(text, digits[..1] + point, [LETTER_E] + ExponentText(n - 1));
    Associates(digits[..1] + point, [LETTER_E], ExponentText(n - 1));
  }

  method PushExponent(text: ByteString, exponent: int) returns (r: ByteString)
    ensures r == text + ([LETTER_E] + ExponentText(exponent))
  {
    hide NatText;
    r := text + [LETTER_E];
    r := r + [if exponent >= 0 then PLUS else MINUS];
    r := r + NatText(if exponent >= 0 then exponent else -exponent);
  }

  /** `ecmascript_number`: the sign, then the digits both formats settle on. */
  method EcmaScriptNumber(negative: bool, d: Double, f: Formatter) returns (r: Option<ByteString>)
    ensures r == if MagnitudeText(f, d).None? then None else Some(WithSign(negative, MagnitudeText(f, d).value))
  {
    hide NatText, TrimZeros, DigitCount, In, Rounding, Val, Layout;
    var text: ByteString := [];
    if negative {
      text := text + [MINUS];
    }
    var shortest := f.shortest(d);
    var nearest := f.nearest(d, DigitCount(shortest.s));
    var chosen := if In(Rounding(d), Val(nearest)) then nearest else shortest;
    var mantissa := NatText(chosen.s);
    var digits := TrimZeros(mantissa);
    if digits == [] {
      return None;
    }
    var n := chosen.q + |mantissa|;
    text := PushLayout(text, digits, n);
    assert [] + [MINUS] == [MINUS] && [] + Layout(digits, n) == Layout(digits, n);
    r := Some(text);
  }

  /** `write_number`: appends the text, or refuses and appends nothing. */
  method WriteNumber(number: Number, f: Formatter, out: Output) returns (ok: bool)
    modifies out
    ensures ok <==> NumberText(f, number).Some?
    ensures Faithful(f) ==> (ok <==> IsSafe(number))
    ensures out.bytes == old(out.bytes) + if ok then NumberText(f, number).value else []
  {
    hide Faithful;
    if Faithful(f) {
      AcceptedExactly(f, number);
    }
    match number {
      case Unsigned(n) =>
        if n > MAX_SAFE_INTEGER {
          return false;
        }
        out.bytes := out.bytes + NatText(n);
      case Signed(i) =>
        if UnsignedAbs(i) > MAX_SAFE_INTEGER {
          return false;
        }
        out.bytes := out.bytes + if i < 0 then [MINUS] + NatText(UnsignedAbs(i)) else NatText(i);
      case Zero =>
        out.bytes := out.bytes + [ZERO];
      case Float(negative, d) =>
        if Magnitude(d) > MAX_SAFE_INTEGER as real {
          return false;
        }
        var text := EcmaScriptNumber(negative, d, f);
        if text.None? {
          return false;
        }
        out.bytes := out.bytes + text.value;
      case NotFinite =>
        return false;
    }
    ok := true;
  }
}
