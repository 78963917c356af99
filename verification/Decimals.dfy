/** Powers, decimal digits and decimal values, exactly. */
module Decimals {
  import opened Bytes

  /** `base` to the power `e`, for either sign of `e`. */
  function Power(base: real, e: int): (r: real)
    requires base > 1.0
    ensures r > 0.0
    decreases if e < 0 then -e else e
  {
    if e == 0 then 1.0
    else if e > 0 then Times(base, Power(base, e - 1))
    else Power(base, e + 1) / base
  }

  /** Multiplication, named so that products of variables stay apart from sums. */
  function Times(a: real, b: real): (r: real)
    ensures a > 0.0 && b > 0.0 ==> r > 0.0
  {
    a * b
  }

  lemma TimesLaws(a: real, b: real, c: real)
    ensures Times(a, b) == Times(b, a)
    ensures Times(a, Times(b, c)) == Times(Times(a, b), c)
    ensures Times(a + b, c) == Times(a, c) + Times(b, c)
    ensures Times(a - b, c) == Times(a, c) - Times(b, c)
    ensures Times(1.0, a) == a && Times(0.0, a) == 0.0
  {
  }

  lemma TimesMonotone(a: real, b: real, c: real)
    requires c > 0.0
    ensures a <= b ==> Times(a, c) <= Times(b, c)
    ensures a < b ==> Times(a, c) < Times(b, c)
    ensures Times(a, c) == Times(b, c) ==> a == b
    ensures Times(a, c) <= Times(b, c) ==> a <= b
    ensures Times(a, c) < Times(b, c) ==> a < b
  {
    if a < b {
      assert (b - a) * c > 0.0;
    } else if a > b {
      assert (a - b) * c > 0.0;
    }
  }

  lemma PowerStep(base: real, e: int)
    requires base > 1.0
    ensures Power(base, e + 1) == Times(base, Power(base, e))
  {
    if e < 0 {
      assert Power(base, e) == Power(base, e + 1) / base;
    }
  }

  lemma {:induction false} PowerAdd(base: real, a: int, b: int)
    requires base > 1.0
    ensures Power(base, a + b) == Times(Power(base, a), Power(base, b))
    decreases if b < 0 then -b else b
  {
    var p := Power(base, a);
    if b == 0 {
      TimesLaws(1.0, p, p);
    } else if b > 0 {
      PowerAdd(base, a, b - 1);
      PowerStep(base, a + b - 1);
      PowerStep(base, b - 1);
      TimesLaws(base, p, Power(base, b - 1));
      TimesLaws(p, base, Power(base, b - 1));
    } else {
      PowerAdd(base, a, b + 1);
      PowerStep(base, a + b);
      PowerStep(base, b);
      TimesLaws(p, base, Power(base, b));
      TimesLaws(base, p, Power(base, b));
      TimesMonotone(Power(base, a + b), Times(p, Power(base, b)), base);
      TimesLaws(base, Power(base, a + b), 0.0);
      TimesLaws(base, Times(p, Power(base, b)), 0.0);
    }
  }

  lemma {:induction false} PowerMonotone(base: real, a: int, b: int)
    requires base > 1.0 && a <= b
    ensures Power(base, a) <= Power(base, b)
    ensures a < b ==> Power(base, a) < Power(base, b)
    decreases b - a
  {
    if a < b {
      PowerMonotone(base, a, b - 1);
      PowerStep(base, b - 1);
      TimesMonotone(1.0, base, Power(base, b - 1));
      TimesLaws(1.0, Power(base, b - 1), 0.0);
      TimesLaws(Power(base, b - 1), 0.0, 0.0);
    }
  }

  function Ten(e: int): real { Power(10.0, e) }

  function TenNat(n: nat): (r: nat)
    ensures r > 0
  {
    if n == 0 then 1 else 10 * TenNat(n - 1)
  }

  lemma {:induction false} TenNatIsTen(n: nat)
    ensures TenNat(n) as real == Ten(n)
  {
    if n > 0 {
      TenNatIsTen(n - 1);
    }
  }

  lemma {:induction false} TenNatMonotone(a: nat, b: nat)
    requires a <= b
    ensures TenNat(a) <= TenNat(b)
    ensures a < b ==> 10 * TenNat(a) <= TenNat(b) && TenNat(a) <= TenNat(b - 1)
    decreases b - a
  {
    if a < b {
      TenNatMonotone(a, b - 1);
    }
  }

  // Digits.

  predicate AllDigits(text: ByteString) {
    forall i :: 0 <= i < |text| ==> IsDigit(text[i])
  }

  function DigitCount(s: nat): (k: nat)
    ensures k >= 1
  {
    if s < 10 then 1 else 1 + DigitCount(s / 10)
  }

  /** A number with `k` digits lies between two powers of ten. */
  lemma {:induction false} DigitCountBounds(s: nat)
    requires s > 0
    ensures TenNat(DigitCount(s) - 1) <= s < TenNat(DigitCount(s))
  {
    if s >= 10 {
      DigitCountBounds(s / 10);
    } else {
      assert TenNat(1) == 10 * TenNat(0);
    }
  }

  lemma DigitCountFrom(s: nat, k: nat)
    requires k >= 1 && TenNat(k - 1) <= s < TenNat(k)
    ensures DigitCount(s) == k
  {
    DigitCountBounds(s);
    var c := DigitCount(s);
    if c < k {
      TenNatMonotone(c, k);
    } else if c > k {
      TenNatMonotone(k, c);
    }
  }

  lemma DigitCountMonotone(a: nat, b: nat)
    requires 0 < a <= b
    ensures DigitCount(a) <= DigitCount(b)
  {
    DigitCountBounds(a);
    DigitCountBounds(b);
    if DigitCount(b) < DigitCount(a) {
      TenNatMonotone(DigitCount(b), DigitCount(a));
    }
  }

  /** `to_string` of an unsigned integer. */
  function NatText(n: nat): (text: ByteString)
    ensures |text| >= 1 && AllDigits(text)
  {
    if n < 10 then [0x30 + n] else NatText(n / 10) + [0x30 + n % 10]
  }

  /** The number a string of digits spells. */
  function ReadDigits(text: ByteString): int {
    if text == [] then 0 else ReadDigits(text[..|text| - 1]) * 10 + (text[|text| - 1] as int - 0x30)
  }

  lemma {:induction false} ReadNatText(n: nat)
    ensures ReadDigits(NatText(n)) == n
    ensures |NatText(n)| == DigitCount(n)
  {
    if n < 10 {
      assert NatText(n)[..0] == [];
    } else {
      ReadNatText(n / 10);
      assert NatText(n)[..|NatText(n)| - 1] == NatText(n / 10);
    }
  }

  lemma {:induction false} ReadNonnegative(text: ByteString)
    requires AllDigits(text)
    ensures ReadDigits(text) >= 0
  {
    if text != [] {
      ReadNonnegative(text[..|text| - 1]);
    }
  }

  function Zeros(n: nat): (r: ByteString)
    ensures |r| == n && AllDigits(r)
  {
    seq(n, _ => 0x30)
  }

  lemma {:induction false} ReadTrailingZeros(text: ByteString, n: nat)
    ensures ReadDigits(text + Zeros(n)) == ReadDigits(text) * TenNat(n)
  {
    if n == 0 {
      assert text + Zeros(0) == text;
    } else {
      ReadTrailingZeros(text, n - 1);
      var s := text + Zeros(n);
      assert s[..|s| - 1] == text + Zeros(n - 1);
      assert s[|s| - 1] == 0x30;
      var x := ReadDigits(text);
      assert x * TenNat(n) == x * TenNat(n - 1) * 10;
    }
  }

  lemma {:induction false} ReadLeadingZeros(n: nat, text: ByteString)
    ensures ReadDigits(Zeros(n) + text) == ReadDigits(text)
    decreases |text|, n
  {
    var s := Zeros(n) + text;
    if text == [] {
      if n == 0 {
        assert s == [];
      } else {
        ReadLeadingZeros(n - 1, []);
        assert s[..|s| - 1] == Zeros(n - 1) + [];
        assert s[|s| - 1] == 0x30;
      }
    } else {
      ReadLeadingZeros(n, text[..|text| - 1]);
      assert s[..|s| - 1] == Zeros(n) + text[..|text| - 1];
    }
  }

  lemma ShiftedDigits(s: nat, n: nat)
    requires n > 0
    ensures s * TenNat(n) == 10 * (s * TenNat(n - 1))
    ensures s * TenNat(n) / 10 == s * TenNat(n - 1) && s * TenNat(n) % 10 == 0
    ensures s > 0 ==> s * TenNat(n - 1) > 0
  {
    var x := s * TenNat(n - 1);
    assert s * TenNat(n) == 10 * x;
  }

  lemma {:induction false} NatTextShifted(s: nat, n: nat)
    requires s > 0
    ensures NatText(s * TenNat(n)) == NatText(s) + Zeros(n)
  {
    if n == 0 {
      assert NatText(s) + Zeros(0) == NatText(s);
    } else {
      NatTextShifted(s, n - 1);
      ShiftedDigits(s, n);
      assert Zeros(n) == Zeros(n - 1) + [0x30];
      assert NatText(s) + Zeros(n - 1) + [0x30] == NatText(s) + Zeros(n);
    }
  }

  // Decimal values.

  /** `s` times ten to the `q`. */
  datatype Decimal = Decimal(s: nat, q: int)

  function Val(d: Decimal): real { Times(d.s as real, Ten(d.q)) }

  /** Moving the point moves the exponent. */
  lemma ValShift(s: nat, n: nat, q: int)
    ensures Val(Decimal(s * TenNat(n), q)) == Val(Decimal(s, q + n))
  {
    TenNatIsTen(n);
    PowerAdd(10.0, q, n);
    TimesLaws(Ten(n), Ten(q), 0.0);
    TimesLaws(s as real, Ten(n), Ten(q));
    assert (s * TenNat(n)) as real == Times(s as real, Ten(n));
  }

  /** A decimal that does not end in a zero has one spelling. */
  lemma TrimmedUnique(a: Decimal, b: Decimal)
    requires a.s % 10 != 0 && b.s % 10 != 0 && Val(a) == Val(b)
    ensures a == b
  {
    if a.q <= b.q {
      TrimmedOrdered(a, b);
    } else {
      TrimmedOrdered(b, a);
    }
  }

  lemma TrimmedOrdered(a: Decimal, b: Decimal)
    requires a.s % 10 != 0 && b.s % 10 != 0 && Val(a) == Val(b) && a.q <= b.q
    ensures a == b
  {
    var n := b.q - a.q;
    ValShift(b.s, n, a.q);
    TimesMonotone(a.s as real, (b.s * TenNat(n)) as real, Ten(a.q));
    assert a.s == b.s * TenNat(n);
    if n > 0 {
      ShiftedDigits(b.s, n);
    }
  }
}
