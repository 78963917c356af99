/** Which decimal digits identify a double: Rust's two formats and the choice
    ECMAScript's `Number::toString` makes, section 3.2.2.3 of RFC 8785
    (`gateway-config/src/canonical_json.rs`, `ecmascript_number`). */
module DigitChoice {
  import opened Decimals
  import opened Doubles

  /** `d` has `k` digits and lies in the interval. */
  ghost predicate Identifies(i: Interval, d: Decimal, k: nat) {
    d.s > 0 && DigitCount(d.s) == k && In(i, Val(d))
  }

  /** `{:e}`: fewest digits that identify the number, closest such to it. */
  ghost predicate IsShortest(x: real, i: Interval, d: Decimal) {
    var k := DigitCount(d.s);
    && Identifies(i, d, k)
    && (forall o, j :: Identifies(i, o, j) ==> k <= j)
    && (forall o :: Identifies(i, o, k) ==> Distance(Val(d), x) <= Distance(Val(o), x))
  }

  /** Of two decimals, `d` is the even one, at the scale of the finer of them. */
  predicate EvenOver(d: Decimal, o: Decimal) {
    d.q > o.q || d.s % 2 == 0
  }

  ghost predicate HasDigits(d: Decimal, k: nat) { d.s > 0 && DigitCount(d.s) == k }

  /** `{:.p$e}`: the `k`-digit decimal nearest the exact value, ties to even. */
  ghost predicate IsNearest(x: real, k: nat, d: Decimal) {
    && HasDigits(d, k)
    && (forall o :: HasDigits(o, k) ==> Distance(Val(d), x) <= Distance(Val(o), x))
    && (forall o :: HasDigits(o, k) && Val(o) != Val(d) && Distance(Val(o), x) == Distance(Val(d), x) ==>
        EvenOver(d, o))
  }

  /** The digits ECMAScript asks for: as few as identify the number, the
      closest such to it, and of two equally close the even one. */
  ghost predicate IsEcmaScript(x: real, i: Interval, d: Decimal) {
    && IsShortest(x, i, d)
    && forall o :: Identifies(i, o, DigitCount(d.s)) && Val(o) != Val(d) && Distance(Val(o), x) == Distance(Val(d), x)
         ==> EvenOver(d, o)
  }

  /** The nearest decimal if it identifies the number, otherwise the shortest. */
  function Choose(i: Interval, shortest: Decimal, nearest: Decimal): Decimal {
    if In(i, Val(nearest)) then nearest else shortest
  }

  /** Taking the ties-to-even decimal when it still identifies the number, and
      the shortest form otherwise, meets ECMAScript's rule for every number in
      every convex rounding interval. */
  lemma ChoiceIsEcmaScript(x: real, i: Interval, shortest: Decimal, nearest: Decimal)
    requires In(i, x)
    requires IsShortest(x, i, shortest) && IsNearest(x, DigitCount(shortest.s), nearest)
    ensures IsEcmaScript(x, i, Choose(i, shortest, nearest))
  {
    var k := DigitCount(shortest.s);
    assert HasDigits(shortest, k);
    if In(i, Val(nearest)) {
      assert Identifies(i, nearest, k);
      forall o | Identifies(i, o, k)
        ensures Distance(Val(nearest), x) <= Distance(Val(o), x)
        ensures Val(o) != Val(nearest) && Distance(Val(o), x) == Distance(Val(nearest), x) ==> EvenOver(nearest, o)
      {
        assert HasDigits(o, k);
      }
    } else {
      forall o | Identifies(i, o, k) && Val(o) != Val(shortest)
        ensures Distance(Val(o), x) != Distance(Val(shortest), x)
      {
        assert HasDigits(nearest, k);
      }
    }
  }

  /** Such digits never end in a zero, so trimming zeros drops nothing. */
  lemma EcmaScriptIsTrimmed(x: real, i: Interval, d: Decimal)
    requires IsEcmaScript(x, i, d)
    ensures d.s % 10 != 0
  {
    if d.s % 10 == 0 {
      var shorter := Decimal(d.s / 10, d.q + 1);
      assert TenNat(1) == 10 * TenNat(0);
      ValShift(d.s / 10, 1, d.q);
      assert Identifies(i, shorter, DigitCount(shorter.s));
    }
  }

  // Both formats exist: no number is without its digits.

  lemma {:induction false} TenNatExceeds(n: nat)
    ensures TenNat(n) > n
  {
    if n > 0 {
      TenNatExceeds(n - 1);
    }
  }

  lemma PowerBelow(x: real) returns (low: int)
    requires x > 0.0
    ensures Ten(low) <= x
  {
    var inverse := 1.0 / x;
    var n: nat := inverse.Floor + 1;
    low := 0;
    low := low - n;
    TenNatExceeds(n);
    TenNatIsTen(n);
    assert Ten(n) >= inverse;
    PowerAdd(10.0, low, n);
    TimesLaws(Ten(low), Ten(n), 0.0);
    TimesMonotone(inverse, Ten(n), x);
    TimesMonotone(Ten(low), x, Ten(n));
    assert Times(inverse, x) == 1.0;
    TimesLaws(x, Ten(n), 0.0);
  }

  lemma {:induction false} DecadeBetween(x: real, low: int, high: int) returns (p: int)
    requires low < high && Ten(low) <= x < Ten(high)
    ensures Ten(p) <= x < Ten(p + 1)
    decreases high - low
  {
    if x < Ten(low + 1) {
      p := low;
    } else {
      p := DecadeBetween(x, low + 1, high);
    }
  }

  lemma Decade(x: real) returns (p: int)
    requires x > 0.0
    ensures Ten(p) <= x < Ten(p + 1)
  {
    var low := PowerBelow(x);
    var high := x.Floor + 1;
    TenNatExceeds(high);
    TenNatIsTen(high);
    if low >= high {
      PowerMonotone(10.0, high, low);
    }
    p := DecadeBetween(x, low, high);
  }

  /** Consecutive `k`-digit decimals around `x`, and the power of ten at `x`. */
  ghost predicate Brackets(x: real, k: nat, t: nat, g: int) {
    && k >= 1 && TenNat(k - 1) <= t < TenNat(k)
    && Val(Decimal(t, g)) <= x < Val(Decimal(t + 1, g))
  }

  lemma DecadeSplit(p: int, k: nat)
    requires k >= 1
    ensures Ten(p + 1 - k) > 0.0
    ensures Ten(p) == Times(Ten(k - 1), Ten(p + 1 - k)) && Ten(p + 1) == Times(Ten(k), Ten(p + 1 - k))
  {
    PowerAdd(10.0, k - 1, p + 1 - k);
    PowerAdd(10.0, k, p + 1 - k);
  }

  lemma Ratio(x: real, scale: real) returns (ratio: real)
    requires scale > 0.0
    ensures Times(ratio, scale) == x
  {
    ratio := x / scale;
  }

  lemma Bracket(x: real, k: nat, p: int) returns (t: nat)
    requires k >= 1 && Ten(p) <= x < Ten(p + 1)
    ensures Brackets(x, k, t, p + 1 - k)
  {
    hide Power, Ten, TenNat;
    var g := p + 1 - k;
    var scale := Ten(g);
    assert scale > 0.0 && Ten(p) == Times(Ten(k - 1), scale) && Ten(p + 1) == Times(Ten(k), scale) by {
      DecadeSplit(p, k);
    }
    TenNatIsTen(k - 1);
    TenNatIsTen(k);
    var ratio := Ratio(x, scale);
    TimesMonotone(TenNat(k - 1) as real, ratio, scale);
    TimesMonotone(ratio, TenNat(k) as real, scale);
    t := ratio.Floor;
    TimesMonotone(t as real, ratio, scale);
    TimesMonotone(ratio, t as real + 1.0, scale);
  }

  /** No `k`-digit decimal lies strictly between the two that bracket `x`. */
  lemma NoneBetween(x: real, k: nat, t: nat, g: int, o: Decimal)
    requires Brackets(x, k, t, g) && HasDigits(o, k)
    ensures Val(o) <= Val(Decimal(t, g)) || Val(o) >= Val(Decimal(t + 1, g))
    ensures Val(o) == Val(Decimal(t, g)) ==> o.q <= g
  {
    DigitCountBounds(o.s);
    if o.q >= g {
      CoarserApart(k, t, g, o);
    } else {
      FinerBelow(k, t, g, o);
    }
  }

  /** At the same scale or a coarser one, a decimal is a whole number of units. */
  lemma CoarserApart(k: nat, t: nat, g: int, o: Decimal)
    requires k >= 1 && t < TenNat(k) && TenNat(k - 1) <= o.s && o.q >= g
    ensures Val(o) <= Val(Decimal(t, g)) || Val(o) >= Val(Decimal(t + 1, g))
    ensures Val(o) == Val(Decimal(t, g)) ==> o.q <= g
  {
    hide Val;
    var n := o.q - g;
    ValShift(o.s, n, g);
    var whole := o.s * TenNat(n);
    if n > 0 {
      ShiftedDigits(o.s, n);
      ShiftGrows(o.s, n - 1);
      assert whole > t;
    }
    ValMonotone(whole, t, g);
    ValMonotone(t + 1, whole, g);
  }

  /** At a finer scale, `k` digits reach only below the decade of `t`. */
  lemma FinerBelow(k: nat, t: nat, g: int, o: Decimal)
    requires k >= 1 && TenNat(k - 1) <= t && o.s < TenNat(k) && o.q < g
    ensures Val(o) <= Val(Decimal(t, g))
  {
    hide Val;
    var n := g - o.q;
    ValShift(t, n, o.q);
    ShiftedDigits(t, n);
    ShiftGrows(t, n - 1);
    assert TenNat(k) == 10 * TenNat(k - 1);
    ValMonotone(o.s, t * TenNat(n), o.q);
  }

  lemma ValMonotone(a: nat, b: nat, q: int)
    ensures a <= b <==> Val(Decimal(a, q)) <= Val(Decimal(b, q))
  {
    TimesMonotone(a as real, b as real, Ten(q));
    TimesMonotone(b as real, a as real, Ten(q));
  }

  lemma ShiftGrows(s: nat, n: nat)
    ensures s * TenNat(n) >= s
  {
  }

  /** The upper of the two, written with `k` digits. */
  function Upper(k: nat, t: nat, g: int): Decimal
    requires k >= 1
  {
    if t + 1 < TenNat(k) then Decimal(t + 1, g) else Decimal(TenNat(k - 1), g + 1)
  }

  lemma BracketDigits(x: real, k: nat, t: nat, g: int)
    requires Brackets(x, k, t, g)
    ensures HasDigits(Decimal(t, g), k) && HasDigits(Upper(k, t, g), k)
    ensures Val(Upper(k, t, g)) == Val(Decimal(t + 1, g))
  {
    DigitCountFrom(t, k);
    DigitCountFrom(Upper(k, t, g).s, k);
    if t + 1 == TenNat(k) {
      assert TenNat(1) == 10 * TenNat(0);
      assert TenNat(k) == TenNat(k - 1) * TenNat(1);
      ValShift(TenNat(k - 1), 1, g);
    }
  }

  /** The closer of the two that bracket `x`, and at a tie the even one. */
  function Closer(x: real, k: nat, t: nat, g: int): Decimal
    requires k >= 1
  {
    var down, up := x - Val(Decimal(t, g)), Val(Decimal(t + 1, g)) - x;
    if down < up || (down == up && t % 2 == 0) then Decimal(t, g) else Upper(k, t, g)
  }

  lemma CloserThan(x: real, k: nat, t: nat, g: int, o: Decimal)
    requires Brackets(x, k, t, g) && HasDigits(o, k)
    ensures var d := Closer(x, k, t, g);
            && Distance(Val(d), x) <= Distance(Val(o), x)
            && (Val(o) != Val(d) && Distance(Val(o), x) == Distance(Val(d), x) ==> EvenOver(d, o))
  {
    NoneBetween(x, k, t, g, o);
    BracketDigits(x, k, t, g);
    hide Val, HasDigits, TenNat;
    var low, high, y := Val(Decimal(t, g)), Val(Decimal(t + 1, g)), Val(o);
    assert low <= x < high && (y <= low || y >= high);
    if Closer(x, k, t, g) == Decimal(t, g) {
      assert Distance(low, x) <= Distance(y, x);
    } else {
      assert Distance(high, x) <= Distance(y, x);
    }
  }

  /** Every number has a nearest `k`-digit decimal. */
  lemma NearestExists(x: real, k: nat) returns (d: Decimal)
    requires x > 0.0 && k >= 1
    ensures IsNearest(x, k, d)
  {
    var p := Decade(x);
    var g := p + 1 - k;
    var t := Bracket(x, k, p);
    BracketDigits(x, k, t, g);
    d := Closer(x, k, t, g);
    hide Val, Brackets, HasDigits;
    forall o | HasDigits(o, k)
      ensures Distance(Val(d), x) <= Distance(Val(o), x)
      ensures Val(o) != Val(d) && Distance(Val(o), x) == Distance(Val(d), x) ==> EvenOver(d, o)
    {
      CloserThan(x, k, t, g, o);
    }
  }

  /** Some decimal with enough digits lies strictly inside any interval around `x`. */
  lemma SomeIdentifies(x: real, i: Interval) returns (d: Decimal)
    requires 0.0 < x && i.lo < x < i.hi
    ensures Identifies(i, d, DigitCount(d.s))
  {
    var p := Decade(x);
    var low := PowerBelow(i.hi - x);
    var k := if p + 2 - low >= 1 then p + 2 - low else 1;
    var g := p + 1 - k;
    var t := Bracket(x, k, p);
    PowerMonotone(10.0, g, low - 1);
    PowerMonotone(10.0, low - 1, low);
    TimesLaws(t as real, 1.0, Ten(g));
    TimesLaws(1.0, Ten(g), 0.0);
    d := Decimal(t + 1, g);
  }

  lemma {:induction false} FewestExist(i: Interval, d: Decimal, k: nat) returns (e: Decimal)
    requires Identifies(i, d, k)
    ensures e.s > 0 && Identifies(i, e, DigitCount(e.s))
    ensures forall o, j :: Identifies(i, o, j) ==> DigitCount(e.s) <= j
    decreases k
  {
    if o: Decimal, j: nat :| Identifies(i, o, j) && j < k {
      e := FewestExist(i, o, j);
    } else {
      e := d;
    }
  }

  /** Every number strictly inside its interval has a shortest decimal. */
  lemma ShortestExists(x: real, i: Interval) returns (d: Decimal)
    requires 0.0 < x && i.lo < x < i.hi
    ensures IsShortest(x, i, d)
  {
    var some := SomeIdentifies(x, i);
    var few := FewestExist(i, some, DigitCount(some.s));
    var k := DigitCount(few.s);
    var p := Decade(x);
    var g := p + 1 - k;
    var t := Bracket(x, k, p);
    BracketDigits(x, k, t, g);
    var lower, upper := Decimal(t, g), Upper(k, t, g);
    var down, up := x - Val(lower), Val(upper) - x;
    NoneBetween(x, k, t, g, few);
    d := if In(i, Val(lower)) && (down <= up || !In(i, Val(upper))) then lower else upper;
    assert Identifies(i, d, k);
    forall o | Identifies(i, o, k) ensures Distance(Val(d), x) <= Distance(Val(o), x) {
      NoneBetween(x, k, t, g, o);
    }
  }

  // There is one such choice.

  /** Equal decimals of as many digits are spelled the same. */
  lemma SameDigits(a: Decimal, b: Decimal, k: nat)
    requires HasDigits(a, k) && HasDigits(b, k) && Val(a) == Val(b)
    ensures a == b
  {
    if a.q <= b.q {
      SameDigitsOrdered(a, b, k);
    } else {
      SameDigitsOrdered(b, a, k);
    }
  }

  lemma SameDigitsOrdered(a: Decimal, b: Decimal, k: nat)
    requires HasDigits(a, k) && HasDigits(b, k) && Val(a) == Val(b) && a.q <= b.q
    ensures a == b
  {
    var n := b.q - a.q;
    ValShift(b.s, n, a.q);
    TimesMonotone(a.s as real, (b.s * TenNat(n)) as real, Ten(a.q));
    assert a.s == b.s * TenNat(n);
    if n > 0 {
      ShiftedDigits(b.s, n);
      ShiftGrows(b.s, n - 1);
      DigitCountMonotone(b.s, b.s * TenNat(n - 1));
    }
  }

  /** Of two ECMAScript choices on either side of a number, one is the decimal just
      below it and the other the one just above. */
  lemma ChoicesBracket(x: real, i: Interval, a: Decimal, b: Decimal, k: nat, t: nat, g: int)
    requires In(i, x) && IsEcmaScript(x, i, a) && IsEcmaScript(x, i, b)
    requires DigitCount(a.s) == DigitCount(b.s) == k && Brackets(x, k, t, g) && Val(a) < x < Val(b)
    ensures a == Decimal(t, g) && b == Upper(k, t, g)
  {
    BracketDigits(x, k, t, g);
    NoneBetween(x, k, t, g, a);
    NoneBetween(x, k, t, g, b);
    hide Val;
    assert Identifies(i, Decimal(t, g), k) && Identifies(i, Upper(k, t, g), k);
    assert Identifies(i, a, k) && Identifies(i, b, k);
    SameDigits(a, Decimal(t, g), k);
    SameDigits(b, Upper(k, t, g), k);
  }

  /** Neighbours that do not end in zeros are not both even over the other. */
  lemma OneIsOdd(k: nat, t: nat, g: int)
    requires k >= 1 && t < TenNat(k) && Upper(k, t, g).s % 10 != 0
    ensures !EvenOver(Decimal(t, g), Upper(k, t, g)) || !EvenOver(Upper(k, t, g), Decimal(t, g))
  {
    assert k > 1 ==> TenNat(k - 1) == 10 * TenNat(k - 2);
    assert TenNat(1) == 10 * TenNat(0);
  }

  lemma NoTwoSides(x: real, i: Interval, a: Decimal, b: Decimal)
    requires In(i, x) && x > 0.0 && IsEcmaScript(x, i, a) && IsEcmaScript(x, i, b)
    ensures !(Val(a) < x < Val(b))
  {
    if Val(a) < x < Val(b) {
      EcmaScriptIsTrimmed(x, i, b);
      var k := DigitCount(a.s);
      assert Identifies(i, a, k) && Identifies(i, b, DigitCount(b.s));
      var p := Decade(x);
      var t := Bracket(x, k, p);
      ChoicesBracket(x, i, a, b, k, t, p + 1 - k);
      OneIsOdd(k, t, p + 1 - k);
    }
  }

  /** ECMAScript's rule leaves no choice. */
  lemma EcmaScriptIsUnique(x: real, i: Interval, a: Decimal, b: Decimal)
    requires In(i, x) && x > 0.0 && IsEcmaScript(x, i, a) && IsEcmaScript(x, i, b)
    ensures a == b
  {
    EcmaScriptIsTrimmed(x, i, a);
    EcmaScriptIsTrimmed(x, i, b);
    NoTwoSides(x, i, a, b);
    NoTwoSides(x, i, b, a);
    assert Identifies(i, a, DigitCount(a.s)) && Identifies(i, b, DigitCount(b.s));
    assert Distance(Val(a), x) == Distance(Val(b), x);
    hide Val;
    TrimmedUnique(a, b);
  }
}
