/** Positive finite IEEE 754 doubles and the reals that round to each. */
module Doubles {
  import opened Decimals

  const HIDDEN: nat := 0x10_0000_0000_0000  // 2^52
  const LEAST_EXPONENT: int := -1074
  const GREATEST_EXPONENT: int := 971

  /** `m` times two to the `e`. */
  datatype Double = Double(m: nat, e: int)

  /** Normal numbers carry 53 bits; subnormal ones have the least exponent. */
  predicate IsDouble(d: Double) {
    || (HIDDEN <= d.m < 2 * HIDDEN && LEAST_EXPONENT <= d.e <= GREATEST_EXPONENT)
    || (0 < d.m < HIDDEN && d.e == LEAST_EXPONENT)
  }

  /** The double with these bit fields: eleven bits of exponent, 52 of fraction. */
  function FromBits(exponent: nat, fraction: nat): Double {
    if exponent == 0 then Double(fraction, 1 - 1023 - 52) else Double(4503599627370496 + fraction, exponent - 1023 - 52)
  }

  /** The positive finite doubles are those with bit fields. */
  lemma DoublesHaveBits(d: Double)
    ensures IsDouble(d) <==>
            exists exponent: nat, fraction: nat ::
              && d == FromBits(exponent, fraction)
              && exponent < 2047 && fraction < 4503599627370496 && (exponent > 0 || fraction > 0)
  {
    if IsDouble(d) && d.m < HIDDEN {
      assert d == FromBits(0, d.m);
    } else if IsDouble(d) {
      assert d == FromBits(d.e + 1075, d.m - HIDDEN);
    }
  }

  lemma HiddenIsTwo()
    ensures HIDDEN as real == Two(52)
  {
    assert Two(4) == 16.0 && Two(8) == 256.0;
    hide Power;
    PowerAdd(2.0, 8, 8);
    PowerAdd(2.0, 16, 16);
    PowerAdd(2.0, 32, 16);
    PowerAdd(2.0, 48, 4);
  }

  type Finite = d: Double | IsDouble(d) witness Double(1, LEAST_EXPONENT)

  function Two(e: int): real { Power(2.0, e) }

  function Magnitude(d: Double): real { Times(d.m as real, Two(d.e)) }

  datatype Interval = Interval(lo: real, hi: real, closed: bool)

  predicate In(i: Interval, y: real) {
    if i.closed then i.lo <= y <= i.hi else i.lo < y < i.hi
  }

  /** Half the gap below, in units of the last place: below a power of two the
      doubles lie twice as close. */
  function HalfGapBelow(d: Double): real {
    if d.m == HIDDEN && d.e > LEAST_EXPONENT then 0.25 else 0.5
  }

  /** The reals that round to `d`: up to halfway to either neighbour, the
      halfway points going to the neighbour with the even significand. */
  function Rounding(d: Double): Interval {
    Interval(Times(d.m as real - HalfGapBelow(d), Two(d.e)), Times(d.m as real + 0.5, Two(d.e)), d.m % 2 == 0)
  }

  lemma MagnitudeInside(d: Double)
    requires IsDouble(d)
    ensures Magnitude(d) > 0.0
    ensures Rounding(d).lo < Magnitude(d) < Rounding(d).hi
    ensures In(Rounding(d), Magnitude(d))
    ensures Rounding(d).lo > 0.0
  {
    var m := d.m as real;
    TimesMonotone(m - HalfGapBelow(d), m, Two(d.e));
    TimesMonotone(m, m + 0.5, Two(d.e));
  }

  predicate Lower(a: Double, b: Double) {
    a.e < b.e || (a.e == b.e && a.m < b.m)
  }

  lemma TwoStep(e: int)
    ensures Two(e) == Times(2.0, Two(e - 1))
  {
    PowerStep(2.0, e - 1);
  }

  lemma Doubled(x: real, w: real)
    ensures Times(x, Times(2.0, w)) == Times(2.0 * x, w)
  {
  }

  /** The intervals of two doubles do not overlap; where they touch, one of
      them leaves the halfway point to the other. */
  lemma LowerApart(a: Double, b: Double)
    requires IsDouble(a) && IsDouble(b) && Lower(a, b)
    ensures Rounding(a).hi <= Rounding(b).lo
    ensures Rounding(a).hi == Rounding(b).lo ==> !Rounding(a).closed || !Rounding(b).closed
  {
    hide Times, Power;
    var am, bm := a.m as real, b.m as real;
    if a.e == b.e {
      assert HalfGapBelow(b) == 0.5;
      TimesMonotone(am + 0.5, bm - 0.5, Two(a.e));
      assert Rounding(a).hi == Rounding(b).lo ==> am + 0.5 == bm - 0.5;
    } else {
      var w, top := Two(b.e - 1), 2.0 * (HIDDEN as real) - 0.5;
      var floor := 2.0 * (bm - HalfGapBelow(b));
      TwoStep(b.e);
      Doubled(bm - HalfGapBelow(b), w);
      assert Rounding(b).lo == Times(floor, w);
      TimesMonotone(am + 0.5, top, Two(a.e));
      PowerMonotone(2.0, a.e, b.e - 1);
      TimesMonotone(Two(a.e), w, top);
      TimesLaws(top, Two(a.e), 0.0);
      TimesLaws(top, w, 0.0);
      TimesMonotone(top, floor, w);
    }
  }

  /** A real rounds to at most one double. */
  lemma RoundingUnique(a: Double, b: Double, y: real)
    requires IsDouble(a) && IsDouble(b)
    requires In(Rounding(a), y) && In(Rounding(b), y)
    ensures a == b
  {
    if Lower(a, b) {
      LowerApart(a, b);
    } else if Lower(b, a) {
      LowerApart(b, a);
    }
  }

  /** Neighbours are at least a unit in the last place of the lower one apart. */
  lemma Spacing(a: Double, b: Double)
    requires IsDouble(a) && IsDouble(b) && Lower(a, b)
    ensures Magnitude(b) >= Times(a.m as real + 1.0, Two(a.e))
    ensures Magnitude(a) <= Times(b.m as real - 2.0 * HalfGapBelow(b), Two(b.e))
  {
    hide Times, Power;
    var am, bm := a.m as real, b.m as real;
    if a.e == b.e {
      TimesMonotone(am + 1.0, bm, Two(a.e));
      TimesMonotone(am, bm - 1.0, Two(a.e));
      assert HalfGapBelow(b) == 0.5 && bm - 2.0 * HalfGapBelow(b) == bm - 1.0;
    } else {
      var w, top := Two(b.e - 1), 2.0 * (HIDDEN as real);
      var floor := 2.0 * (bm - 2.0 * HalfGapBelow(b));
      TwoStep(b.e);
      Doubled(bm, w);
      Doubled(bm - 2.0 * HalfGapBelow(b), w);
      assert Magnitude(b) == Times(2.0 * bm, w);
      PowerMonotone(2.0, a.e, b.e - 1);
      TimesMonotone(am + 1.0, top, Two(a.e));
      TimesMonotone(Two(a.e), w, top);
      TimesLaws(top, Two(a.e), 0.0);
      TimesLaws(top, w, 0.0);
      TimesMonotone(top, 2.0 * bm, w);
      TimesMonotone(am, top - 1.0, Two(a.e));
      TimesMonotone(Two(a.e), w, top - 1.0);
      TimesLaws(top - 1.0, Two(a.e), 0.0);
      TimesLaws(top - 1.0, w, 0.0);
      TimesMonotone(top - 1.0, floor, w);
    }
  }

  function Distance(a: real, b: real): real { if a <= b then b - a else a - b }

  /** `Rounding` is rounding to nearest, ties to even: what rounds to `d` is as
      close to `d` as to any double, and as close to another only at a tie that
      `d`'s even significand wins. */
  lemma RoundingIsNearest(d: Double, other: Double, y: real)
    requires IsDouble(d) && IsDouble(other) && In(Rounding(d), y) && d != other
    ensures Distance(y, Magnitude(d)) <= Distance(y, Magnitude(other))
    ensures Distance(y, Magnitude(d)) == Distance(y, Magnitude(other)) ==> d.m % 2 == 0
  {
    var m, t, gap := d.m as real, Two(d.e), HalfGapBelow(d);
    TimesLaws(m, 0.5, t);
    TimesLaws(m, 1.0, t);
    TimesLaws(m, gap, t);
    TimesLaws(m, 2.0 * gap, t);
    TimesLaws(gap, gap, t);
    TimesLaws(0.5, 0.5, t);
    TimesMonotone(0.0, gap, t);
    TimesMonotone(0.0, 0.5, t);
    if Lower(d, other) {
      Spacing(d, other);
    } else {
      assert Lower(other, d);
      Spacing(other, d);
    }
  }

  const LEAST: Double := Double(1, LEAST_EXPONENT)
  const GREATEST: Double := Double(2 * HIDDEN - 1, GREATEST_EXPONENT)

  /** The double after `d`. */
  function Next(d: Double): Double {
    if d.m + 1 < 2 * HIDDEN then Double(d.m + 1, d.e) else Double(HIDDEN, d.e + 1)
  }

  /** The double before `d`. */
  function Previous(d: Double): Double
    requires d.m > 0
  {
    if d.m == HIDDEN && d.e > LEAST_EXPONENT then Double(2 * HIDDEN - 1, d.e - 1) else Double(d.m - 1, d.e)
  }

  lemma NextMagnitude(d: Double)
    requires IsDouble(d) && d != GREATEST
    ensures IsDouble(Next(d)) && Magnitude(Next(d)) == Magnitude(d) + Two(d.e)
  {
    var m, t := d.m as real, Two(d.e);
    TimesLaws(m, 1.0, t);
    if d.m + 1 == 2 * HIDDEN {
      TwoStep(d.e + 1);
      TimesLaws(HIDDEN as real, 2.0, t);
      TimesLaws(2.0, HIDDEN as real, t);
    }
  }

  lemma PreviousMagnitude(d: Double)
    requires IsDouble(d) && d != LEAST
    ensures IsDouble(Previous(d)) && Magnitude(Previous(d)) == Magnitude(d) - Times(2.0 * HalfGapBelow(d), Two(d.e))
  {
    var m, t := d.m as real, Two(d.e);
    TimesLaws(m, 2.0 * HalfGapBelow(d), t);
    if d.m == HIDDEN && d.e > LEAST_EXPONENT {
      TwoStep(d.e);
      TimesLaws(m - 0.5, 2.0, Two(d.e - 1));
      TimesLaws(2.0, m - 0.5, Two(d.e - 1));
    }
  }

  /** The interval's ends are halfway to the neighbours. */
  lemma HalfwayPoints(d: Double)
    requires IsDouble(d)
    ensures Rounding(d).hi == Magnitude(d) + Two(d.e) / 2.0
    ensures Rounding(d).lo == Magnitude(d) - Times(2.0 * HalfGapBelow(d), Two(d.e)) / 2.0
    ensures Two(d.e) > 0.0 && Times(2.0 * HalfGapBelow(d), Two(d.e)) > 0.0
  {
    var m, t, gap := d.m as real, Two(d.e), HalfGapBelow(d);
    TimesLaws(m, 0.5, t);
    TimesLaws(m, gap, t);
    TimesLaws(gap, gap, t);
    TimesLaws(0.5, 0.5, t);
    TimesLaws(t, 1.0, 1.0);
  }

  /** `d` is the double nearest to `y`; of two equally near, the one with the even
      significand, the other's being odd. */
  ghost predicate IsNearestDouble(d: Double, y: real) {
    IsDouble(d) && forall other {:trigger Magnitude(other)} :: IsDouble(other) && other != d ==> Beats(d, other, y)
  }

  ghost predicate Beats(d: Double, other: Double, y: real) {
    var mine, theirs := Distance(y, Magnitude(d)), Distance(y, Magnitude(other));
    mine < theirs || (mine == theirs && d.m % 2 == 0 && other.m % 2 == 1)
  }

  lemma SameMagnitude(a: Double, b: Double)
    requires IsDouble(a) && IsDouble(b) && Magnitude(a) == Magnitude(b)
    ensures a == b
  {
    MagnitudeInside(a);
    MagnitudeInside(b);
    RoundingUnique(a, b, Magnitude(a));
  }

  /** What is in an interval beats every other double. */
  lemma InsideBeats(d: Double, other: Double, y: real)
    requires IsDouble(d) && IsDouble(other) && In(Rounding(d), y) && d != other
    ensures Beats(d, other, y)
  {
    RoundingIsNearest(d, other, y);
    HalfwayPoints(d);
    if Distance(y, Magnitude(d)) == Distance(y, Magnitude(other)) {
      TieIsNeighbour(d, other, y);
    }
  }

  /** Only a neighbour with an odd significand is equally near. */
  lemma TieIsNeighbour(d: Double, other: Double, y: real)
    requires IsDouble(d) && IsDouble(other) && In(Rounding(d), y) && d != other && d.m % 2 == 0
    requires Distance(y, Magnitude(d)) == Distance(y, Magnitude(other))
    ensures other.m % 2 == 1
  {
    hide Magnitude, HalfGapBelow, Two;
    HalfwayPoints(d);
    if Lower(d, other) {
      Apart(d, other);
      NextMagnitude(d);
      SameMagnitude(other, Next(d));
      NeighboursAreOdd(d);
    } else {
      Apart(other, d);
      PreviousMagnitude(d);
      SameMagnitude(other, Previous(d));
      NeighboursAreOdd(d);
    }
  }

  lemma NeighboursAreOdd(d: Double)
    requires IsDouble(d) && d.m % 2 == 0
    ensures Next(d).m % 2 == 1 && Previous(d).m % 2 == 1
  {
  }

  /** A higher double is at least a unit in the last place above, and a lower one
      at least the gap below. */
  lemma Apart(a: Double, b: Double)
    requires IsDouble(a) && IsDouble(b) && Lower(a, b)
    ensures Magnitude(b) >= Magnitude(a) + Two(a.e)
    ensures Magnitude(a) <= Magnitude(b) - Times(2.0 * HalfGapBelow(b), Two(b.e))
    ensures a != GREATEST && b != LEAST
  {
    Spacing(a, b);
    TimesLaws(a.m as real, 1.0, Two(a.e));
    TimesLaws(Two(a.e), 1.0, 1.0);
    TimesLaws(b.m as real, 2.0 * HalfGapBelow(b), Two(b.e));
  }

  /** In the range of doubles, `Rounding` is rounding to the nearest double, ties
      to even: a number is in a double's interval exactly when that is its nearest. */
  lemma RoundingExactly(d: Double, y: real)
    requires IsDouble(d) && Rounding(LEAST).lo < y < Rounding(GREATEST).hi
    ensures In(Rounding(d), y) <==> IsNearestDouble(d, y)
  {
    hide Magnitude, Rounding;
    if In(Rounding(d), y) {
      forall other | IsDouble(other) && other != d ensures Beats(d, other, y) {
        InsideBeats(d, other, y);
      }
    }
    if IsNearestDouble(d, y) {
      NearestInside(d, y);
    }
  }

  lemma NearestInside(d: Double, y: real)
    requires IsNearestDouble(d, y) && Rounding(LEAST).lo < y < Rounding(GREATEST).hi
    ensures In(Rounding(d), y)
  {
    hide Magnitude;
    HalfwayPoints(d);
    if d != GREATEST {
      NextMagnitude(d);
      assert Beats(d, Next(d), y);
    }
    if d != LEAST {
      PreviousMagnitude(d);
      assert Beats(d, Previous(d), y);
    }
  }
}
