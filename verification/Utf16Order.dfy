/** The order of object member names: UTF-16 code units, section 3.2.3 of RFC 8785. */
module Utf16Order {
  import opened Utf8
  import opened Ordering

  type Name = seq<Scalar>

  /** The UTF-16 code units of one character. */
  function Units(c: Scalar): seq<int> {
    if c < 0x1_0000 then [c] else [0xD800 + (c - 0x1_0000) / 1024, 0xDC00 + (c - 0x1_0000) % 1024]
  }

  /** `str::encode_utf16`. */
  function EncodeUtf16(name: Name): seq<int> {
    if name == [] then [] else Units(name[0]) + EncodeUtf16(name[1..])
  }

  /** The order members are sorted in. */
  predicate Before(a: Name, b: Name) {
    LexLess(EncodeUtf16(a), EncodeUtf16(b))
  }

  lemma {:induction false} LexLessCommonPrefix(prefix: seq<int>, a: seq<int>, b: seq<int>)
    ensures LexLess(prefix + a, prefix + b) <==> LexLess(a, b)
  {
    if prefix == [] {
      assert prefix + a == a && prefix + b == b;
    } else {
      LexLessCommonPrefix(prefix[1..], a, b);
      assert (prefix + a)[1..] == prefix[1..] + a && (prefix + b)[1..] == prefix[1..] + b;
    }
  }

  /** UTF-16 puts U+E000..U+FFFF after the supplementary characters, whose
      surrogates come before U+E000. */
  predicate Swapped(c: Scalar, d: Scalar) {
    (c >= 0x1_0000 && 0xE000 <= d < 0x1_0000) || (d >= 0x1_0000 && 0xE000 <= c < 0x1_0000)
  }

  /** Two different characters decide the comparison, whatever follows them. */
  lemma UnitsDecide(c: Scalar, d: Scalar, a: seq<int>, b: seq<int>)
    requires c != d
    ensures LexLess(Units(c) + a, Units(d) + b) <==> ((c < d) != Swapped(c, d))
    ensures Units(c) + a != Units(d) + b
  {
    var x, y := Units(c) + a, Units(d) + b;
    assert x[0] == Units(c)[0] && y[0] == Units(d)[0];
    if c >= 0x1_0000 && d >= 0x1_0000 && x[0] == y[0] {
      assert x[1..][0] == x[1] == Units(c)[1] && y[1..][0] == y[1] == Units(d)[1];
      assert (c - 0x1_0000) % 1024 != (d - 0x1_0000) % 1024;
    }
  }

  /** Names that first differ at `k`. */
  predicate FirstDifference(a: Name, b: Name, k: int) {
    0 <= k < |a| && k < |b| && a[..k] == b[..k] && a[k] != b[k]
  }

  lemma EncodeUnfolds(name: Name)
    requires name != []
    ensures EncodeUtf16(name) == Units(name[0]) + EncodeUtf16(name[1..])
  {
  }

  /** The first differing character decides the order of the names. */
  lemma {:induction false} DifferenceDecides(a: Name, b: Name, k: nat)
    requires FirstDifference(a, b, k)
    ensures Before(a, b) <==> ((a[k] < b[k]) != Swapped(a[k], b[k]))
    ensures LexLess(a, b) <==> a[k] < b[k]
    ensures EncodeUtf16(a) != EncodeUtf16(b)
    decreases k
  {
    EncodeUnfolds(a);
    EncodeUnfolds(b);
    if k == 0 {
      UnitsDecide(a[0], b[0], EncodeUtf16(a[1..]), EncodeUtf16(b[1..]));
    } else {
      assert a[0] == a[..k][0] == b[..k][0] == b[0];
      assert a[1..][..k - 1] == a[..k][1..] == b[..k][1..] == b[1..][..k - 1];
      DifferenceDecides(a[1..], b[1..], k - 1);
      LexLessCommonPrefix(Units(a[0]), EncodeUtf16(a[1..]), EncodeUtf16(b[1..]));
      assert EncodeUtf16(a[1..]) == EncodeUtf16(a)[|Units(a[0])|..];
      assert EncodeUtf16(b[1..]) == EncodeUtf16(b)[|Units(b[0])|..];
    }
  }

  /** Without a difference, the shorter name comes first in either order. */
  lemma {:induction false} PrefixComesFirst(a: Name, b: Name)
    requires a <= b
    ensures Before(a, b) <==> |a| < |b|
    ensures LexLess(a, b) <==> |a| < |b|
    ensures !Before(b, a) && !LexLess(b, a)
    ensures |a| < |b| ==> EncodeUtf16(a) != EncodeUtf16(b)
  {
    if a == [] {
      if b != [] { EncodeUnfolds(b); }
    } else {
      EncodeUnfolds(a);
      EncodeUnfolds(b);
      assert a[0] == b[0] && a[1..] <= b[1..];
      PrefixComesFirst(a[1..], b[1..]);
      LexLessCommonPrefix(Units(a[0]), EncodeUtf16(a[1..]), EncodeUtf16(b[1..]));
      LexLessCommonPrefix(Units(a[0]), EncodeUtf16(b[1..]), EncodeUtf16(a[1..]));
      assert EncodeUtf16(a[1..]) == EncodeUtf16(a)[|Units(a[0])|..];
      assert EncodeUtf16(b[1..]) == EncodeUtf16(b)[|Units(b[0])|..];
    }
  }

  /** Either one name is a prefix of the other or they first differ somewhere. */
  lemma {:induction false} Compare(a: Name, b: Name)
    ensures a <= b || b <= a || exists k :: FirstDifference(a, b, k)
  {
    if a != [] && b != [] {
      if a[0] != b[0] {
        assert FirstDifference(a, b, 0);
      } else {
        Compare(a[1..], b[1..]);
        assert a == [a[0]] + a[1..] && b == [b[0]] + b[1..];
        if k :| FirstDifference(a[1..], b[1..], k) {
          assert a[..k + 1] == [a[0]] + a[1..][..k] && b[..k + 1] == [b[0]] + b[1..][..k];
          assert FirstDifference(a, b, k + 1);
        }
      }
    }
  }

  /** Distinct names have distinct UTF-16 forms. */
  lemma EncodeUtf16Injective(a: Name, b: Name)
    requires EncodeUtf16(a) == EncodeUtf16(b)
    ensures a == b
  {
    Compare(a, b);
    if a <= b {
      PrefixComesFirst(a, b);
    } else if b <= a {
      PrefixComesFirst(b, a);
    } else {
      var k :| FirstDifference(a, b, k);
      DifferenceDecides(a, b, k);
    }
  }

  /** Comparing names by UTF-16 code units is a strict total order. */
  lemma BeforeIsStrictTotalOrder(a: Name, b: Name, c: Name)
    ensures !Before(a, a)
    ensures Before(a, b) ==> !Before(b, a)
    ensures a == b || Before(a, b) || Before(b, a)
    ensures Before(a, b) && Before(b, c) ==> Before(a, c)
  {
    LexLessTotal(EncodeUtf16(a), EncodeUtf16(b));
    LexLessTotal(EncodeUtf16(a), EncodeUtf16(a));
    if EncodeUtf16(a) == EncodeUtf16(b) {
      EncodeUtf16Injective(a, b);
    }
    if Before(a, b) && Before(b, c) {
      LexLessTransitive(EncodeUtf16(a), EncodeUtf16(b), EncodeUtf16(c));
    }
  }

  /** The order differs from code point order exactly when the first difference
      pairs a supplementary character with one in U+E000..U+FFFF. */
  lemma DiffersFromCodePointOrder(a: Name, b: Name)
    ensures Before(a, b) != LexLess(a, b) <==> exists k :: FirstDifference(a, b, k) && Swapped(a[k], b[k])
  {
    Compare(a, b);
    if a <= b {
      PrefixComesFirst(a, b);
    } else if b <= a {
      PrefixComesFirst(b, a);
    } else {
      var k :| FirstDifference(a, b, k);
      DifferenceDecides(a, b, k);
    }
    forall k | FirstDifference(a, b, k) ensures Before(a, b) != LexLess(a, b) <==> Swapped(a[k], b[k]) {
      DifferenceDecides(a, b, k);
    }
  }
}
