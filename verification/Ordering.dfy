/** Strict total orders: lexicographic order, and sorting by any of them. */
module Ordering {
  /** `Iterator::cmp` says less. */
  predicate LexLess(a: seq<int>, b: seq<int>) {
    b != [] && (a == [] || a[0] < b[0] || (a[0] == b[0] && LexLess(a[1..], b[1..])))
  }

  lemma {:induction false} LexLessTransitive(a: seq<int>, b: seq<int>, c: seq<int>)
    requires LexLess(a, b) && LexLess(b, c)
    ensures LexLess(a, c)
  {
    if a != [] && a[0] == b[0] && b[0] == c[0] {
      LexLessTransitive(a[1..], b[1..], c[1..]);
    }
  }

  lemma {:induction false} LexLessTotal(a: seq<int>, b: seq<int>)
    ensures LexLess(a, b) || LexLess(b, a) || a == b
    ensures !(LexLess(a, b) && LexLess(b, a))
    ensures !LexLess(a, a)
  {
    if a != [] {
      LexLessTotal(a[1..], a[1..]);
      if b != [] && a[0] == b[0] {
        LexLessTotal(a[1..], b[1..]);
        assert a == [a[0]] + a[1..] && b == [b[0]] + b[1..];
      }
    }
  }

  ghost predicate IsStrictTotal<T(!new)>(less: (T, T) -> bool) {
    && (forall a :: !less(a, a))
    && (forall a, b :: a == b || less(a, b) || less(b, a))
    && (forall a, b, c :: less(a, b) && less(b, c) ==> less(a, c))
  }

  predicate IsSorted<T>(s: seq<T>, less: (T, T) -> bool) {
    forall i, j :: 0 <= i < j < |s| ==> less(s[i], s[j])
  }

  predicate AreDistinct<T(==)>(s: seq<T>) {
    forall i, j :: 0 <= i < j < |s| ==> s[i] != s[j]
  }

  /** The elements of a set in whatever order it yields them. */
  method Listed<T(==)>(s: set<T>) returns (r: seq<T>)
    ensures AreDistinct(r) && forall x :: x in r <==> x in s
  {
    r := [];
    var rest := s;
    while rest != {}
      invariant rest <= s && AreDistinct(r)
      invariant forall x :: x in r <==> x in s && x !in rest
      decreases |rest|
    {
      var x :| x in rest;
      assert forall i :: 0 <= i < |r| ==> r[i] in r && r[i] != x;
      assert forall y :: y in r + [x] <==> y in r || y == x;
      r := r + [x];
      rest := rest - {x};
    }
  }

  /** The same elements in increasing order. */
  method Sorted<T(==, !new)>(s: seq<T>, less: (T, T) -> bool) returns (r: seq<T>)
    requires IsStrictTotal(less) && AreDistinct(s)
    ensures IsSorted(r, less) && forall x :: x in r <==> x in s
  {
    hide IsSorted, IsStrictTotal;
    r := [];
    NothingSorted(less);
    for i := 0 to |s|
      invariant IsSorted(r, less)
      invariant forall x :: x in r <==> x in s[..i]
    {
      assert s[..i + 1] == s[..i] + [s[i]];
      r := Inserted(r, s[i], less);
    }
    assert s[..|s|] == s;
  }

  lemma NothingSorted<T>(less: (T, T) -> bool)
    ensures IsSorted([], less)
  {
  }

  method Inserted<T(==, !new)>(r: seq<T>, x: T, less: (T, T) -> bool) returns (r': seq<T>)
    requires IsStrictTotal(less) && IsSorted(r, less) && x !in r
    ensures IsSorted(r', less) && forall y :: y in r' <==> y == x || y in r
  {
    var i := 0;
    while i < |r| && less(r[i], x)
      invariant i <= |r| && forall j :: 0 <= j < i ==> less(r[j], x)
    {
      i := i + 1;
    }
    r' := r[..i] + [x] + r[i..];
    forall j | i <= j < |r| ensures less(x, r[j]) {
      assert less(x, r[i]);
    }
    assert r == r[..i] + r[i..];
  }
}
