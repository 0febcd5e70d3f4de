/** Sequence helpers: occurrence counts, order-preserving filtering and de-duplication,
    and a counting identity used for the pivot totals. */
module Seqs {

  predicate Distinct<T(==)>(s: seq<T>)
  {
    forall i, j :: 0 <= i < j < |s| ==> s[i] != s[j]
  }

  /** Number of occurrences of `x` in `s`. */
  function Count<T(==)>(s: seq<T>, x: T): (n: nat)
    ensures n <= |s|
    ensures n > 0 <==> x in s
  {
    if s == [] then 0
    else
      assert s == s[..|s| - 1] + [s[|s| - 1]];
      Count(s[..|s| - 1], x) + (if s[|s| - 1] == x then 1 else 0)
  }

  lemma CountSnoc<T>(s: seq<T>, y: T, x: T)
    ensures Count(s + [y], x) == Count(s, x) + (if y == x then 1 else 0)
  {
    assert (s + [y])[..|s|] == s;
  }

  lemma CountDistinct<T>(s: seq<T>, x: T)
    requires Distinct(s) && x in s
    ensures Count(s, x) == 1
  {
    var last := s[|s| - 1];
    var init := s[..|s| - 1];
    assert s == init + [last];
    if last == x {
      assert x !in init;
    } else {
      assert x in init;
      CountDistinct(init, x);
    }
  }

  /** The elements of `s` satisfying `p`, in their order in `s`. */
  function Filter<T(==, !new)>(s: seq<T>, p: T -> bool): (r: seq<T>)
    ensures |r| <= |s|
    ensures forall x :: x in r <==> x in s && p(x)
    ensures forall x :: Count(r, x) == if p(x) then Count(s, x) else 0
  {
    if s == [] then []
    else
      var init, last := s[..|s| - 1], s[|s| - 1];
      assert s == init + [last];
      var r := Filter(init, p);
      forall x ensures Count(s, x) == Count(init, x) + (if last == x then 1 else 0) {
        CountSnoc(init, last, x);
      }
      if p(last) then
        forall x ensures Count(r + [last], x) == Count(r, x) + (if last == x then 1 else 0) {
          CountSnoc(r, last, x);
        }
        r + [last]
      else r
  }

  /** Filtering distributes over concatenation: order is preserved. */
  lemma {:induction false} FilterAppend<T(!new)>(a: seq<T>, b: seq<T>, p: T -> bool)
    ensures Filter(a + b, p) == Filter(a, p) + Filter(b, p)
  {
    if b == [] {
      assert a + b == a;
    } else {
      var init, last := b[..|b| - 1], b[|b| - 1];
      assert a + b == (a + init) + [last];
      assert (a + b)[..|a + b| - 1] == a + init;
      FilterAppend(a, init, p);
    }
  }

  /** Filtering with a predicate every element meets changes nothing. */
  lemma {:induction false} FilterAll<T(!new)>(s: seq<T>, p: T -> bool)
    requires forall i :: 0 <= i < |s| ==> p(s[i])
    ensures Filter(s, p) == s
  {
    if s != [] {
      var init := s[..|s| - 1];
      assert forall i :: 0 <= i < |init| ==> init[i] == s[i];
      FilterAll(init, p);
      assert p(s[|s| - 1]);
      assert Filter(s, p) == Filter(init, p) + [s[|s| - 1]];
      assert s == init + [s[|s| - 1]];
    }
  }

  /** The distinct elements of `s`, each at the position of its first occurrence. */
  function Dedup<T(==, !new)>(s: seq<T>): (r: seq<T>)
    ensures |r| <= |s|
    ensures Distinct(r)
    ensures forall x :: x in r <==> x in s
  {
    if s == [] then []
    else
      var init, last := s[..|s| - 1], s[|s| - 1];
      assert s == init + [last];
      var r := Dedup(init);
      if last in r then r else r + [last]
  }

  /** The sum over `ds` of the number of occurrences of each element in `xs`. */
  function CountAll<T(==)>(xs: seq<T>, ds: seq<T>): nat
  {
    if ds == [] then 0 else CountAll(xs, ds[..|ds| - 1]) + Count(xs, ds[|ds| - 1])
  }

  lemma {:induction false} CountAllAppend<T>(xs: seq<T>, d1: seq<T>, d2: seq<T>)
    ensures CountAll(xs, d1 + d2) == CountAll(xs, d1) + CountAll(xs, d2)
  {
    if d2 == [] {
      assert d1 + d2 == d1;
    } else {
      var init := d2[..|d2| - 1];
      assert (d1 + d2)[..|d1 + d2| - 1] == d1 + init;
      CountAllAppend(xs, d1, init);
    }
  }

  lemma {:induction false} CountAllSnoc<T>(xs: seq<T>, x: T, ds: seq<T>)
    ensures CountAll(xs + [x], ds) == CountAll(xs, ds) + Count(ds, x)
  {
    if ds != [] {
      var init, last := ds[..|ds| - 1], ds[|ds| - 1];
      CountAllSnoc(xs, x, init);
      CountSnoc(xs, x, last);
    }
  }

  /** When `ds` lists every element of `xs` exactly once, the per-element counts add up to |xs|. */
  lemma {:induction false} CountAllCovers<T>(xs: seq<T>, ds: seq<T>)
    requires Distinct(ds)
    requires forall x :: x in xs ==> x in ds
    ensures CountAll(xs, ds) == |xs|
  {
    if xs == [] {
      CountAllZero(ds);
    } else {
      var init, last := xs[..|xs| - 1], xs[|xs| - 1];
      assert xs == init + [last];
      CountAllCovers(init, ds);
      CountAllSnoc(init, last, ds);
      CountDistinct(ds, last);
    }
  }

  lemma {:induction false} CountAllZero<T>(ds: seq<T>)
    ensures CountAll([], ds) == 0
  {
    if ds != [] {
      CountAllZero(ds[..|ds| - 1]);
    }
  }
}
