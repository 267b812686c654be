// Sums over finite sets, the shape of Python's `sum(f(x) for x in s)` and of a running total
// kept while a set is walked in whatever order its iterator yields.

module Sums {

  /** The total of f over xs; the order in which elements are picked does not matter
      (SumRemove). */
  ghost function Sum<T>(xs: set<T>, f: T -> int): int
  {
    if xs == {} then 0 else var x :| x in xs; f(x) + Sum(xs - {x}, f)
  }

  /** Any element can be taken out first. */
  lemma {:induction false} SumRemove<T>(xs: set<T>, f: T -> int, y: T)
    requires y in xs
    ensures Sum(xs, f) == f(y) + Sum(xs - {y}, f)
    decreases |xs|
  {
    var x :| x in xs && Sum(xs, f) == f(x) + Sum(xs - {x}, f);
    if x != y {
      SumRemove(xs - {x}, f, y);
      SumRemove(xs - {y}, f, x);
      assert xs - {x} - {y} == xs - {y} - {x};
    }
  }

  lemma SumAdd<T>(xs: set<T>, f: T -> int, y: T)
    requires y !in xs
    ensures Sum(xs + {y}, f) == f(y) + Sum(xs, f)
  {
    SumRemove(xs + {y}, f, y);
    assert xs + {y} - {y} == xs;
  }

  /** Two functions that agree on xs have the same total over it. */
  lemma {:induction false} SumAgree<T>(xs: set<T>, f: T -> int, g: T -> int)
    requires forall x :: x in xs ==> f(x) == g(x)
    ensures Sum(xs, f) == Sum(xs, g)
    decreases |xs|
  {
    if xs != {} {
      var x :| x in xs;
      SumRemove(xs, f, x);
      SumRemove(xs, g, x);
      SumAgree(xs - {x}, f, g);
    }
  }

  /** A total of non-negative terms is non-negative. */
  lemma {:induction false} SumNonNegative<T>(xs: set<T>, f: T -> int)
    requires forall x :: x in xs ==> f(x) >= 0
    ensures Sum(xs, f) >= 0
    decreases |xs|
  {
    if xs != {} {
      var x :| x in xs;
      SumRemove(xs, f, x);
      SumNonNegative(xs - {x}, f);
    }
  }

  /** A total of ones counts the set. */
  lemma {:induction false} SumOnes<T>(xs: set<T>, f: T -> int)
    requires forall x :: x in xs ==> f(x) == 1
    ensures Sum(xs, f) == |xs|
    decreases |xs|
  {
    if xs != {} {
      var x :| x in xs;
      SumRemove(xs, f, x);
      SumOnes(xs - {x}, f);
    }
  }

  /** Totals add termwise. */
  lemma {:induction false} SumPlus<T>(xs: set<T>, f: T -> int, g: T -> int, h: T -> int)
    requires forall x :: x in xs ==> h(x) == f(x) + g(x)
    ensures Sum(xs, h) == Sum(xs, f) + Sum(xs, g)
    decreases |xs|
  {
    if xs != {} {
      var x :| x in xs;
      SumRemove(xs, h, x);
      SumRemove(xs, f, x);
      SumRemove(xs, g, x);
      SumPlus(xs - {x}, f, g, h);
    }
  }

  /** Terms that are zero can be left out of a total. */
  lemma {:induction false} SumZeroBeyond<T>(xs: set<T>, ys: set<T>, f: T -> int)
    requires xs <= ys && forall y :: y in ys && y !in xs ==> f(y) == 0
    ensures Sum(ys, f) == Sum(xs, f)
    decreases |ys|
  {
    if ys != xs {
      var y :| y in ys && y !in xs;
      SumRemove(ys, f, y);
      SumZeroBeyond(xs, ys - {y}, f);
    }
  }

  /** A total of indicator terms counts the indicated elements. */
  lemma SumIndicator<T>(xs: set<T>, ks: set<T>, f: T -> int)
    requires ks <= xs && forall x :: x in xs ==> f(x) == (if x in ks then 1 else 0)
    ensures Sum(xs, f) == |ks|
  {
    SumZeroBeyond(ks, xs, f);
    SumOnes(ks, f);
  }

  /** The largest value of f over a non-empty set: Python's `max` of the values. */
  ghost function Max<T>(xs: set<T>, f: T -> int): int
    requires xs != {}
    decreases |xs|
  {
    var x :| x in xs;
    if xs == {x} then f(x) else var m := Max(xs - {x}, f); if f(x) < m then m else f(x)
  }

  /** Max is an upper bound that some element reaches. */
  lemma {:induction false} MaxIsMax<T>(xs: set<T>, f: T -> int)
    requires xs != {}
    ensures forall y :: y in xs ==> f(y) <= Max(xs, f)
    ensures exists y :: y in xs && f(y) == Max(xs, f)
    decreases |xs|
  {
    var x :| x in xs && Max(xs, f) == if xs == {x} then f(x) else var m := Max(xs - {x}, f); if f(x) < m then m else f(x);
    if xs != {x} {
      MaxIsMax(xs - {x}, f);
      forall y | y in xs ensures f(y) <= Max(xs, f) {
        if y != x {
          assert y in xs - {x};
        }
      }
    }
  }

  /** An upper bound that some element reaches is the Max. */
  lemma MaxUnique<T>(xs: set<T>, f: T -> int, m: int)
    requires forall y :: y in xs ==> f(y) <= m
    requires exists y :: y in xs && f(y) == m
    ensures xs != {} && m == Max(xs, f)
  {
    MaxIsMax(xs, f);
  }
}
