/** Row selection: the model of a `WHERE` clause that keeps the order of the table. */
module Sequences {
  import opened Wrappers

  function Filter<T(!new)>(xs: seq<T>, keep: T -> bool): (r: seq<T>)
    ensures forall x :: x in r <==> x in xs && keep(x)
    ensures |r| <= |xs|
  {
    if xs == [] then []
    else if keep(xs[0]) then [xs[0]] + Filter(xs[1..], keep)
    else Filter(xs[1..], keep)
  }

  lemma {:induction false} FilterConcat<T(!new)>(xs: seq<T>, ys: seq<T>, keep: T -> bool)
    ensures Filter(xs + ys, keep) == Filter(xs, keep) + Filter(ys, keep)
  {
    if xs == [] {
      assert xs + ys == ys;
    } else {
      assert (xs + ys)[1..] == xs[1..] + ys;
      FilterConcat(xs[1..], ys, keep);
    }
  }

  lemma FilterSnoc<T(!new)>(xs: seq<T>, x: T, keep: T -> bool)
    ensures Filter(xs + [x], keep) == if keep(x) then Filter(xs, keep) + [x] else Filter(xs, keep)
  {
    FilterConcat(xs, [x], keep);
    assert [x][1..] == [];
  }

  /** Two selections in a row are one selection by the conjunction. */
  lemma {:induction false} FilterFilter<T(!new)>(xs: seq<T>, p: T -> bool, q: T -> bool, both: T -> bool)
    requires forall x :: x in xs ==> (both(x) <==> p(x) && q(x))
    ensures Filter(Filter(xs, p), q) == Filter(xs, both)
  {
    if xs != [] {
      assert xs[0] in xs;
      assert forall x :: x in xs[1..] ==> x in xs;
      FilterFilter(xs[1..], p, q, both);
      if p(xs[0]) {
        assert Filter(xs, p)[1..] == Filter(xs[1..], p);
      }
    }
  }

  lemma {:induction false} FilterAll<T(!new)>(xs: seq<T>, keep: T -> bool)
    requires forall x :: x in xs ==> keep(x)
    ensures Filter(xs, keep) == xs
  {
    if xs != [] {
      assert xs[0] in xs;
      assert forall x :: x in xs[1..] ==> x in xs;
      FilterAll(xs[1..], keep);
    }
  }

  lemma {:induction false} FilterNone<T(!new)>(xs: seq<T>, keep: T -> bool)
    requires forall x :: x in xs ==> !keep(x)
    ensures Filter(xs, keep) == []
  {
    if xs != [] {
      assert xs[0] in xs;
      assert forall x :: x in xs[1..] ==> x in xs;
      FilterNone(xs[1..], keep);
    }
  }

  /** The first element with a property. */
  function First<T(!new)>(xs: seq<T>, p: T -> bool): (r: Option<T>)
    ensures r.Some? <==> exists x :: x in xs && p(x)
    ensures r.Some? ==> r.value in xs && p(r.value)
  {
    if xs == [] then None else if p(xs[0]) then Some(xs[0]) else First(xs[1..], p)
  }

  lemma {:induction false} FirstOfFilter<T(!new)>(xs: seq<T>, p: T -> bool)
    ensures First(xs, p) == if Filter(xs, p) == [] then None else Some(Filter(xs, p)[0])
  {
    if xs != [] {
      FirstOfFilter(xs[1..], p);
    }
  }
}
