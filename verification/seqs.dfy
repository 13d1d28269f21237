/** Order-preserving selection from a sequence, the shape of every
    `filter(...)` query and of every cascading delete in the model. */
module Seqs {

  /** The elements of `xs` satisfying `keep`, in their original order. */
  function Filter<T(!new)>(xs: seq<T>, keep: T -> bool): (r: seq<T>)
    ensures |r| <= |xs|
    ensures forall x :: x in r <==> x in xs && keep(x)
  {
    if |xs| == 0 then []
    else if keep(xs[0]) then [xs[0]] + Filter(xs[1..], keep)
    else Filter(xs[1..], keep)
  }

  /** Filtering distributes over concatenation. */
  lemma {:induction false} FilterAppend<T(!new)>(xs: seq<T>, ys: seq<T>, keep: T -> bool)
    ensures Filter(xs + ys, keep) == Filter(xs, keep) + Filter(ys, keep)
    decreases |xs|
  {
    if |xs| == 0 {
      assert xs + ys == ys;
    } else {
      assert (xs + ys)[0] == xs[0];
      assert (xs + ys)[1..] == xs[1..] + ys;
      FilterAppend(xs[1..], ys, keep);
    }
  }

  /** Nothing is dropped when every element is kept. */
  lemma {:induction false} FilterKeepsAll<T(!new)>(xs: seq<T>, keep: T -> bool)
    requires forall x :: x in xs ==> keep(x)
    ensures Filter(xs, keep) == xs
    decreases |xs|
  {
    if |xs| > 0 {
      assert xs[0] in xs;
      assert forall x :: x in xs[1..] ==> x in xs;
      FilterKeepsAll(xs[1..], keep);
      assert xs == [xs[0]] + xs[1..];
    }
  }

  /** Filtering preserves the relative order of the kept elements: whatever
      strict order `before` the input lists its elements in, the result
      lists them in that order too. */
  lemma {:induction false} FilterKeepsOrder<T(!new)>(xs: seq<T>, keep: T -> bool, before: (T, T) -> bool)
    requires forall i, j :: 0 <= i < j < |xs| ==> before(xs[i], xs[j])
    ensures forall i, j :: 0 <= i < j < |Filter(xs, keep)| ==> before(Filter(xs, keep)[i], Filter(xs, keep)[j])
    decreases |xs|
  {
    if |xs| > 0 {
      var tail := xs[1..];
      assert forall i, j :: 0 <= i < j < |tail| ==> before(tail[i], tail[j]) by {
        forall i, j | 0 <= i < j < |tail|
          ensures before(tail[i], tail[j])
        {
          assert tail[i] == xs[i + 1] && tail[j] == xs[j + 1];
        }
      }
      FilterKeepsOrder(tail, keep, before);
      if keep(xs[0]) {
        var r := Filter(xs, keep);
        var t := Filter(tail, keep);
        assert r == [xs[0]] + t;
        forall i, j | 0 <= i < j < |r|
          ensures before(r[i], r[j])
        {
          if i == 0 {
            assert r[j] == t[j - 1];
            assert t[j - 1] in tail;
            var k :| 0 <= k < |tail| && tail[k] == t[j - 1];
            assert tail[k] == xs[k + 1];
          } else {
            assert r[i] == t[i - 1] && r[j] == t[j - 1];
          }
        }
      }
    }
  }

  /** Number of elements of `xs` satisfying `keep`. */
  function Count<T(!new)>(xs: seq<T>, keep: T -> bool): (n: nat)
    ensures n <= |xs|
  {
    |Filter(xs, keep)|
  }

  /** Count of a concatenation. */
  lemma CountAppend<T(!new)>(xs: seq<T>, ys: seq<T>, keep: T -> bool)
    ensures Count(xs + ys, keep) == Count(xs, keep) + Count(ys, keep)
  {
    FilterAppend(xs, ys, keep);
  }

  /** Every element is counted by exactly one of a test and its negation. */
  lemma {:induction false} CountSplit<T(!new)>(xs: seq<T>, keep: T -> bool, drop: T -> bool)
    requires forall x :: drop(x) == !keep(x)
    ensures Count(xs, keep) + Count(xs, drop) == |xs|
    decreases |xs|
  {
    if |xs| > 0 {
      CountSplit(xs[1..], keep, drop);
    }
  }
}
