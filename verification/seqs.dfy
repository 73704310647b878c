/** Order-preserving filtering of sequences, the model of a Python list
    comprehension `[x for x in xs if keep(x)]`. */
module Seqs {

  /** The elements of `xs` that satisfy `keep`, in their original order. */
  function Filter<T(!new)>(xs: seq<T>, keep: T -> bool): (r: seq<T>)
    ensures |r| <= |xs|
    ensures forall x :: x in r <==> x in xs && keep(x)
    decreases |xs|
  {
    if |xs| == 0 then []
    else
      assert forall x :: x in xs <==> x == xs[0] || x in xs[1..];
      (if keep(xs[0]) then [xs[0]] else []) + Filter(xs[1..], keep)
  }

  /** Every kept element occurs in the result exactly as often as in `xs`;
      nothing else occurs. */
  lemma {:induction false} FilterCounts<T(!new)>(xs: seq<T>, keep: T -> bool)
    ensures forall x :: multiset(Filter(xs, keep))[x] == if keep(x) then multiset(xs)[x] else 0
    decreases |xs|
  {
    if |xs| > 0 {
      FilterCounts(xs[1..], keep);
      assert xs == [xs[0]] + xs[1..];
    }
  }

  /** Filtering distributes over concatenation: the filter works element by
      element and never reorders. */
  lemma {:induction false} FilterAppend<T(!new)>(a: seq<T>, b: seq<T>, keep: T -> bool)
    ensures Filter(a + b, keep) == Filter(a, keep) + Filter(b, keep)
    decreases |a|
  {
    if |a| == 0 {
      assert a + b == b;
    } else {
      assert (a + b)[0] == a[0];
      assert (a + b)[1..] == a[1..] + b;
      FilterAppend(a[1..], b, keep);
    }
  }

  /** A filter that keeps everything is the identity. */
  lemma {:induction false} FilterKeepsAll<T(!new)>(xs: seq<T>, keep: T -> bool)
    requires forall i :: 0 <= i < |xs| ==> keep(xs[i])
    ensures Filter(xs, keep) == xs
    decreases |xs|
  {
    if |xs| > 0 {
      FilterKeepsAll(xs[1..], keep);
      assert [xs[0]] + xs[1..] == xs;
    }
  }

  /** Two kept elements appear in the result in the order they had in `xs`. */
  lemma FilterKeepsOrder<T(!new)>(xs: seq<T>, keep: T -> bool, i: int, j: int)
    requires 0 <= i < j < |xs|
    requires keep(xs[i]) && keep(xs[j])
    ensures exists p, q :: 0 <= p < q < |Filter(xs, keep)|
                           && Filter(xs, keep)[p] == xs[i] && Filter(xs, keep)[q] == xs[j]
  {
    var front, back := xs[..j], xs[j..];
    assert xs == front + back;
    FilterAppend(front, back, keep);
    var f, g := Filter(front, keep), Filter(back, keep);
    assert xs[i] == front[i] && front[i] in front;
    assert xs[i] in f;
    var p :| 0 <= p < |f| && f[p] == xs[i];
    assert back[0] == xs[j];
    assert g == [xs[j]] + Filter(back[1..], keep);
    assert Filter(xs, keep)[p] == xs[i];
    assert Filter(xs, keep)[|f|] == xs[j];
  }
}
