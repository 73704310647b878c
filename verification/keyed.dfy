/** Sequences of records identified by an integer key: duplicate detection,
    first-match lookup and removal by key. */
module Keyed {
  import opened Wrappers
  import Seqs

  /** Some element of `xs` carries the key `id` (Python's
      `any(x.id == id for x in xs)`). */
  predicate HasKey<T(!new)>(xs: seq<T>, key: T -> int, id: int)
  {
    exists i :: 0 <= i < |xs| && key(xs[i]) == id
  }

  /** Appending one element adds its key to the keys present, and nothing
      else: the duplicate test the add handlers run before appending. */
  lemma HasKeyAppend<T(!new)>(xs: seq<T>, key: T -> int, x: T, id: int)
    ensures HasKey(xs + [x], key, id) <==> HasKey(xs, key, id) || key(x) == id
  {
    var ys := xs + [x];
    assert ys[|xs|] == x;
    if HasKey(ys, key, id) && key(x) != id {
      var i :| 0 <= i < |ys| && key(ys[i]) == id;
      assert ys[i] == xs[i];
    }
    if HasKey(xs, key, id) {
      var i :| 0 <= i < |xs| && key(xs[i]) == id;
      assert ys[i] == xs[i];
    }
  }

  /** Position `i` holds the first element of `xs` whose key is `id`. */
  ghost predicate IsFirstMatch<T>(xs: seq<T>, key: T -> int, id: int, i: int)
  {
    && 0 <= i < |xs|
    && key(xs[i]) == id
    && forall k :: 0 <= k < i ==> key(xs[k]) != id
  }

  /** No two elements of `xs` share a key. */
  ghost predicate UniqueKeys<T(!new)>(xs: seq<T>, key: T -> int)
  {
    forall i, j :: 0 <= i < j < |xs| ==> key(xs[i]) != key(xs[j])
  }

  /** The position of the first element whose key is `id`: the element that
      Python's `next((x for x in xs if x.id == id), None)` yields. */
  function FirstIndex<T(!new)>(xs: seq<T>, key: T -> int, id: int): (r: Option<nat>)
    ensures r.Some? ==> r.value < |xs| && key(xs[r.value]) == id
    ensures r.Some? ==> forall j :: 0 <= j < r.value ==> key(xs[j]) != id
    ensures r.None? <==> !HasKey(xs, key, id)
    decreases |xs|
  {
    if |xs| == 0 then None
    else if key(xs[0]) == id then Some(0)
    else
      match FirstIndex(xs[1..], key, id)
      case None =>
        assert forall i :: 1 <= i < |xs| ==> xs[i] == xs[1..][i - 1];
        None
      case Some(k) =>
        assert forall j :: 1 <= j < k + 1 ==> xs[j] == xs[1..][j - 1];
        Some(k + 1)
  }

  /** The first element whose key is `id`, or `None` when there is none. */
  function Find<T(!new)>(xs: seq<T>, key: T -> int, id: int): (r: Option<T>)
    // a corollary of the first-match clause after it
    ensures r.Some? ==> r.value in xs && key(r.value) == id
    ensures r.Some? ==> exists i :: IsFirstMatch(xs, key, id, i) && xs[i] == r.value
    ensures r.None? <==> !HasKey(xs, key, id)
  {
    match FirstIndex(xs, key, id)
    case None => None
    case Some(i) => Some(xs[i])
  }

  /** When keys are unique, the first match is the only match: the element
      at `i` is what a lookup of its key finds. */
  lemma FirstIndexIsOnlyMatch<T(!new)>(xs: seq<T>, key: T -> int, i: int)
    requires UniqueKeys(xs, key)
    requires 0 <= i < |xs|
    ensures FirstIndex(xs, key, key(xs[i])) == Some(i)
    ensures Find(xs, key, key(xs[i])) == Some(xs[i])
  {
  }

  /** Under unique keys, a lookup finds `x` exactly when `x` is a member with
      that key. */
  lemma FindIsExact<T(!new)>(xs: seq<T>, key: T -> int, id: int, x: T)
    requires UniqueKeys(xs, key)
    ensures Find(xs, key, id) == Some(x) <==> x in xs && key(x) == id
  {
    if x in xs && key(x) == id {
      var i :| 0 <= i < |xs| && xs[i] == x;
      FirstIndexIsOnlyMatch(xs, key, i);
    }
  }

  /** The filter condition "key differs from `id`". */
  function KeyIsNot<T(!new)>(key: T -> int, id: int): T -> bool
  {
    x => key(x) != id
  }

  /** `xs` without any element whose key is `id` (Python's
      `[x for x in xs if x.id != id]`). */
  function RemoveKey<T(!new)>(xs: seq<T>, key: T -> int, id: int): (r: seq<T>)
    ensures forall x :: x in r <==> x in xs && key(x) != id
    ensures forall x :: multiset(r)[x] == if key(x) != id then multiset(xs)[x] else 0
    ensures !HasKey(r, key, id)
    ensures !HasKey(xs, key, id) ==> r == xs
  {
    var r := Seqs.Filter(xs, KeyIsNot(key, id));
    Seqs.FilterCounts(xs, KeyIsNot(key, id));
    assert forall i :: 0 <= i < |r| ==> r[i] in r;
    if !HasKey(xs, key, id) then
      Seqs.FilterKeepsAll(xs, KeyIsNot(key, id));
      r
    else r
  }

  /** Removing by key keeps every surviving pair of elements in order. */
  lemma RemoveKeyKeepsOrder<T(!new)>(xs: seq<T>, key: T -> int, id: int, i: int, j: int)
    requires 0 <= i < j < |xs|
    requires key(xs[i]) != id && key(xs[j]) != id
    ensures exists p, q :: 0 <= p < q < |RemoveKey(xs, key, id)|
                           && RemoveKey(xs, key, id)[p] == xs[i]
                           && RemoveKey(xs, key, id)[q] == xs[j]
  {
    var keep := KeyIsNot(key, id);
    assert keep(xs[i]) && keep(xs[j]);
    Seqs.FilterKeepsOrder(xs, keep, i, j);
    assert RemoveKey(xs, key, id) == Seqs.Filter(xs, keep);
  }

  /** Filtering never creates a duplicate key. */
  lemma {:induction false} FilterKeepsUniqueKeys<T(!new)>(xs: seq<T>, key: T -> int, keep: T -> bool)
    requires UniqueKeys(xs, key)
    ensures UniqueKeys(Seqs.Filter(xs, keep), key)
    decreases |xs|
  {
    if |xs| > 0 {
      var tail := xs[1..];
      assert UniqueKeys(tail, key) by {
        forall i, j | 0 <= i < j < |tail| ensures key(tail[i]) != key(tail[j]) {
          assert tail[i] == xs[i + 1] && tail[j] == xs[j + 1];
        }
      }
      FilterKeepsUniqueKeys(tail, key, keep);
      var f := Seqs.Filter(tail, keep);
      forall y | y in f ensures key(y) != key(xs[0]) {
        var k :| 0 <= k < |tail| && tail[k] == y;
        assert tail[k] == xs[k + 1];
      }
    }
  }

  /** Removing by key never creates a duplicate key. */
  lemma RemoveKeyKeepsUniqueKeys<T(!new)>(xs: seq<T>, key: T -> int, id: int)
    requires UniqueKeys(xs, key)
    ensures UniqueKeys(RemoveKey(xs, key, id), key)
  {
    FilterKeepsUniqueKeys(xs, key, KeyIsNot(key, id));
  }

  /** Appending an element whose key is not yet present keeps keys unique. */
  lemma AppendFreshKeepsUniqueKeys<T(!new)>(xs: seq<T>, key: T -> int, x: T)
    requires UniqueKeys(xs, key)
    requires !HasKey(xs, key, key(x))
    ensures UniqueKeys(xs + [x], key)
  {
    var ys := xs + [x];
    forall i, j | 0 <= i < j < |ys| ensures key(ys[i]) != key(ys[j]) {
      if j < |xs| {
        assert ys[i] == xs[i] && ys[j] == xs[j];
      } else {
        assert ys[i] == xs[i];
      }
    }
  }

  /** Replacing an element by one with the same key keeps keys unique. */
  lemma UpdateKeepsUniqueKeys<T(!new)>(xs: seq<T>, key: T -> int, i: int, x: T)
    requires UniqueKeys(xs, key)
    requires 0 <= i < |xs| && key(x) == key(xs[i])
    ensures UniqueKeys(xs[i := x], key)
  {
  }
}
