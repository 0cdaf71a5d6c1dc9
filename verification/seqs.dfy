/** The array helpers of the JavaScript runtime the program relies on:
    `findIndex`, `indexOf` and `filter`. */
module Seqs {
  import opened Wrappers

  /** `Array.prototype.findIndex`: the first position whose element satisfies `f`
      (`None` stands for the runtime's -1). */
  function FindIndex<T>(xs: seq<T>, f: T -> bool): (r: Option<nat>)
    ensures r.Some? ==> r.value < |xs| && f(xs[r.value])
    ensures r.Some? ==> forall j :: 0 <= j < r.value ==> !f(xs[j])
    ensures r.None? <==> forall j :: 0 <= j < |xs| ==> !f(xs[j])
    decreases |xs|
  {
    if |xs| == 0 then None
    else if f(xs[0]) then Some(0)
    else
      match FindIndex(xs[1..], f)
      case None => None
      case Some(i) => Some(i + 1)
  }

  /** `Array.prototype.indexOf`: the first position holding `x`, or -1. */
  function IndexOf<T(==)>(xs: seq<T>, x: T): (r: int)
    ensures -1 <= r < |xs|
    ensures r == -1 <==> x !in xs
    ensures 0 <= r ==> xs[r] == x && forall j :: 0 <= j < r ==> xs[j] != x
  {
    match FindIndex(xs, y => y == x)
    case None => -1
    case Some(i) => i
  }

  /** `Array.prototype.filter`: the elements satisfying `f`, in their original order. */
  function Filter<T>(xs: seq<T>, f: T -> bool): (r: seq<T>)
    ensures |r| <= |xs|
    ensures forall j :: 0 <= j < |r| ==> r[j] in xs && f(r[j])
    ensures forall j :: 0 <= j < |xs| && f(xs[j]) ==> xs[j] in r
    decreases |xs|
  {
    if |xs| == 0 then []
    else (if f(xs[0]) then [xs[0]] else []) + Filter(xs[1..], f)
  }

  /** Filtering distributes over concatenation, which is what "in their original order" means. */
  lemma {:induction false} FilterConcat<T>(a: seq<T>, b: seq<T>, f: T -> bool)
    ensures Filter(a + b, f) == Filter(a, f) + Filter(b, f)
    decreases |a|
  {
    if |a| == 0 {
      assert a + b == b;
    } else {
      assert (a + b)[1..] == a[1..] + b;
      FilterConcat(a[1..], b, f);
    }
  }

  /** Filtering keeps every passing value as often as it occurs and drops every other. */
  lemma {:induction false} FilterMultiset<T>(xs: seq<T>, f: T -> bool)
    ensures forall x :: multiset(Filter(xs, f))[x] == if f(x) then multiset(xs)[x] else 0
    decreases |xs|
  {
    if |xs| > 0 {
      FilterMultiset(xs[1..], f);
      var head := if f(xs[0]) then [xs[0]] else [];
      assert Filter(xs, f) == head + Filter(xs[1..], f);
      assert xs == [xs[0]] + xs[1..];
      assert multiset(xs) == multiset{xs[0]} + multiset(xs[1..]);
      assert multiset(Filter(xs, f)) == multiset(head) + multiset(Filter(xs[1..], f));
    }
  }

  /** Rearranging the input rearranges the output: filtering two permutations of
      one another gives permutations of one another. */
  lemma FilterPermutation<T>(xs: seq<T>, ys: seq<T>, f: T -> bool)
    requires multiset(xs) == multiset(ys)
    ensures multiset(Filter(xs, f)) == multiset(Filter(ys, f))
  {
    FilterMultiset(xs, f);
    FilterMultiset(ys, f);
    assert forall x :: multiset(Filter(xs, f))[x] == multiset(Filter(ys, f))[x];
  }

  /** Nothing is dropped exactly when every element passes. */
  lemma {:induction false} FilterKeepsAll<T>(xs: seq<T>, f: T -> bool)
    ensures |Filter(xs, f)| == |xs| <==> forall j :: 0 <= j < |xs| ==> f(xs[j])
    decreases |xs|
  {
    if |xs| > 0 {
      FilterKeepsAll(xs[1..], f);
      if forall j :: 0 <= j < |xs| ==> f(xs[j]) {
        assert forall j :: 0 <= j < |xs[1..]| ==> f(xs[1..][j]) by {
          forall j | 0 <= j < |xs[1..]| ensures f(xs[1..][j]) {
            assert xs[1..][j] == xs[j + 1];
          }
        }
      } else {
        var j :| 0 <= j < |xs| && !f(xs[j]);
        if j > 0 {
          assert xs[1..][j - 1] == xs[j];
        }
      }
    }
  }

  /** Splitting by a predicate and by its negation accounts for every element once. */
  lemma {:induction false} FilterPartition<T>(xs: seq<T>, f: T -> bool, g: T -> bool)
    requires forall j :: 0 <= j < |xs| ==> g(xs[j]) == !f(xs[j])
    ensures |Filter(xs, f)| + |Filter(xs, g)| == |xs|
    decreases |xs|
  {
    if |xs| > 0 {
      assert forall j :: 0 <= j < |xs[1..]| ==> xs[1..][j] == xs[j + 1];
      FilterPartition(xs[1..], f, g);
    }
  }

  /** The number of elements passing a test does not depend on their order. */
  lemma {:induction false} FilterLengthPermutation<T>(xs: seq<T>, ys: seq<T>, f: T -> bool)
    requires multiset(xs) == multiset(ys)
    ensures |Filter(xs, f)| == |Filter(ys, f)|
    decreases |xs|
  {
    if |xs| == 0 {
      assert |ys| == |multiset(ys)| == 0;
    } else {
      var x := xs[0];
      assert x in multiset(ys);
      var j :| 0 <= j < |ys| && ys[j] == x;
      var rest := ys[..j] + ys[j + 1..];
      RemoveAt(ys, j);
      assert xs == [x] + xs[1..];
      assert multiset(xs) == multiset(xs[1..]) + multiset{x};
      MultisetCancel(multiset(xs[1..]), multiset(rest), x);
      FilterLengthPermutation(xs[1..], rest, f);
      FilterRemoveAt(ys, j, f);
    }
  }

  /** Removing position j takes exactly that element out of the multiset. */
  lemma RemoveAt<T>(ys: seq<T>, j: nat)
    requires j < |ys|
    ensures multiset(ys[..j] + ys[j + 1..]) + multiset{ys[j]} == multiset(ys)
  {
    assert ys == ys[..j] + [ys[j]] + ys[j + 1..];
  }

  lemma MultisetCancel<T>(a: multiset<T>, b: multiset<T>, x: T)
    requires a + multiset{x} == b + multiset{x}
    ensures a == b
  {
    assert a == a + multiset{x} - multiset{x};
    assert b == b + multiset{x} - multiset{x};
  }

  /** Removing position j removes one passing element exactly when that element passes. */
  lemma FilterRemoveAt<T>(ys: seq<T>, j: nat, f: T -> bool)
    requires j < |ys|
    ensures |Filter(ys, f)| == |Filter(ys[..j] + ys[j + 1..], f)| + (if f(ys[j]) then 1 else 0)
  {
    assert ys == ys[..j] + [ys[j]] + ys[j + 1..];
    FilterConcat(ys[..j] + [ys[j]], ys[j + 1..], f);
    FilterConcat(ys[..j], [ys[j]], f);
    FilterConcat(ys[..j], ys[j + 1..], f);
    assert [ys[j]][1..] == [];
  }

  /** Filtering depends only on the values of the test, not on how it is written. */
  lemma {:induction false} FilterExtensional<T>(xs: seq<T>, f: T -> bool, g: T -> bool)
    requires forall j :: 0 <= j < |xs| ==> f(xs[j]) == g(xs[j])
    ensures Filter(xs, f) == Filter(xs, g)
    decreases |xs|
  {
    if |xs| > 0 {
      assert forall j :: 0 <= j < |xs[1..]| ==> xs[1..][j] == xs[j + 1];
      FilterExtensional(xs[1..], f, g);
    }
  }

  /** `before` holds between every earlier and every later element of `xs`. */
  predicate Ordered<T>(xs: seq<T>, before: (T, T) -> bool) {
    forall i, j :: 0 <= i < j < |xs| ==> before(xs[i], xs[j])
  }

  /** A relation that holds between every earlier and later element still holds
      after filtering: filtering keeps the original order. */
  lemma {:induction false} FilterKeepsOrder<T>(xs: seq<T>, f: T -> bool, before: (T, T) -> bool)
    requires Ordered(xs, before)
    ensures Ordered(Filter(xs, f), before)
    decreases |xs|
  {
    if |xs| > 0 {
      OrderedTail(xs, before);
      FilterKeepsOrder(xs[1..], f, before);
      if f(xs[0]) {
        assert Filter(xs, f) == [xs[0]] + Filter(xs[1..], f);
        OrderedCons(xs[0], xs[1..], Filter(xs[1..], f), before);
      } else {
        assert Filter(xs, f) == Filter(xs[1..], f);
      }
    }
  }

  /** The tail of an ordered sequence is ordered and comes after its head. */
  lemma OrderedTail<T>(xs: seq<T>, before: (T, T) -> bool)
    requires Ordered(xs, before) && 0 < |xs|
    ensures Ordered(xs[1..], before)
    ensures forall t :: 0 <= t < |xs[1..]| ==> before(xs[0], xs[1..][t])
  {
    var tail := xs[1..];
    forall i, j | 0 <= i < j < |tail| ensures before(tail[i], tail[j]) {
      assert tail[i] == xs[i + 1] && tail[j] == xs[j + 1];
    }
    forall t | 0 <= t < |tail| ensures before(xs[0], tail[t]) {
      assert tail[t] == xs[t + 1];
    }
  }

  /** An element that comes before all of `tail` may go in front of any ordered
      selection `rest` from it. */
  lemma OrderedCons<T>(x: T, tail: seq<T>, rest: seq<T>, before: (T, T) -> bool)
    requires forall t :: 0 <= t < |tail| ==> before(x, tail[t])
    requires Ordered(rest, before)
    requires forall k :: 0 <= k < |rest| ==> rest[k] in tail
    ensures Ordered([x] + rest, before)
  {
    var r := [x] + rest;
    forall i, j | 0 <= i < j < |r| ensures before(r[i], r[j]) {
      assert r[j] == rest[j - 1];
      if i == 0 {
        var t :| 0 <= t < |tail| && tail[t] == rest[j - 1];
      } else {
        assert r[i] == rest[i - 1];
      }
    }
  }
}
