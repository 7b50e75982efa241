/** Stands for the library sort, with the order given as a relation. */
module Sorting {

  type Order<!T> = (T, T) -> bool

  /** A strict weak order on the positions below `bound`. */
  ghost predicate Strict(less: Order<nat>, bound: nat) {
    && (forall i: nat, j: nat :: i < bound && j < bound && less(i, j) ==> !less(j, i))
    && (forall i: nat, j: nat, k: nat :: i < bound && j < bound && k < bound && !less(j, i) && !less(k, j) ==>
          !less(k, i))
  }

  predicate Below(xs: seq<nat>, bound: nat) {
    forall i :: 0 <= i < |xs| ==> xs[i] < bound
  }

  ghost predicate Sorted<T>(xs: seq<T>, less: Order<T>) {
    forall i, j :: 0 <= i < j < |xs| ==> !less(xs[j], xs[i])
  }

  method Insert(sorted: seq<nat>, x: nat, less: Order<nat>, ghost bound: nat) returns (r: seq<nat>)
    requires Strict(less, bound) && Below(sorted, bound) && x < bound && Sorted(sorted, less)
    ensures Below(r, bound) && Sorted(r, less) && multiset(r) == multiset(sorted) + multiset{x}
  {
    var n := |sorted|;
    while n > 0 && less(x, sorted[n - 1])
      invariant 0 <= n <= |sorted|
      invariant forall i :: n <= i < |sorted| ==> less(x, sorted[i])
    {
      n := n - 1;
    }
    ghost var before, after := sorted[..n], sorted[n..];
    assert sorted == before + after;
    SortedInsertion(before, x, after, less, bound);
    Inserted(before, x, after, bound);
    r := sorted[..n] + [x] + sorted[n..];
  }

  lemma Inserted(before: seq<nat>, x: nat, after: seq<nat>, bound: nat)
    requires Below(before + after, bound) && x < bound
    ensures Below(before + [x] + after, bound)
    ensures multiset(before + [x] + after) == multiset(before + after) + multiset{x}
  {
    assert forall i :: 0 <= i < |before| ==> before[i] == (before + after)[i];
    assert forall i :: 0 <= i < |after| ==> after[i] == (before + after)[|before| + i];
  }

  lemma SortedInsertion(before: seq<nat>, x: nat, after: seq<nat>, less: Order<nat>, bound: nat)
    requires Strict(less, bound) && Below(before + after, bound) && x < bound && Sorted(before + after, less)
    requires before != [] ==> !less(x, before[|before| - 1])
    requires forall i :: 0 <= i < |after| ==> less(x, after[i])
    ensures Sorted(before + [x] + after, less)
  {
    var all, shorter, n := before + [x] + after, before + after, |before|;
    assert forall k :: 0 <= k < |all| && k != n ==> all[k] == shorter[if k < n then k else k - 1];
    forall i, j | 0 <= i < j < |all|
      ensures !less(all[j], all[i])
    {
      if j == n {
        assert i < n - 1 ==> !less(shorter[n - 1], shorter[i]);
      } else if i == n {
        assert less(x, after[j - n - 1]);
      } else {
        assert all[i] == shorter[if i < n then i else i - 1] && all[j] == shorter[if j < n then j else j - 1];
      }
    }
  }

  method Sort(xs: seq<nat>, less: Order<nat>, ghost bound: nat) returns (sorted: seq<nat>)
    requires Strict(less, bound) && Below(xs, bound)
    ensures Below(sorted, bound) && Sorted(sorted, less) && multiset(sorted) == multiset(xs)
  {
    sorted := [];
    for i := 0 to |xs|
      invariant Below(sorted, bound) && Sorted(sorted, less) && multiset(sorted) == multiset(xs[..i])
    {
      sorted := Insert(sorted, xs[i], less, bound);
      assert xs[..i + 1] == xs[..i] + [xs[i]];
    }
    assert xs[..|xs|] == xs;
  }

  /** When every two elements are ordered, there is one sorted permutation. */
  lemma {:induction false} SortedPermutationsAgree<T(!new)>(xs: seq<T>, ys: seq<T>, less: Order<T>)
    requires Sorted(xs, less) && Sorted(ys, less) && multiset(xs) == multiset(ys)
    requires forall i, j :: i in multiset(xs) && j in multiset(xs) && i != j ==> less(i, j) || less(j, i)
    ensures xs == ys
  {
    if xs == [] {
      assert |multiset(ys)| == |multiset(xs)|;
    } else {
      HeadsAgree(xs, ys, less);
      WithoutHead(xs);
      WithoutHead(ys);
      SortedPermutationsAgree(xs[1..], ys[1..], less);
    }
  }

  function Removed<T>(xs: seq<T>, k: nat): (rest: seq<T>)
    requires k < |xs|
    ensures |rest| == |xs| - 1
  {
    xs[..k] + xs[k + 1..]
  }

  lemma Without<T>(xs: seq<T>, k: nat)
    requires k < |xs|
    ensures multiset(xs) == multiset(Removed(xs, k)) + multiset{xs[k]}
  {
    assert xs == xs[..k] + [xs[k]] + xs[k + 1..];
  }

  lemma WithoutHead<T>(xs: seq<T>)
    requires xs != []
    ensures multiset(xs[1..]) == multiset(xs) - multiset{xs[0]}
    ensures xs == [xs[0]] + xs[1..]
  {
    assert xs == [xs[0]] + xs[1..];
  }

  lemma HeadsAgree<T(!new)>(xs: seq<T>, ys: seq<T>, less: Order<T>)
    requires Sorted(xs, less) && Sorted(ys, less) && multiset(xs) == multiset(ys) && xs != []
    requires forall i, j :: i in multiset(xs) && j in multiset(xs) && i != j ==> less(i, j) || less(j, i)
    ensures ys != [] && xs[0] == ys[0]
  {
    assert xs[0] in multiset(ys);
    assert ys[0] in multiset(xs);
    var i :| 0 <= i < |xs| && xs[i] == ys[0];
    var j :| 0 <= j < |ys| && ys[j] == xs[0];
    if i > 0 && j > 0 {
      assert !less(xs[i], xs[0]) && !less(ys[j], ys[0]);
    }
  }
}
