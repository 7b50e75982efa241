/**
Flat row lists made of consecutive runs, where a tag tells one run from the next. Both
foreign-key sources deliver their constraints this way.
*/
module Grouping {

  function Concat<R>(groups: seq<seq<R>>): seq<R> {
    if groups == [] then [] else groups[0] + Concat(groups[1..])
  }

  lemma {:induction false} ConcatAppend<R>(left: seq<seq<R>>, right: seq<seq<R>>)
    ensures Concat(left + right) == Concat(left) + Concat(right)
  {
    if left == [] {
      assert left + right == right;
    } else {
      assert (left + right)[1..] == left[1..] + right;
      ConcatAppend(left[1..], right);
    }
  }

  lemma ConcatOne<R>(groups: seq<seq<R>>, last: seq<R>)
    ensures Concat(groups + [last]) == Concat(groups) + last
  {
    ConcatAppend(groups, [last]);
    assert Concat([last]) == last + Concat([]);
  }

  /** Nonempty groups of one tag each, with different tags side by side. */
  predicate Runs<R, G(==)>(groups: seq<seq<R>>, tag: R -> G) {
    && (forall i :: 0 <= i < |groups| ==> groups[i] != [])
    && (forall i, j :: 0 <= i < |groups| && 0 <= j < |groups[i]| ==> tag(groups[i][j]) == tag(groups[i][0]))
    && (forall i :: 0 < i < |groups| ==> tag(groups[i - 1][0]) != tag(groups[i][0]))
  }

  lemma RunsTail<R, G>(groups: seq<seq<R>>, tag: R -> G)
    requires Runs(groups, tag) && groups != []
    ensures Runs(groups[1..], tag)
  {
    forall i | 0 < i < |groups[1..]|
      ensures tag(groups[1..][i - 1][0]) != tag(groups[1..][i][0])
    {
      assert tag(groups[i][0]) != tag(groups[i + 1][0]);
    }
  }

  /** The first run ends where the tag first changes. */
  lemma FirstRunEnds<R, G>(groups: seq<seq<R>>, tag: R -> G)
    requires Runs(groups, tag) && groups != []
    ensures var rows := Concat(groups); var n := |groups[0]|;
            && 0 < n <= |rows| && rows[..n] == groups[0] && rows[n..] == Concat(groups[1..])
            && (forall j :: 0 <= j < n ==> tag(rows[j]) == tag(rows[0]))
            && (n < |rows| ==> tag(rows[n]) != tag(rows[0]))
  {
    var rows, n := Concat(groups), |groups[0]|;
    assert rows == groups[0] + Concat(groups[1..]);
    forall j | 0 <= j < n
      ensures tag(rows[j]) == tag(rows[0])
    {
      assert rows[j] == groups[0][j] && rows[0] == groups[0][0];
    }
    if n < |rows| {
      var rest := groups[1..];
      assert rest != [];
      assert Concat(rest) == rest[0] + Concat(rest[1..]);
      assert rows[n] == Concat(rest)[0] == rest[0][0] == groups[1][0];
    }
  }

  /** There is only one way to cut a row list into runs. */
  lemma {:induction false} RunsAreUnique<R, G>(xs: seq<seq<R>>, ys: seq<seq<R>>, tag: R -> G)
    requires Runs(xs, tag) && Runs(ys, tag) && Concat(xs) == Concat(ys)
    ensures xs == ys
    decreases |xs|
  {
    if xs == [] {
      if ys != [] {
        FirstRunEnds(ys, tag);
      }
    } else {
      FirstRunEnds(xs, tag);
      assert ys != [];
      FirstRunEnds(ys, tag);
      var rows, n, m := Concat(xs), |xs[0]|, |ys[0]|;
      assert n == m;
      RunsTail(xs, tag);
      RunsTail(ys, tag);
      RunsAreUnique(xs[1..], ys[1..], tag);
      assert xs == [xs[0]] + xs[1..] && ys == [ys[0]] + ys[1..];
    }
  }
}
