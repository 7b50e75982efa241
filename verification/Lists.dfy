/** Sequences: repeats, first and last occurrences, joined texts. */
module Lists {

  predicate Unrepeated<T(==)>(xs: seq<T>) {
    forall i, j :: 0 <= i < j < |xs| ==> xs[i] != xs[j]
  }

  lemma UnrepeatedAppend<T>(xs: seq<T>, ys: seq<T>)
    requires Unrepeated(xs) && Unrepeated(ys) && forall x :: x in xs ==> x !in ys
    ensures Unrepeated(xs + ys)
  {
    forall i, j | 0 <= i < j < |xs + ys|
      ensures (xs + ys)[i] != (xs + ys)[j]
    {
      if i < |xs| <= j {
        assert xs[i] in xs && ys[j - |xs|] in ys;
      }
    }
  }

  /** A list without repeats counts every element once. */
  lemma {:induction false} OnceEach<T>(xs: seq<T>, x: T)
    requires Unrepeated(xs)
    ensures multiset(xs)[x] == if x in xs then 1 else 0
  {
    if xs == [] {
      assert multiset(xs)[x] == 0;
    } else {
      assert xs == [xs[0]] + xs[1..];
      OnceEach(xs[1..], x);
    }
  }

  lemma PermutedUnrepeated<T(!new)>(xs: seq<T>, ys: seq<T>)
    requires Unrepeated(xs) && multiset(xs) == multiset(ys)
    ensures Unrepeated(ys)
  {
    forall i, j | 0 <= i < j < |ys|
      ensures ys[i] != ys[j]
    {
      OnceEach(xs, ys[i]);
      assert ys == ys[..j] + [ys[j]] + ys[j + 1..];
      assert ys[..j][i] == ys[i];
      assert multiset(ys[..j])[ys[i]] >= 1;
    }
  }

  lemma SameMembers<T(!new)>(xs: seq<T>, ys: seq<T>)
    requires Unrepeated(xs) && Unrepeated(ys) && forall x :: x in xs <==> x in ys
    ensures multiset(xs) == multiset(ys)
  {
    forall x
      ensures multiset(xs)[x] == multiset(ys)[x]
    {
      OnceEach(xs, x);
      OnceEach(ys, x);
    }
  }

  /** Position of the first occurrence. */
  function First<T(==)>(xs: seq<T>, x: T): (i: nat)
    requires x in xs
    ensures i < |xs| && xs[i] == x && forall j :: 0 <= j < i ==> xs[j] != x
  {
    if xs[0] == x then 0 else First(xs[1..], x) + 1
  }

  lemma FirstAppend<T>(before: seq<T>, last: T, x: T)
    requires x in before + [last]
    ensures First(before + [last], x) == if x in before then First(before, x) else |before|
  {
    var all := before + [last];
    var i := if x in before then First(before, x) else |before|;
    assert all[i] == x && forall j :: 0 <= j < i ==> all[j] == before[j] != x;
  }

  /** Position of the last occurrence. */
  function Last<T(==)>(xs: seq<T>, x: T): (i: nat)
    requires x in xs
    ensures i < |xs| && xs[i] == x && forall j :: i < j < |xs| ==> xs[j] != x
  {
    if xs[|xs| - 1] == x then |xs| - 1 else Last(xs[..|xs| - 1], x)
  }

  lemma LastNext<T(!new)>(xs: seq<T>, last: T)
    ensures forall x :: x in xs + [last] ==> Last(xs + [last], x) == if x == last then |xs| else Last(xs, x)
  {
    assert (xs + [last])[..|xs|] == xs;
  }

  function Join(parts: seq<string>, separator: string): string {
    if parts == [] then ""
    else if |parts| == 1 then parts[0]
    else parts[0] + separator + Join(parts[1..], separator)
  }
}
