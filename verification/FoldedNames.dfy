/**
Matching names across two lists: exact spelling first, then by ASCII-folded key, with
keys that collide on either side left to exact spelling.
*/
module FoldedNames {
  import opened Outcomes
  import opened Lists

  function Lower(c: char): char {
    if 'A' <= c <= 'Z' then (c as int + 32) as char else c
  }

  /** The comparison key of a name; characters outside A-Z stay exact. */
  function FoldKey(name: string): (key: string)
    ensures |key| == |name|
    ensures forall i :: 0 <= i < |key| ==> key[i] == Lower(name[i])
  {
    seq(|name|, i requires 0 <= i < |name| => Lower(name[i]))
  }

  const UPPER := "ABCDEFGHIJKLMNOPQRSTUVWXYZ"
  const LOWER := "abcdefghijklmnopqrstuvwxyz"

  /** The twenty-six letters, and no other character, are lowered. */
  lemma LowersLetters(c: char)
    ensures forall i :: 0 <= i < 26 ==> Lower(UPPER[i]) == LOWER[i]
    ensures c !in UPPER ==> Lower(c) == c
  {
    assert 'A' <= c <= 'Z' ==> UPPER[c as int - 65] == c;
  }

  /** Copies the name only when something must change. */
  method ComputeFoldKey(name: string) returns (key: string)
    ensures key == FoldKey(name)
  {
    for index := 0 to |name|
      invariant forall i :: 0 <= i < index ==> Lower(name[i]) == name[i]
    {
      if 'A' <= name[index] <= 'Z' {
        var folded := new char[|name|](i requires 0 <= i < |name| => name[i]);
        for rest := index to |name|
          invariant forall i :: 0 <= i < rest ==> folded[i] == Lower(name[i])
          invariant forall i :: rest <= i < |name| ==> folded[i] == name[i]
        {
          if 'A' <= folded[rest] <= 'Z' {
            folded[rest] := (folded[rest] as int + 32) as char;
          }
        }
        assert folded[..] == FoldKey(name);
        return folded[..];
      }
    }
    assert name == FoldKey(name);
    return name;
  }

  /** Comparing without building keys decides the same question. */
  method AsciiFoldEqual(left: string, right: string) returns (equal: bool)
    ensures equal <==> FoldKey(left) == FoldKey(right)
  {
    if |left| != |right| {
      assert |FoldKey(left)| != |FoldKey(right)|;
      return false;
    }
    for index := 0 to |left|
      invariant forall i :: 0 <= i < index ==> Lower(left[i]) == Lower(right[i])
    {
      var l, r := left[index], right[index];
      if l == r {
        continue;
      }
      if 'A' <= l <= 'Z' {
        l := (l as int + 32) as char;
      }
      if 'A' <= r <= 'Z' {
        r := (r as int + 32) as char;
      }
      if l != r {
        assert FoldKey(left)[index] != FoldKey(right)[index];
        return false;
      }
    }
    assert FoldKey(left) == FoldKey(right);
    return true;
  }

  // ---------------------------------------------------------------------------
  // Collisions.

  function Keys(names: seq<string>): (keys: seq<string>)
    ensures |keys| == |names|
    ensures forall i :: 0 <= i < |keys| ==> keys[i] == FoldKey(names[i])
  {
    seq(|names|, i requires 0 <= i < |names| => FoldKey(names[i]))
  }

  /** Some two positions of the list share the key. */
  predicate Collides(names: seq<string>, key: string) {
    exists i, j :: 0 <= i < j < |names| && FoldKey(names[i]) == key && FoldKey(names[j]) == key
  }

  method FoldCollisions(names: seq<string>, into: set<string>) returns (collided: set<string>)
    ensures forall key :: key in collided <==> key in into || Collides(names, key)
  {
    collided := into;
    var seen: set<string> := {};
    for position := 0 to |names|
      invariant forall key :: key in seen <==> exists i :: 0 <= i < position && FoldKey(names[i]) == key
      invariant forall key :: key in collided <==> key in into || Collides(names[..position], key)
    {
      var key := ComputeFoldKey(names[position]);
      forall k
        ensures Collides(names[..position + 1], k) <==> Collides(names[..position], k) || (k == key && key in seen)
      {
        CollidesNext(names, position, k);
      }
      if key in seen {
        collided := collided + {key};
      }
      seen := seen + {key};
    }
    assert names[..|names|] == names;
  }

  lemma CollidesNext(names: seq<string>, n: nat, key: string)
    requires n < |names|
    ensures Collides(names[..n + 1], key) <==>
            || Collides(names[..n], key)
            || (FoldKey(names[n]) == key && exists i :: 0 <= i < n && FoldKey(names[i]) == key)
  {
    var more, less := names[..n + 1], names[..n];
    assert forall i :: 0 <= i < n ==> more[i] == less[i] == names[i];
    assert more[n] == names[n];
    if Collides(less, key) {
      var i, j :| 0 <= i < j < |less| && FoldKey(less[i]) == key && FoldKey(less[j]) == key;
      assert FoldKey(more[i]) == key && FoldKey(more[j]) == key;
    }
    if FoldKey(names[n]) == key && exists i :: 0 <= i < n && FoldKey(names[i]) == key {
      var i :| 0 <= i < n && FoldKey(names[i]) == key;
      assert FoldKey(more[i]) == key && FoldKey(more[n]) == key;
    }
    if Collides(more, key) {
      var i, j :| 0 <= i < j < |more| && FoldKey(more[i]) == key && FoldKey(more[j]) == key;
      if j < n {
        assert FoldKey(less[i]) == key && FoldKey(less[j]) == key;
      }
    }
  }

  // ---------------------------------------------------------------------------
  // The index.

  datatype FoldedIndex = FoldedIndex(exact: map<string, nat>, folded: map<string, nat>, excluded: set<string>)
  {
    function Lookup(name: string): Option<nat> {
      if name in exact then Some(exact[name])
      else
        var key := FoldKey(name);
        if key in excluded then None
        else if key in folded then Some(folded[key])
        else None
    }

    /** The maps hold the last position of every name and of every key that is not excluded. */
    ghost predicate Describes(names: seq<string>) {
      && (forall name :: name in exact <==> name in names)
      && (forall name :: name in exact ==> exact[name] == Last(names, name))
      && (forall key :: key in folded <==> key in Keys(names) && key !in excluded)
      && (forall key :: key in folded ==> folded[key] == Last(Keys(names), key))
    }
  }

  method NewFoldedIndex(names: seq<string>, excluded: set<string>) returns (index: FoldedIndex)
    ensures index.Describes(names) && index.excluded == excluded
  {
    index := FoldedIndex(map[], map[], excluded);
    for position := 0 to |names|
      invariant index.Describes(names[..position]) && index.excluded == excluded
    {
      var name := names[position];
      var key := ComputeFoldKey(name);
      assert names[..position + 1] == names[..position] + [name];
      assert Keys(names[..position + 1]) == Keys(names[..position]) + [key];
      LastNext(names[..position], name);
      LastNext(Keys(names[..position]), key);
      index := index.(exact := index.exact[name := position]);
      if key !in excluded {
        index := index.(folded := index.folded[key := position]);
      }
    }
    assert names[..|names|] == names;
  }

  /** The index built for matching `a` against `b`. */
  method IndexFor(a: seq<string>, b: seq<string>) returns (index: FoldedIndex)
    ensures index.Describes(b)
    ensures forall key :: key in index.excluded <==> Collides(a, key) || Collides(b, key)
  {
    var excluded := FoldCollisions(a, {});
    excluded := FoldCollisions(b, excluded);
    index := NewFoldedIndex(b, excluded);
  }

  /** Where a name of `a` is found in `b`, stated on the lists. */
  function Find(a: seq<string>, b: seq<string>, name: string): Option<nat> {
    var key := FoldKey(name);
    if name in b then Some(Last(b, name))
    else if Collides(a, key) || Collides(b, key) || key !in Keys(b) then None
    else Some(Last(Keys(b), key))
  }

  /** Where every name of `a` is found. */
  function Founds(a: seq<string>, b: seq<string>): (founds: seq<Option<nat>>)
    ensures |founds| == |a|
    ensures forall i :: 0 <= i < |a| ==> founds[i] == Find(a, b, a[i])
    ensures forall i :: 0 <= i < |a| && founds[i].Some? ==> founds[i].value < |b|
  {
    seq(|a|, i requires 0 <= i < |a| => Find(a, b, a[i]))
  }

  /** The positions below `n` outside a set, in order. */
  function Outside(n: nat, taken: set<nat>): (positions: seq<nat>)
    ensures forall j: nat :: j in positions <==> j < n && j !in taken
    ensures forall k :: 0 <= k < |positions| ==> positions[k] < n
  {
    if n == 0 then [] else Outside(n - 1, taken) + if n - 1 in taken then [] else [n - 1]
  }

  /** The positions of `b` that some name of `a` is matched to. */
  function Taken(founds: seq<Option<nat>>): set<nat> {
    set i | 0 <= i < |founds| && founds[i].Some? :: founds[i].value
  }

  lemma TakenNext(founds: seq<Option<nat>>, found: Option<nat>)
    ensures Taken(founds + [found]) == if found.Some? then Taken(founds) + {found.value} else Taken(founds)
  {
    var all := founds + [found];
    assert forall i :: 0 <= i < |founds| ==> all[i] == founds[i];
    assert all[|founds|] == found;
    forall j | j in Taken(founds)
      ensures j in Taken(all)
    {
      var i :| 0 <= i < |founds| && founds[i] == Some(j);
      assert all[i] == Some(j);
    }
    if found.Some? {
      assert all[|founds|] == Some(found.value);
      assert found.value in Taken(all);
    }
  }

  lemma TakenPrefixNext(founds: seq<Option<nat>>, i: nat)
    requires i < |founds|
    ensures Taken(founds[..i + 1]) ==
            if founds[i].Some? then Taken(founds[..i]) + {founds[i].value} else Taken(founds[..i])
  {
    TakenNext(founds[..i], founds[i]);
    assert founds[..i + 1] == founds[..i] + [founds[i]];
  }

  lemma LookupFinds(index: FoldedIndex, a: seq<string>, b: seq<string>, name: string)
    requires index.Describes(b)
    requires forall key :: key in index.excluded <==> Collides(a, key) || Collides(b, key)
    ensures index.Lookup(name) == Find(a, b, name)
  {
  }

  method LookUp(index: FoldedIndex, a: seq<string>, b: seq<string>, i: nat) returns (found: Option<nat>)
    requires i < |a| && index.Describes(b)
    requires forall key :: key in index.excluded <==> Collides(a, key) || Collides(b, key)
    ensures found == Founds(a, b)[i]
  {
    LookupFinds(index, a, b, a[i]);
    found := index.Lookup(a[i]);
  }

  // ---------------------------------------------------------------------------
  // Matching is a symmetric partial bijection.

  /** The two names stand for the same object: same spelling, or same key and no collision to be confused by. */
  predicate Related(a: seq<string>, b: seq<string>, i: nat, j: nat) {
    && i < |a| && j < |b|
    && (|| a[i] == b[j]
        || (FoldKey(a[i]) == FoldKey(b[j]) && !Collides(a, FoldKey(a[i])) && !Collides(b, FoldKey(a[i]))))
  }

  /** The relation by positions: equal names, or equal keys that no other name of either list has. */
  lemma RelatedByPositions(a: seq<string>, b: seq<string>, i: nat, j: nat)
    requires Unrepeated(a) && Unrepeated(b)
    ensures Related(a, b, i, j) <==>
            && i < |a| && j < |b|
            && (|| a[i] == b[j]
                || (&& FoldKey(a[i]) == FoldKey(b[j])
                    && (forall k :: 0 <= k < |a| && k != i ==> FoldKey(a[k]) != FoldKey(a[i]))
                    && (forall k :: 0 <= k < |b| && k != j ==> FoldKey(b[k]) != FoldKey(b[j]))))
  {
  }

  /** Looking a name up finds exactly the position it is related to. */
  lemma FindsExactlyTheRelated(a: seq<string>, b: seq<string>, i: nat, j: nat)
    requires Unrepeated(a) && Unrepeated(b) && i < |a|
    ensures Find(a, b, a[i]) == Some(j) <==> Related(a, b, i, j)
  {
    var key := FoldKey(a[i]);
    if Related(a, b, i, j) {
      assert Keys(b)[j] == key;
      var k := if a[i] in b then Last(b, a[i]) else Last(Keys(b), key);
      assert Keys(b)[k] == key;
      SharedKeyCollides(b, j, k);
    }
  }

  lemma SharedKeyCollides(names: seq<string>, j: nat, k: nat)
    requires j < |names| && k < |names| && FoldKey(names[j]) == FoldKey(names[k])
    ensures j == k || Collides(names, FoldKey(names[j]))
  {
  }

  /** Matching does not depend on which list is looked up in which. */
  lemma MatchingIsSymmetric(a: seq<string>, b: seq<string>, i: nat, j: nat)
    requires Unrepeated(a) && Unrepeated(b) && i < |a| && j < |b|
    ensures Find(a, b, a[i]) == Some(j) <==> Find(b, a, b[j]) == Some(i)
  {
    FindsExactlyTheRelated(a, b, i, j);
    FindsExactlyTheRelated(b, a, j, i);
  }

  /** No two names are matched to one. */
  lemma MatchingIsInjective(a: seq<string>, b: seq<string>, i: nat, i': nat, j: nat)
    requires Unrepeated(a) && Unrepeated(b) && i < |a| && i' < |a|
    requires Find(a, b, a[i]) == Some(j) && Find(a, b, a[i']) == Some(j)
    ensures i == i'
  {
    FindsExactlyTheRelated(a, b, i, j);
    FindsExactlyTheRelated(a, b, i', j);
    MatchingIsSymmetric(a, b, i, j);
    MatchingIsSymmetric(a, b, i', j);
  }

  /** The positions of `a` that have a match in `b`. */
  function Matched(a: seq<string>, b: seq<string>): set<nat> {
    set i: nat | 0 <= i < |a| && Find(a, b, a[i]).Some?
  }

  function Unmatched(a: seq<string>, b: seq<string>): set<nat> {
    set i: nat | 0 <= i < |a| && Find(a, b, a[i]).None?
  }

  function Upto(n: nat): (s: set<nat>)
    ensures |s| == n
    ensures forall i: nat :: i in s <==> i < n
  {
    if n == 0 then {} else Upto(n - 1) + {n - 1}
  }

  /** An injective partial map from one finite set into another. */
  lemma {:induction false} InjectionBounds(xs: set<nat>, ys: set<nat>, f: map<nat, nat>)
    requires forall x :: x in xs ==> x in f && f[x] in ys
    requires forall x, x' :: x in xs && x' in xs && f[x] == f[x'] ==> x == x'
    ensures |xs| <= |ys|
    decreases |xs|
  {
    if xs == {} {
    } else {
      var x :| x in xs;
      InjectionBounds(xs - {x}, ys - {f[x]}, f);
    }
  }

  lemma MatchedAtMost(a: seq<string>, b: seq<string>)
    requires Unrepeated(a) && Unrepeated(b)
    ensures |Matched(a, b)| <= |Matched(b, a)|
  {
    var f := map i: nat | i in Matched(a, b) :: Find(a, b, a[i]).value;
    forall i | i in Matched(a, b)
      ensures f[i] in Matched(b, a)
    {
      FindsExactlyTheRelated(a, b, i, f[i]);
      MatchingIsSymmetric(a, b, i, f[i]);
    }
    forall i, i' | i in Matched(a, b) && i' in Matched(a, b) && f[i] == f[i']
      ensures i == i'
    {
      MatchingIsInjective(a, b, i, i', f[i]);
    }
    InjectionBounds(Matched(a, b), Matched(b, a), f);
  }

  /** Both directions match equally many names, and the rest of each list is absent from the other. */
  lemma MatchingCounts(a: seq<string>, b: seq<string>)
    requires Unrepeated(a) && Unrepeated(b)
    ensures |Matched(a, b)| == |Matched(b, a)|
    ensures |Matched(a, b)| + |Unmatched(a, b)| == |a|
    ensures |Matched(a, b)| + |Unmatched(b, a)| == |b|
  {
    MatchedAtMost(a, b);
    MatchedAtMost(b, a);
    assert Matched(a, b) + Unmatched(a, b) == Upto(|a|) && Matched(a, b) !! Unmatched(a, b);
    assert Matched(b, a) + Unmatched(b, a) == Upto(|b|) && Matched(b, a) !! Unmatched(b, a);
  }
}
