/** Choosing and ordering the constraints a caller asked about. */
module Selection {
  import opened ForeignKeys
  import Grouping
  import Ordering
  import Sorting

  datatype Kind = Invalid | Incoming | Outgoing | Within

  datatype Selector = Selector(kind: Kind, tables: seq<string>)

  /** The requested table a constraint is filed under, and whether it is selected at all. */
  function SelectorTable(key: ForeignKey, schema: string, tableSet: set<string>, kind: Kind): (string, bool) {
    match kind
    case Incoming => (key.parentTable, key.parentSchema == schema && key.parentTable in tableSet)
    case Outgoing => (key.childTable, key.childSchema == schema && key.childTable in tableSet)
    case Within =>
      if key.childSchema != schema || key.parentSchema != schema then ("", false)
      else (key.childTable, key.childTable in tableSet && key.parentTable in tableSet)
    case Invalid => ("", false)
  }

  /** The constraint answers the request for `table`. */
  predicate Answers(key: ForeignKey, schema: string, selector: Selector, table: string) {
    match selector.kind
    case Incoming => key.parentSchema == schema && key.parentTable == table
    case Outgoing => key.childSchema == schema && key.childTable == table
    case Within =>
      && key.childSchema == schema && key.childTable == table
      && key.parentSchema == schema && key.parentTable in selector.tables
    case Invalid => false
  }

  // ---------------------------------------------------------------------------
  // Order.

  /** By child schema, then child table, then constraint name. */
  predicate KeyLess(a: ForeignKey, b: ForeignKey) {
    if a.childSchema != b.childSchema then Ordering.Less(a.childSchema, b.childSchema)
    else if a.childTable != b.childTable then Ordering.Less(a.childTable, b.childTable)
    else Ordering.Less(a.constraintName, b.constraintName)
  }

  /** The three names in turn, each compared by its first difference. */
  lemma KeyLessByNames(a: ForeignKey, b: ForeignKey)
    ensures KeyLess(a, b) <==>
            || Ordering.SmallerFirst(a.childSchema, b.childSchema)
            || (a.childSchema == b.childSchema && Ordering.SmallerFirst(a.childTable, b.childTable))
            || (a.childSchema == b.childSchema && a.childTable == b.childTable &&
                Ordering.SmallerFirst(a.constraintName, b.constraintName))
  {
    hide Ordering.SmallerFirst, Ordering.Less;
    Ordering.LessByFirstDifference(a.childSchema, b.childSchema);
    Ordering.LessByFirstDifference(a.childTable, b.childTable);
    Ordering.LessByFirstDifference(a.constraintName, b.constraintName);
    Ordering.LessIrreflexive(a.childSchema);
    Ordering.LessIrreflexive(a.childTable);
  }

  predicate SameTriple(a: ForeignKey, b: ForeignKey) {
    a.childSchema == b.childSchema && a.childTable == b.childTable && a.constraintName == b.constraintName
  }

  lemma KeyLessTotal(a: ForeignKey, b: ForeignKey)
    ensures KeyLess(a, b) || KeyLess(b, a) || SameTriple(a, b)
  {
    Ordering.LessTotal(a.childSchema, b.childSchema);
    Ordering.LessTotal(a.childTable, b.childTable);
    Ordering.LessTotal(a.constraintName, b.constraintName);
  }

  lemma KeyLessTransitive(a: ForeignKey, b: ForeignKey, c: ForeignKey)
    requires KeyLess(a, b) && KeyLess(b, c)
    ensures KeyLess(a, c)
  {
    if a.childSchema == b.childSchema == c.childSchema {
      if a.childTable == b.childTable == c.childTable {
        Ordering.LessTransitive(a.constraintName, b.constraintName, c.constraintName);
      } else if a.childTable != b.childTable && b.childTable != c.childTable {
        Ordering.LessTransitive(a.childTable, b.childTable, c.childTable);
        Ordering.LessIrreflexive(a.childTable);
      }
    } else if a.childSchema != b.childSchema && b.childSchema != c.childSchema {
      Ordering.LessTransitive(a.childSchema, b.childSchema, c.childSchema);
      Ordering.LessIrreflexive(a.childSchema);
    }
  }

  lemma KeyLessAsymmetric(a: ForeignKey, b: ForeignKey)
    requires KeyLess(a, b)
    ensures !KeyLess(b, a)
  {
    if KeyLess(b, a) {
      KeyLessTransitive(a, b, a);
      Ordering.LessIrreflexive(a.constraintName);
    }
  }

  lemma NotLessTransitive(a: ForeignKey, b: ForeignKey, c: ForeignKey)
    requires !KeyLess(b, a) && !KeyLess(c, b)
    ensures !KeyLess(c, a)
  {
    if KeyLess(c, a) {
      KeyLessTotal(a, b);
      if KeyLess(a, b) {
        KeyLessTransitive(c, a, b);
      }
    }
  }

  /** No constraint comes before an earlier one. */
  ghost predicate Sorted(keys: seq<ForeignKey>) {
    Sorting.Sorted(keys, KeyLess)
  }

  /** No two different constraints share a sort triple. */
  predicate TriplesTell(keys: seq<ForeignKey>) {
    forall a, b :: a in keys && b in keys && SameTriple(a, b) ==> a == b
  }

  /** Then sorting has only one outcome, however ties would have fallen. */
  lemma SortedPermutationsAgree(xs: seq<ForeignKey>, ys: seq<ForeignKey>)
    requires Sorted(xs) && Sorted(ys) && multiset(xs) == multiset(ys) && TriplesTell(xs)
    ensures xs == ys
  {
    forall a, b | a in multiset(xs) && b in multiset(xs) && a != b
      ensures KeyLess(a, b) || KeyLess(b, a)
    {
      assert a in xs && b in xs;
      KeyLessTotal(a, b);
    }
    Sorting.SortedPermutationsAgree(xs, ys, KeyLess);
  }

  lemma SameTriples(xs: seq<ForeignKey>, ys: seq<ForeignKey>)
    requires multiset(xs) == multiset(ys) && TriplesTell(ys)
    ensures TriplesTell(xs)
  {
    forall key | key in xs
      ensures key in ys
    {
      assert key in multiset(xs);
    }
  }

  // ---------------------------------------------------------------------------
  // What a selection is.

  /** The constraints that answer the request for one table, in the order given. */
  function Matching(keys: seq<ForeignKey>, schema: string, selector: Selector, table: string): seq<ForeignKey> {
    if keys == [] then
      []
    else
      var last := keys[|keys| - 1];
      Matching(keys[..|keys| - 1], schema, selector, table) +
      if Answers(last, schema, selector, table) then [last] else []
  }

  /** A constraint is matched as often as it is given, if it answers, and never otherwise. */
  lemma {:induction false} MatchingCounts(keys: seq<ForeignKey>, schema: string, selector: Selector, table: string,
                                          key: ForeignKey)
    ensures multiset(Matching(keys, schema, selector, table))[key] ==
            if Answers(key, schema, selector, table) then multiset(keys)[key] else 0
  {
    if keys == [] {
    } else {
      MatchingCounts(keys[..|keys| - 1], schema, selector, table, key);
      assert keys == keys[..|keys| - 1] + [keys[|keys| - 1]];
    }
  }

  /** The block of one requested table: its matches, sorted. */
  ghost predicate Block(block: seq<ForeignKey>, keys: seq<ForeignKey>, schema: string, selector: Selector,
                        table: string) {
    Sorted(block) && multiset(block) == multiset(Matching(keys, schema, selector, table))
  }

  /** One block per requested table, in request order; a repeated table repeats its block. */
  ghost predicate Blocks(blocks: seq<seq<ForeignKey>>, keys: seq<ForeignKey>, schema: string, selector: Selector) {
    && |blocks| == |selector.tables|
    && (forall i :: 0 <= i < |blocks| ==> Block(blocks[i], keys, schema, selector, selector.tables[i]))
    && (forall i, j :: 0 <= i < j < |blocks| && selector.tables[i] == selector.tables[j] ==> blocks[i] == blocks[j])
  }

  ghost predicate Selects(selected: seq<ForeignKey>, keys: seq<ForeignKey>, schema: string, selector: Selector) {
    exists blocks: seq<seq<ForeignKey>> ::
      Blocks(blocks, keys, schema, selector) && selected == Grouping.Concat(blocks)
  }

  /** The constraints that matter to a request agree, up to order. */
  ghost predicate SameAnswers(keys: seq<ForeignKey>, keys': seq<ForeignKey>, schema: string, selector: Selector) {
    forall key, table :: table in selector.tables && Answers(key, schema, selector, table) ==>
      multiset(keys)[key] == multiset(keys')[key]
  }

  /** Different constraints that answer the same request have different sort triples. */
  ghost predicate Distinguishable(keys: seq<ForeignKey>, schema: string, selector: Selector) {
    forall table :: table in selector.tables ==> TriplesTell(Matching(keys, schema, selector, table))
  }

  lemma MatchingAgrees(keys: seq<ForeignKey>, keys': seq<ForeignKey>, schema: string, selector: Selector, table: string)
    requires SameAnswers(keys, keys', schema, selector) && table in selector.tables
    ensures multiset(Matching(keys, schema, selector, table)) == multiset(Matching(keys', schema, selector, table))
  {
    forall key
      ensures multiset(Matching(keys, schema, selector, table))[key] ==
              multiset(Matching(keys', schema, selector, table))[key]
    {
      MatchingCounts(keys, schema, selector, table, key);
      MatchingCounts(keys', schema, selector, table, key);
    }
  }

  lemma BlockIsDetermined(block: seq<ForeignKey>, keys: seq<ForeignKey>, block': seq<ForeignKey>,
                          keys': seq<ForeignKey>,
                          schema: string, selector: Selector, table: string)
    requires SameAnswers(keys, keys', schema, selector) && table in selector.tables
    requires Distinguishable(keys, schema, selector)
    requires Block(block, keys, schema, selector, table) && Block(block', keys', schema, selector, table)
    ensures block == block'
  {
    MatchingAgrees(keys, keys', schema, selector, table);
    SameTriples(block, Matching(keys, schema, selector, table));
    SortedPermutationsAgree(block, block');
  }

  /**
  The result depends only on which constraints answer: permuting the input, or adding
  constraints that answer nothing, changes nothing.
  */
  lemma SelectionIsDetermined(selected: seq<ForeignKey>, keys: seq<ForeignKey>,
                              selected': seq<ForeignKey>, keys': seq<ForeignKey>,
                              schema: string, selector: Selector)
    requires Selects(selected, keys, schema, selector) && Selects(selected', keys', schema, selector)
    requires SameAnswers(keys, keys', schema, selector)
    requires Distinguishable(keys, schema, selector)
    ensures selected == selected'
  {
    var blocks: seq<seq<ForeignKey>> :| Blocks(blocks, keys, schema, selector) && selected == Grouping.Concat(blocks);
    var blocks': seq<seq<ForeignKey>> :| Blocks(blocks', keys', schema, selector) &&
      selected' == Grouping.Concat(blocks');
    forall i | 0 <= i < |blocks|
      ensures blocks[i] == blocks'[i]
    {
      BlockIsDetermined(blocks[i], keys, blocks'[i], keys', schema, selector, selector.tables[i]);
    }
    assert blocks == blocks';
  }

  // ---------------------------------------------------------------------------
  // The selector, on positions in the key list.

  predicate InRange(indexes: seq<nat>, keys: seq<ForeignKey>) {
    forall i :: 0 <= i < |indexes| ==> indexes[i] < |keys|
  }

  /** The constraints some positions point to. */
  function At(keys: seq<ForeignKey>, indexes: seq<nat>): (picked: seq<ForeignKey>)
    requires InRange(indexes, keys)
    ensures |picked| == |indexes|
    ensures forall i :: 0 <= i < |picked| ==> picked[i] == keys[indexes[i]]
  {
    seq(|indexes|, i requires 0 <= i < |indexes| && indexes[i] < |keys| => keys[indexes[i]])
  }

  function ByTriple(keys: seq<ForeignKey>): Sorting.Order<nat> {
    (i: nat, j: nat) => i < |keys| && j < |keys| && KeyLess(keys[i], keys[j])
  }

  lemma ByTripleIsStrict(keys: seq<ForeignKey>)
    ensures Sorting.Strict(ByTriple(keys), |keys|)
  {
    var less := ByTriple(keys);
    forall i: nat, j: nat | i < |keys| && j < |keys| && less(i, j)
      ensures !less(j, i)
    {
      KeyLessAsymmetric(keys[i], keys[j]);
    }
    forall i: nat, j: nat, k: nat | i < |keys| && j < |keys| && k < |keys| && !less(j, i) && !less(k, j)
      ensures !less(k, i)
    {
      NotLessTransitive(keys[i], keys[j], keys[k]);
    }
  }

  lemma AtWithout(keys: seq<ForeignKey>, xs: seq<nat>, k: nat)
    requires InRange(xs, keys) && k < |xs|
    ensures InRange(Sorting.Removed(xs, k), keys)
    ensures multiset(At(keys, xs)) == multiset(At(keys, Sorting.Removed(xs, k))) + multiset{keys[xs[k]]}
  {
    Sorting.Without(At(keys, xs), k);
    assert Sorting.Removed(At(keys, xs), k) == At(keys, Sorting.Removed(xs, k));
  }

  /** Permuted positions point to permuted constraints. */
  lemma {:induction false} AtPermutes(keys: seq<ForeignKey>, xs: seq<nat>, ys: seq<nat>)
    requires InRange(xs, keys) && InRange(ys, keys) && multiset(xs) == multiset(ys)
    ensures multiset(At(keys, xs)) == multiset(At(keys, ys))
    decreases |xs|
  {
    hide At, Sorting.Removed;
    if xs == [] {
      assert |multiset(ys)| == |multiset(xs)|;
      assert ys == [];
    } else {
      assert xs[0] in multiset(ys);
      var k :| 0 <= k < |ys| && ys[k] == xs[0];
      Sorting.Without(xs, 0);
      Sorting.Without(ys, k);
      AtWithout(keys, xs, 0);
      AtWithout(keys, ys, k);
      var others, others' := Sorting.Removed(xs, 0), Sorting.Removed(ys, k);
      assert multiset(others) == multiset(xs) - multiset{xs[0]};
      assert multiset(others') == multiset(ys) - multiset{ys[k]};
      AtPermutes(keys, others, others');
    }
  }

  /** Stands for the library sort: some sorted permutation, with ties in any order. */
  method SortIndexes(keys: seq<ForeignKey>, indexes: seq<nat>) returns (sorted: seq<nat>)
    requires InRange(indexes, keys)
    ensures InRange(sorted, keys) && Sorted(At(keys, sorted))
    ensures multiset(At(keys, sorted)) == multiset(At(keys, indexes))
  {
    ByTripleIsStrict(keys);
    sorted := Sorting.Sort(indexes, ByTriple(keys), |keys|);
    AtPermutes(keys, sorted, indexes);
    assert Sorted(At(keys, sorted)) by {
      forall i, j | 0 <= i < j < |sorted|
        ensures !KeyLess(keys[sorted[j]], keys[sorted[i]])
      {
        assert !ByTriple(keys)(sorted[j], sorted[i]);
      }
    }
  }

  function Get(byRequested: map<string, seq<nat>>, table: string): seq<nat> {
    if table in byRequested then byRequested[table] else []
  }

  /** The positions collected for one table are those of its matches, in order. */
  predicate Collects(indexes: seq<nat>, keys: seq<ForeignKey>, end: nat, schema: string, selector: Selector,
                     table: string)
    requires end <= |keys|
  {
    InRange(indexes, keys) && At(keys, indexes) == Matching(keys[..end], schema, selector, table)
  }

  method TableSet(tables: seq<string>) returns (tableSet: set<string>)
    ensures forall table :: table in tableSet <==> table in tables
  {
    tableSet := {};
    for i := 0 to |tables|
      invariant forall table :: table in tableSet <==> table in tables[..i]
    {
      tableSet := tableSet + {tables[i]};
      assert tables[..i + 1] == tables[..i] + [tables[i]];
    }
    assert tables[..|tables|] == tables;
  }

  /** Every requested table has collected its matches among the first `end` constraints. */
  ghost predicate Collected(byRequested: map<string, seq<nat>>, keys: seq<ForeignKey>, end: nat, schema: string,
                            selector: Selector)
    requires end <= |keys|
  {
    && (forall table :: table in selector.tables ==>
          Collects(Get(byRequested, table), keys, end, schema, selector, table))
    && (forall table :: table in byRequested ==> table in selector.tables)
  }

  lemma CollectedNext(byRequested: map<string, seq<nat>>, keys: seq<ForeignKey>, index: nat, schema: string,
                      selector: Selector, tableSet: set<string>)
    requires index < |keys| && Collected(byRequested, keys, index, schema, selector)
    requires forall table :: table in tableSet <==> table in selector.tables
    ensures var (requested, ok) := SelectorTable(keys[index], schema, tableSet, selector.kind);
            Collected(if ok then byRequested[requested := Get(byRequested, requested) + [index]] else byRequested,
                      keys, index + 1, schema, selector)
  {
    var (requested, ok) := SelectorTable(keys[index], schema, tableSet, selector.kind);
    var after := if ok then byRequested[requested := Get(byRequested, requested) + [index]] else byRequested;
    forall table | table in selector.tables
      ensures Collects(Get(after, table), keys, index + 1, schema, selector, table)
    {
      assert Answers(keys[index], schema, selector, table) <==> ok && requested == table;
      CollectsNext(Get(byRequested, table), keys, index, schema, selector, table);
    }
  }

  method CollectByRequested(keys: seq<ForeignKey>, schema: string, selector: Selector)
    returns (byRequested: map<string, seq<nat>>)
    ensures Collected(byRequested, keys, |keys|, schema, selector)
  {
    var tableSet := TableSet(selector.tables);
    byRequested := map[];
    for index := 0 to |keys|
      invariant Collected(byRequested, keys, index, schema, selector)
    {
      CollectedNext(byRequested, keys, index, schema, selector, tableSet);
      var (requested, ok) := SelectorTable(keys[index], schema, tableSet, selector.kind);
      if ok {
        byRequested := byRequested[requested := Get(byRequested, requested) + [index]];
      }
    }
  }

  lemma CollectsNext(indexes: seq<nat>, keys: seq<ForeignKey>, index: nat, schema: string, selector: Selector,
                     table: string)
    requires index < |keys| && Collects(indexes, keys, index, schema, selector, table)
    ensures Collects(if Answers(keys[index], schema, selector, table) then indexes + [index] else indexes,
                     keys, index + 1, schema, selector, table)
  {
    assert keys[..index + 1][..index] == keys[..index];
    assert At(keys, indexes + [index]) == At(keys, indexes) + [keys[index]];
  }

  method SortEach(keys: seq<ForeignKey>, byRequested: map<string, seq<nat>>) returns (sorted: map<string, seq<nat>>)
    requires forall table :: table in byRequested ==> InRange(byRequested[table], keys)
    ensures sorted.Keys == byRequested.Keys
    ensures forall table :: table in byRequested ==>
      && InRange(sorted[table], keys) && Sorted(At(keys, sorted[table]))
      && multiset(At(keys, sorted[table])) == multiset(At(keys, byRequested[table]))
  {
    sorted := map[];
    var remaining := byRequested.Keys;
    while remaining != {}
      invariant remaining <= byRequested.Keys && sorted.Keys == byRequested.Keys - remaining
      invariant forall table :: table in sorted ==>
        && InRange(sorted[table], keys) && Sorted(At(keys, sorted[table]))
        && multiset(At(keys, sorted[table])) == multiset(At(keys, byRequested[table]))
      decreases |remaining|
    {
      var table :| table in remaining;
      remaining := remaining - {table};
      var indexes := SortIndexes(keys, byRequested[table]);
      sorted := sorted[table := indexes];
    }
  }

  method AppendAll(selected: seq<ForeignKey>, keys: seq<ForeignKey>, indexes: seq<nat>) returns (r: seq<ForeignKey>)
    requires InRange(indexes, keys)
    ensures r == selected + At(keys, indexes)
  {
    r := selected;
    for j := 0 to |indexes|
      invariant r == selected + At(keys, indexes)[..j]
    {
      r := r + [keys[indexes[j]]];
    }
  }

  /** The block of a table, as positions sorted beforehand. */
  ghost predicate IsBlock(block: seq<ForeignKey>, keys: seq<ForeignKey>, byRequested: map<string, seq<nat>>,
                          table: string) {
    InRange(Get(byRequested, table), keys) && block == At(keys, Get(byRequested, table))
  }

  /** Writes the blocks out in request order. */
  method Emit(keys: seq<ForeignKey>, byRequested: map<string, seq<nat>>, tables: seq<string>)
    returns (selected: seq<ForeignKey>, ghost blocks: seq<seq<ForeignKey>>)
    requires forall k :: 0 <= k < |tables| ==> InRange(Get(byRequested, tables[k]), keys)
    ensures |blocks| == |tables| && selected == Grouping.Concat(blocks)
    ensures forall k :: 0 <= k < |tables| ==> IsBlock(blocks[k], keys, byRequested, tables[k])
  {
    selected, blocks := [], [];
    for i := 0 to |tables|
      invariant |blocks| == i
      invariant forall k :: 0 <= k < i ==> IsBlock(blocks[k], keys, byRequested, tables[k])
      invariant selected == Grouping.Concat(blocks)
    {
      var indexes := Get(byRequested, tables[i]);
      selected := AppendAll(selected, keys, indexes);
      Grouping.ConcatOne(blocks, At(keys, indexes));
      blocks := blocks + [At(keys, indexes)];
    }
  }

  method SelectForeignKeys(keys: seq<ForeignKey>, schema: string, selector: Selector)
    returns (selected: seq<ForeignKey>)
    ensures Selects(selected, keys, schema, selector)
  {
    var collected := CollectByRequested(keys, schema, selector);
    assert keys[..|keys|] == keys;
    forall table | table in collected
      ensures InRange(collected[table], keys)
    {
      assert Collects(Get(collected, table), keys, |keys|, schema, selector, table);
    }
    var byRequested := SortEach(keys, collected);
    forall table | table in selector.tables
      ensures InRange(Get(byRequested, table), keys)
      ensures Block(At(keys, Get(byRequested, table)), keys, schema, selector, table)
    {
      assert Collects(Get(collected, table), keys, |keys|, schema, selector, table);
    }
    forall k | 0 <= k < |selector.tables|
      ensures InRange(Get(byRequested, selector.tables[k]), keys)
    {
      assert selector.tables[k] in selector.tables;
    }
    ghost var blocks;
    selected, blocks := Emit(keys, byRequested, selector.tables);
    assert Blocks(blocks, keys, schema, selector) by {
      forall k | 0 <= k < |blocks|
        ensures Block(blocks[k], keys, schema, selector, selector.tables[k])
      {
        assert selector.tables[k] in selector.tables;
        assert IsBlock(blocks[k], keys, byRequested, selector.tables[k]);
      }
    }
  }

  // ---------------------------------------------------------------------------
  // Ownership of the returned column lists.

  /** A returned constraint, with its column lists as the mutable buffers a caller receives. */
  datatype OwnedKey = OwnedKey(scalars: ForeignKey, childColumns: array<string>, parentColumns: array<string>)
  {
    function Value(): ForeignKey
      reads childColumns, parentColumns
    {
      scalars.(childColumns := childColumns[..], parentColumns := parentColumns[..])
    }
  }

  method Clone(columns: seq<string>) returns (copy: array<string>)
    ensures fresh(copy) && copy[..] == columns
  {
    copy := new string[|columns|](i requires 0 <= i < |columns| => columns[i]);
  }

  /**
  Every entry gets buffers of its own, even when one constraint is repeated, so writing
  through one entry can change no other.
  */
  method OwnColumns(selected: seq<ForeignKey>) returns (owned: seq<OwnedKey>)
    ensures |owned| == |selected|
    ensures forall i :: 0 <= i < |owned| ==>
      && fresh(owned[i].childColumns) && fresh(owned[i].parentColumns)
      && owned[i].childColumns != owned[i].parentColumns
      && owned[i].Value() == selected[i]
    ensures forall i, j :: 0 <= i < j < |owned| ==>
      {owned[i].childColumns, owned[i].parentColumns} !! {owned[j].childColumns, owned[j].parentColumns}
  {
    owned := [];
    for k := 0 to |selected|
      invariant |owned| == k
      invariant forall i :: 0 <= i < k ==>
        && fresh(owned[i].childColumns) && fresh(owned[i].parentColumns)
        && owned[i].childColumns != owned[i].parentColumns
        && owned[i].Value() == selected[i]
      invariant forall i, j :: 0 <= i < j < k ==>
        {owned[i].childColumns, owned[i].parentColumns} !! {owned[j].childColumns, owned[j].parentColumns}
    {
      var child := Clone(selected[k].childColumns);
      var parent := Clone(selected[k].parentColumns);
      owned := owned + [OwnedKey(selected[k], child, parent)];
    }
  }

  /** What a caller reads in a list of owned constraints. */
  ghost function Values(owned: seq<OwnedKey>): (keys: seq<ForeignKey>)
    reads set key | key in owned :: key.childColumns, set key | key in owned :: key.parentColumns
    ensures |keys| == |owned| && forall i :: 0 <= i < |keys| ==> keys[i] == owned[i].Value()
  {
    if owned == [] then [] else [owned[0].Value()] + Values(owned[1..])
  }

  /** The selection as it is returned: every entry, repeated ones too, with column lists of its own. */
  method SelectOwned(keys: seq<ForeignKey>, schema: string, selector: Selector) returns (owned: seq<OwnedKey>)
    ensures Selects(Values(owned), keys, schema, selector)
    ensures forall i :: 0 <= i < |owned| ==>
      && fresh(owned[i].childColumns) && fresh(owned[i].parentColumns)
      && owned[i].childColumns != owned[i].parentColumns
    ensures forall i, j :: 0 <= i < j < |owned| ==>
      {owned[i].childColumns, owned[i].parentColumns} !! {owned[j].childColumns, owned[j].parentColumns}
  {
    var selected := SelectForeignKeys(keys, schema, selector);
    owned := OwnColumns(selected);
    assert Values(owned) == selected;
  }
}
