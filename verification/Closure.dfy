/** Whether every constraint that points into a table set comes from inside it. */
module Closure {
  import opened ForeignKeys
  import opened Selection
  import Grouping

  datatype Visibility = UnknownVisibility | Complete | Unconfirmed

  const ID_FK_CLOSURE := "FK_CLOSURE"

  datatype Facts = KeyFact(key: ForeignKey) | VisibilityFact(visibility: Visibility)

  datatype Finding = Finding(check: string, tables: seq<string>, facts: Facts)

  /** The constraint points into the set from outside it. */
  predicate External(key: ForeignKey, schema: string, tables: seq<string>) {
    && key.parentSchema == schema && key.parentTable in tables
    && !(key.childSchema == schema && key.childTable in tables)
  }

  function ExternalFindings(keys: seq<ForeignKey>, schema: string, tables: seq<string>): seq<Finding> {
    if keys == [] then
      []
    else
      var last := keys[|keys| - 1];
      ExternalFindings(keys[..|keys| - 1], schema, tables) +
      if External(last, schema, tables) then [Finding(ID_FK_CLOSURE, [last.childTable], KeyFact(last))] else []
  }

  method CheckFKClosure(keys: seq<ForeignKey>, visibility: Visibility, schema: string, tables: seq<string>)
    returns (findings: seq<Finding>)
    ensures tables == [] ==> findings == []
    ensures tables != [] ==>
      findings == ExternalFindings(keys, schema, tables) +
                  if visibility == Complete then []
                  else [Finding("FK_CLOSURE", tables, VisibilityFact(visibility))]
  {
    if |tables| == 0 {
      return [];
    }
    var targets: set<string> := {};
    for i := 0 to |tables|
      invariant forall table :: table in targets <==> table in tables[..i]
    {
      targets := targets + {tables[i]};
      assert tables[..i + 1] == tables[..i] + [tables[i]];
    }
    assert tables[..|tables|] == tables;

    findings := [];
    for index := 0 to |keys|
      invariant findings == ExternalFindings(keys[..index], schema, tables)
    {
      var key := keys[index];
      assert keys[..index + 1][..index] == keys[..index];
      if key.parentSchema != schema {
        continue;
      }
      if key.parentTable !in targets {
        continue;
      }
      if key.childSchema == schema && key.childTable in targets {
        continue;
      }
      findings := findings + [Finding(ID_FK_CLOSURE, [key.childTable], KeyFact(key))];
    }
    assert keys[..|keys|] == keys;
    if visibility != Complete {
      findings := findings + [Finding(ID_FK_CLOSURE, tables, VisibilityFact(visibility))];
    }
  }

  /** Findings follow the constraints: splitting the list anywhere splits them. */
  lemma {:induction false} FindingsSplit(left: seq<ForeignKey>, right: seq<ForeignKey>, schema: string,
                                         tables: seq<string>)
    ensures ExternalFindings(left + right, schema, tables) ==
            ExternalFindings(left, schema, tables) + ExternalFindings(right, schema, tables)
  {
    if right == [] {
      assert left + right == left;
    } else {
      var before := right[..|right| - 1];
      assert (left + right)[..|left + right| - 1] == left + before;
      FindingsSplit(left, before, schema, tables);
    }
  }

  /** One finding per occurrence of an external constraint, and no other finding. */
  lemma {:induction false} FindingCounts(keys: seq<ForeignKey>, schema: string, tables: seq<string>, key: ForeignKey)
    ensures multiset(ExternalFindings(keys, schema, tables))[Finding("FK_CLOSURE", [key.childTable], KeyFact(key))] ==
            if External(key, schema, tables) then multiset(keys)[key] else 0
  {
    if keys == [] {
    } else {
      FindingCounts(keys[..|keys| - 1], schema, tables, key);
      assert keys == keys[..|keys| - 1] + [keys[|keys| - 1]];
    }
  }

  lemma {:induction false} FindingsAreExternal(keys: seq<ForeignKey>, schema: string, tables: seq<string>)
    ensures forall f :: f in ExternalFindings(keys, schema, tables) ==>
              && f.facts.KeyFact? && f == Finding(ID_FK_CLOSURE, [f.facts.key.childTable], f.facts)
              && External(f.facts.key, schema, tables) && f.facts.key in keys
    ensures ExternalFindings(keys, schema, tables) == [] <==>
            forall key :: key in keys ==> !External(key, schema, tables)
  {
    if keys == [] {
    } else {
      FindingsAreExternal(keys[..|keys| - 1], schema, tables);
      assert keys == keys[..|keys| - 1] + [keys[|keys| - 1]];
    }
  }

  lemma {:induction false} CountInTail<T>(xs: seq<T>, x: T)
    requires xs != []
    ensures multiset(xs)[x] == multiset(xs[1..])[x] + if xs[0] == x then 1 else 0
  {
    assert xs == [xs[0]] + xs[1..];
  }

  lemma CountInConcat<T>(groups: seq<seq<T>>, x: T)
    requires groups != []
    ensures multiset(Grouping.Concat(groups))[x] == multiset(groups[0])[x] + multiset(Grouping.Concat(groups[1..]))[x]
  {
  }

  /** `count` copies per request of `name`; other requests add none. */
  function Total(count: nat, tables: seq<string>, name: string): nat {
    count * multiset(tables)[name]
  }

  lemma TotalInTail(count: nat, tables: seq<string>, name: string)
    requires tables != []
    ensures Total(count, tables, name) == Total(count, tables[1..], name) + if tables[0] == name then count else 0
  {
    CountInTail(tables, name);
    var rest := multiset(tables[1..])[name];
    assert count * (rest + 1) == count * rest + count;
  }

  /** What a constraint is filed under, if a request can select it at all. */
  ghost predicate FiledUnder(key: ForeignKey, schema: string, selector: Selector, name: string, selectable: bool) {
    forall table :: Answers(key, schema, selector, table) <==> selectable && table == name
  }

  /** A selection repeats each constraint once per request of the table it is filed under. */
  lemma {:induction false} BlocksCount(blocks: seq<seq<ForeignKey>>, tables: seq<string>, keys: seq<ForeignKey>,
                                       schema: string, selector: Selector, key: ForeignKey, name: string,
                                       selectable: bool)
    requires FiledUnder(key, schema, selector, name, selectable) && |blocks| == |tables|
    requires forall i :: 0 <= i < |blocks| ==> Block(blocks[i], keys, schema, selector, tables[i])
    ensures multiset(Grouping.Concat(blocks))[key] == if selectable then Total(multiset(keys)[key], tables, name) else 0
  {
    if blocks == [] {
      assert tables == [];
      assert Total(multiset(keys)[key], tables, name) == 0;
    } else {
      BlocksCount(blocks[1..], tables[1..], keys, schema, selector, key, name, selectable);
      MatchingCounts(keys, schema, selector, tables[0], key);
      CountInConcat(blocks, key);
      TotalInTail(multiset(keys)[key], tables, name);
    }
  }

  lemma FiledCounts(selected: seq<ForeignKey>, keys: seq<ForeignKey>, schema: string, selector: Selector,
                    key: ForeignKey, name: string, selectable: bool)
    requires Selects(selected, keys, schema, selector) && FiledUnder(key, schema, selector, name, selectable)
    ensures multiset(selected)[key] == if selectable then Total(multiset(keys)[key], selector.tables, name) else 0
  {
    var blocks: seq<seq<ForeignKey>> :| Blocks(blocks, keys, schema, selector) && selected == Grouping.Concat(blocks);
    BlocksCount(blocks, selector.tables, keys, schema, selector, key, name, selectable);
  }

  /** Incoming requests repeat a constraint once per request of its parent table. */
  lemma SelectionCounts(selected: seq<ForeignKey>, keys: seq<ForeignKey>, schema: string, tables: seq<string>,
                        key: ForeignKey)
    requires Selects(selected, keys, schema, Selector(Incoming, tables))
    ensures multiset(selected)[key] ==
            if key.parentSchema == schema then multiset(keys)[key] * multiset(tables)[key.parentTable] else 0
  {
    FiledCounts(selected, keys, schema, Selector(Incoming, tables), key, key.parentTable, key.parentSchema == schema);
  }

  /** Outgoing requests repeat a constraint once per request of its child table. */
  lemma OutgoingCounts(selected: seq<ForeignKey>, keys: seq<ForeignKey>, schema: string, tables: seq<string>,
                       key: ForeignKey)
    requires Selects(selected, keys, schema, Selector(Outgoing, tables))
    ensures multiset(selected)[key] ==
            if key.childSchema == schema then multiset(keys)[key] * multiset(tables)[key.childTable] else 0
  {
    FiledCounts(selected, keys, schema, Selector(Outgoing, tables), key, key.childTable, key.childSchema == schema);
  }

  /** Requests within a set do so only for constraints that stay in the schema and point into the set. */
  lemma WithinCounts(selected: seq<ForeignKey>, keys: seq<ForeignKey>, schema: string, tables: seq<string>,
                     key: ForeignKey)
    requires Selects(selected, keys, schema, Selector(Within, tables))
    ensures multiset(selected)[key] ==
            if key.childSchema == schema && key.parentSchema == schema && key.parentTable in tables
            then multiset(keys)[key] * multiset(tables)[key.childTable] else 0
  {
    FiledCounts(selected, keys, schema, Selector(Within, tables), key, key.childTable,
                key.childSchema == schema && key.parentSchema == schema && key.parentTable in tables);
  }

  lemma Positive(a: nat, b: nat)
    requires b > 0
    ensures a * b > 0 <==> a > 0
  {
  }

  /** A requested constraint is selected exactly when it exists. */
  lemma ExternalIsSelected(selected: seq<ForeignKey>, all: seq<ForeignKey>, schema: string, tables: seq<string>,
                           key: ForeignKey)
    requires Selects(selected, all, schema, Selector(Incoming, tables))
    requires key.parentSchema == schema && key.parentTable in tables
    ensures key in selected <==> key in all
  {
    SelectionCounts(selected, all, schema, tables, key);
    Positive(multiset(all)[key], multiset(tables)[key.parentTable]);
    assert key in multiset(selected) <==> multiset(selected)[key] > 0;
    assert key in multiset(all) <==> multiset(all)[key] > 0;
    assert key.parentTable in multiset(tables);
  }

  /**
  Closure, end to end: over the constraints selected by parent, the check is silent
  exactly when every constraint with its parent in the set has its child in it.
  */
  lemma ClosureIsDecided(selected: seq<ForeignKey>, all: seq<ForeignKey>, schema: string, tables: seq<string>)
    requires Selects(selected, all, schema, Selector(Incoming, tables))
    ensures ExternalFindings(selected, schema, tables) == [] <==>
            forall key :: key in all && key.parentSchema == schema && key.parentTable in tables ==>
                            key.childSchema == schema && key.childTable in tables
  {
    FindingsAreExternal(selected, schema, tables);
    forall key | External(key, schema, tables)
      ensures key in selected <==> key in all
    {
      ExternalIsSelected(selected, all, schema, tables, key);
    }
  }

  /** Each external constraint is reported once per request of its parent; no other constraint is. */
  lemma ExternalReportedPerRequest(selected: seq<ForeignKey>, all: seq<ForeignKey>, schema: string, tables: seq<string>,
                                   key: ForeignKey)
    requires Selects(selected, all, schema, Selector(Incoming, tables))
    ensures var finding := Finding("FK_CLOSURE", [key.childTable], KeyFact(key));
            multiset(ExternalFindings(selected, schema, tables))[finding] ==
            if key.parentSchema == schema && !(key.childSchema == schema && key.childTable in tables)
            then multiset(all)[key] * multiset(tables)[key.parentTable] else 0
  {
    FindingCounts(selected, schema, tables, key);
    SelectionCounts(selected, all, schema, tables, key);
    if key.parentTable !in tables {
      assert multiset(tables)[key.parentTable] == 0;
      assert multiset(all)[key] * 0 == 0;
    }
  }
}
