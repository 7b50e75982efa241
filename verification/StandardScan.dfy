/** The fallback source: one row per constraint column, from the standard metadata tables. */
module StandardScan {
  import opened Outcomes
  import opened ForeignKeys
  import Grouping

  datatype Row = Row(
    childSchema: string,
    childTable: string,
    constraintName: string,
    childColumn: string,
    parentSchema: string,
    parentTable: string,
    parentColumn: string,
    onDelete: Rule,
    onUpdate: Rule,
    position: nat
  )

  datatype ScanError =
    | InconsistentScalars(constraintName: string)
    | BadPosition(constraintName: string, have: nat, want: nat)
    | Iteration

  // ---------------------------------------------------------------------------
  // How the standard tables lay out constraints.

  /** What tells one constraint's rows from the next one's. */
  function GroupKey(schema: string, name: string): string {
    schema + "\0" + name
  }

  function Tag(row: Row): string {
    GroupKey(row.childSchema, row.constraintName)
  }

  function KeyTag(key: ForeignKey): string {
    GroupKey(key.childSchema, key.constraintName)
  }

  /** A constraint this source can report: paired columns, and no index established yet. */
  predicate Reportable(key: ForeignKey) {
    |key.childColumns| == |key.parentColumns| > 0 && !key.indexed
  }

  function RowsOf(key: ForeignKey): (rows: seq<Row>)
    requires |key.childColumns| == |key.parentColumns|
    ensures |rows| == |key.childColumns|
    ensures forall i :: 0 <= i < |rows| ==>
      rows[i] == Row(key.childSchema, key.childTable, key.constraintName, key.childColumns[i],
                     key.parentSchema, key.parentTable, key.parentColumns[i], key.onDelete, key.onUpdate, i + 1)
  {
    seq(|key.childColumns|, i requires 0 <= i < |key.childColumns| =>
      Row(key.childSchema, key.childTable, key.constraintName, key.childColumns[i],
          key.parentSchema, key.parentTable, key.parentColumns[i], key.onDelete, key.onUpdate, i + 1))
  }

  predicate ReportableList(keys: seq<ForeignKey>) {
    && (forall i :: 0 <= i < |keys| ==> Reportable(keys[i]))
    && (forall i :: 0 < i < |keys| ==> KeyTag(keys[i - 1]) != KeyTag(keys[i]))
  }

  function GroupsOf(keys: seq<ForeignKey>): (groups: seq<seq<Row>>)
    requires forall i :: 0 <= i < |keys| ==> Reportable(keys[i])
    ensures |groups| == |keys|
  {
    seq(|keys|, i requires 0 <= i < |keys| && Reportable(keys[i]) => RowsOf(keys[i]))
  }

  /** `rows` is the standard tables' listing of `keys`, constraint by constraint. */
  ghost predicate Lists(keys: seq<ForeignKey>, rows: seq<Row>) {
    ReportableList(keys) && Grouping.Concat(GroupsOf(keys)) == rows
  }

  /** Where the rows of constraint `n` begin. */
  function Offset(keys: seq<ForeignKey>, n: nat): nat
    requires n <= |keys|
  {
    if n == 0 then 0 else Offset(keys, n - 1) + |keys[n - 1].childColumns|
  }

  lemma {:induction false} OffsetInTail(keys: seq<ForeignKey>, n: nat)
    requires 0 < n <= |keys|
    ensures Offset(keys, n) == |keys[0].childColumns| + Offset(keys[1..], n - 1)
  {
    if n == 1 {
    } else {
      OffsetInTail(keys, n - 1);
    }
  }

  /** The rows of a constraint stand where the rows before it end, and nothing stands after the last. */
  lemma {:induction false} RowAt(keys: seq<ForeignKey>, rows: seq<Row>, i: nat, c: nat)
    requires Lists(keys, rows)
    ensures |rows| == Offset(keys, |keys|)
    ensures i < |keys| && c < |keys[i].childColumns| ==>
              && |keys[i].childColumns| == |keys[i].parentColumns|
              && Offset(keys, i) + c < |rows| && rows[Offset(keys, i) + c] == RowsOf(keys[i])[c]
  {
    hide GroupsOf, Grouping.Concat;
    if keys == [] {
      NoRows(rows);
    } else {
      ListsTail(keys, rows);
      var first, rest := RowsOf(keys[0]), Grouping.Concat(GroupsOf(keys)[1..]);
      OffsetInTail(keys, |keys|);
      if i == 0 {
        RowAt(keys[1..], rest, 0, 0);
      } else {
        RowAt(keys[1..], rest, i - 1, c);
        if i < |keys| {
          OffsetInTail(keys, i);
          assert keys[1..][i - 1] == keys[i];
        }
      }
    }
  }

  lemma NoRows(rows: seq<Row>)
    requires Lists([], rows)
    ensures rows == []
  {
    assert GroupsOf([]) == [];
  }

  /** Every row of a listing, by constraint and column, and no further row. */
  lemma ListedRow(keys: seq<ForeignKey>, rows: seq<Row>, i: nat, c: nat)
    requires Lists(keys, rows)
    ensures |rows| == Offset(keys, |keys|)
    ensures i < |keys| && c < |keys[i].childColumns| ==>
              && Offset(keys, i) + c < |rows| && c < |keys[i].parentColumns|
              && rows[Offset(keys, i) + c] ==
                 Row(keys[i].childSchema, keys[i].childTable, keys[i].constraintName, keys[i].childColumns[c],
                keys[i].parentSchema, keys[i].parentTable, keys[i].parentColumns[c],
                keys[i].onDelete, keys[i].onUpdate, c + 1)
  {
    hide Lists, Offset, Flags;
    RowAt(keys, rows, i, c);
  }

  // ---------------------------------------------------------------------------
  // What is wrong with a row list, row by row.

  predicate Starts(rows: seq<Row>, i: nat)
    requires i < |rows|
  {
    i == 0 || Tag(rows[i - 1]) != Tag(rows[i])
  }

  predicate SameScalars(a: Row, b: Row) {
    && a.childSchema == b.childSchema && a.childTable == b.childTable && a.constraintName == b.constraintName
    && a.parentSchema == b.parentSchema && a.parentTable == b.parentTable
    && a.onDelete == b.onDelete && a.onUpdate == b.onUpdate
  }

  /** The fault found on reading row `i`, or after the last row. */
  function FaultAt(rows: seq<Row>, broken: bool, i: nat): Option<ScanError>
    requires i <= |rows|
  {
    if i == |rows| then
      if broken then Some(Iteration) else None
    else
      var want := if Starts(rows, i) then 1 else rows[i - 1].position + 1;
      if !Starts(rows, i) && !SameScalars(rows[i - 1], rows[i]) then
        Some(InconsistentScalars(rows[i].constraintName))
      else if rows[i].position != want then
        Some(BadPosition(rows[i].constraintName, rows[i].position, want))
      else None
  }

  /** Reading a row of the constraint before it, or of another one: its scalars first, then its position. */
  lemma FaultsInOrder(rows: seq<Row>, broken: bool, i: nat)
    requires 0 < i < |rows|
    ensures var row, before := rows[i], rows[i - 1];
            var same := row.childSchema + "\0" + row.constraintName ==
                        before.childSchema + "\0" + before.constraintName;
            FaultAt(rows, broken, i) ==
            if same && row.(childColumn := "", parentColumn := "", position := 0) !=
                       before.(childColumn := "", parentColumn := "", position := 0)
            then Some(InconsistentScalars(row.constraintName))
            else if row.position != (if same then before.position + 1 else 1)
            then Some(BadPosition(row.constraintName, row.position, if same then before.position + 1 else 1))
            else None
    ensures FaultAt(rows, broken, |rows|) == if broken then Some(Iteration) else None
    ensures FaultAt(rows, broken, 0) ==
            if rows[0].position != 1 then Some(BadPosition(rows[0].constraintName, rows[0].position, 1)) else None
  {
  }

  predicate CleanUpTo(rows: seq<Row>, broken: bool, end: nat)
    requires end <= |rows| + 1
  {
    forall i :: 0 <= i < end ==> FaultAt(rows, broken, i).None?
  }

  lemma FaultsShift(first: seq<Row>, rest: seq<Row>, i: nat)
    requires first != [] && |first| < i <= |first| + |rest|
    ensures FaultAt(first + rest, false, i) == FaultAt(rest, false, i - |first|)
  {
    var rows, n := first + rest, |first|;
    assert i < |rows| ==> rows[i] == rest[i - n];
    assert rows[i - 1] == rest[i - 1 - n];
  }

  lemma FirstGroupIsClean(key: ForeignKey, rest: seq<Row>, i: nat)
    requires Reportable(key)
    requires rest != [] ==> Tag(rest[0]) != KeyTag(key) && rest[0].position == 1
    requires i <= |RowsOf(key)|
    ensures FaultAt(RowsOf(key) + rest, false, i).None?
  {
    var first := RowsOf(key);
    var rows, n := first + rest, |first|;
    assert i < n ==> rows[i] == first[i];
    assert i > 0 ==> rows[i - 1] == first[i - 1];
  }

  lemma ListsTail(keys: seq<ForeignKey>, rows: seq<Row>)
    requires Lists(keys, rows) && keys != []
    ensures rows == RowsOf(keys[0]) + Grouping.Concat(GroupsOf(keys)[1..])
    ensures Lists(keys[1..], Grouping.Concat(GroupsOf(keys)[1..]))
  {
    assert GroupsOf(keys)[1..] == GroupsOf(keys[1..]);
    forall i | 0 < i < |keys[1..]|
      ensures KeyTag(keys[1..][i - 1]) != KeyTag(keys[1..][i])
    {
      assert KeyTag(keys[i]) != KeyTag(keys[i + 1]);
    }
  }

  lemma {:induction false} ListingIsClean(keys: seq<ForeignKey>, rows: seq<Row>)
    requires Lists(keys, rows)
    ensures CleanUpTo(rows, false, |rows| + 1)
  {
    if keys != [] {
      var first, rest := RowsOf(keys[0]), Grouping.Concat(GroupsOf(keys)[1..]);
      ListsTail(keys, rows);
      ListingIsClean(keys[1..], rest);
      if rest != [] {
        assert rest == RowsOf(keys[1..][0]) + Grouping.Concat(GroupsOf(keys[1..])[1..]) by {
          ListsTail(keys[1..], rest);
        }
        assert rest[0] == RowsOf(keys[1])[0];
        assert KeyTag(keys[0]) != KeyTag(keys[1]);
      }
      forall i | 0 <= i <= |rows|
        ensures FaultAt(rows, false, i).None?
      {
        if i > |first| {
          FaultsShift(first, rest, i);
          assert FaultAt(rest, false, i - |first|).None?;
        } else {
          FirstGroupIsClean(keys[0], rest, i);
        }
      }
    }
  }

  lemma RowsDetermineKey(a: ForeignKey, b: ForeignKey)
    requires Reportable(a) && Reportable(b) && RowsOf(a) == RowsOf(b)
    ensures a == b
  {
    assert RowsOf(a)[0] == RowsOf(b)[0];
    assert |RowsOf(a)| == |RowsOf(b)|;
    forall i | 0 <= i < |a.childColumns|
      ensures a.childColumns[i] == b.childColumns[i] && a.parentColumns[i] == b.parentColumns[i]
    {
      assert RowsOf(a)[i] == RowsOf(b)[i];
    }
    assert a.childColumns == b.childColumns && a.parentColumns == b.parentColumns;
  }

  lemma GroupsAreRuns(keys: seq<ForeignKey>)
    requires ReportableList(keys)
    ensures Grouping.Runs(GroupsOf(keys), Tag)
  {
    forall i | 0 < i < |keys|
      ensures Tag(GroupsOf(keys)[i - 1][0]) != Tag(GroupsOf(keys)[i][0])
    {
      assert KeyTag(keys[i - 1]) != KeyTag(keys[i]);
    }
  }

  /** No two lists of constraints share a listing. */
  lemma ListingIsInjective(xs: seq<ForeignKey>, ys: seq<ForeignKey>, rows: seq<Row>)
    requires Lists(xs, rows) && Lists(ys, rows)
    ensures xs == ys
  {
    GroupsAreRuns(xs);
    GroupsAreRuns(ys);
    Grouping.RunsAreUnique(GroupsOf(xs), GroupsOf(ys), Tag);
    forall i | 0 <= i < |xs|
      ensures xs[i] == ys[i]
    {
      assert GroupsOf(xs)[i] == GroupsOf(ys)[i];
      RowsDetermineKey(xs[i], ys[i]);
    }
  }

  // ---------------------------------------------------------------------------
  // The scan.

  /** The constraint under construction: a fact whose column lists grow in place. */
  class Group {
    const key: string
    var fact: ForeignKey
    var nextPosition: nat

    constructor (first: Row)
      ensures key == Tag(first) && nextPosition == 1
      ensures fact == ForeignKeys.ForeignKey(first.constraintName, first.childSchema, first.childTable, [],
                                             first.parentSchema, first.parentTable, [],
                                             first.onDelete, first.onUpdate, false)
    {
      key := Tag(first);
      fact := ForeignKeys.ForeignKey(first.constraintName, first.childSchema, first.childTable, [],
                                     first.parentSchema, first.parentTable, [], first.onDelete, first.onUpdate, false);
      nextPosition := 1;
    }

    predicate Valid()
      reads this
    {
      |fact.childColumns| == |fact.parentColumns| == nextPosition - 1 && key == KeyTag(fact) && !fact.indexed
    }

    predicate Matches(row: Row)
      reads this
    {
      && fact.childSchema == row.childSchema && fact.childTable == row.childTable
      && fact.constraintName == row.constraintName
      && fact.parentSchema == row.parentSchema && fact.parentTable == row.parentTable
      && fact.onDelete == row.onDelete && fact.onUpdate == row.onUpdate
    }

    method Append(row: Row)
      requires Valid() && Matches(row) && row.position == nextPosition
      modifies this
      ensures Valid() && nextPosition == old(nextPosition) + 1
      ensures RowsOf(fact) == old(RowsOf(fact)) + [row]
      ensures fact == old(fact).(childColumns := fact.childColumns, parentColumns := fact.parentColumns)
    {
      fact := fact.(childColumns := fact.childColumns + [row.childColumn],
                    parentColumns := fact.parentColumns + [row.parentColumn]);
      nextPosition := nextPosition + 1;
    }
  }

  lemma ListExtends(keys: seq<ForeignKey>, key: ForeignKey)
    requires ReportableList(keys) && Reportable(key)
    requires keys != [] ==> KeyTag(keys[|keys| - 1]) != KeyTag(key)
    ensures ReportableList(keys + [key])
    ensures Grouping.Concat(GroupsOf(keys + [key])) == Grouping.Concat(GroupsOf(keys)) + RowsOf(key)
  {
    assert GroupsOf(keys + [key]) == GroupsOf(keys) + [RowsOf(key)];
    Grouping.ConcatOne(GroupsOf(keys), RowsOf(key));
  }

  /** The group in progress stands for the rows since the last closed constraint. */
  ghost predicate InProgress(keys: seq<ForeignKey>, group: Group, rows: seq<Row>)
    reads group
  {
    && group.Valid() && rows != [] && group.fact.childColumns != []
    && ReportableList(keys)
    && (keys != [] ==> KeyTag(keys[|keys| - 1]) != group.key)
    && rows == Grouping.Concat(GroupsOf(keys)) + RowsOf(group.fact)
  }

  /** Closing the group in progress gives a list that covers all its rows. */
  lemma ClosedListCovers(keys: seq<ForeignKey>, group: Group, rows: seq<Row>)
    requires InProgress(keys, group, rows)
    ensures Lists(keys + [group.fact], rows) && KeyTag(group.fact) == group.key
  {
    ListExtends(keys, group.fact);
  }

  /** The fault of the next row, in terms of the group in progress. */
  lemma NextRowFault(keys: seq<ForeignKey>, group: Group, rows: seq<Row>, broken: bool, i: nat)
    requires 0 < i < |rows| && InProgress(keys, group, rows[..i])
    ensures FaultAt(rows, broken, i) ==
            var want := if Tag(rows[i]) == group.key then group.nextPosition else 1;
            if Tag(rows[i]) == group.key && !group.Matches(rows[i]) then
              Some(InconsistentScalars(rows[i].constraintName))
            else if rows[i].position != want then Some(BadPosition(rows[i].constraintName, rows[i].position, want))
            else None
  {
    var last := rows[..i][i - 1];
    assert last == RowsOf(group.fact)[|group.fact.childColumns| - 1] == rows[i - 1];
  }

  /** Reads row `i`: closes the group in progress when the tag changes, then appends the row. */
  method ReadRow(rows: seq<Row>, ghost broken: bool, i: nat, keys: seq<ForeignKey>, current: Group?)
    returns (r: Result<(seq<ForeignKey>, Group), ScanError>)
    requires i < |rows|
    requires current == null <==> i == 0
    requires if current == null then keys == [] else InProgress(keys, current, rows[..i])
    modifies current
    ensures r.Err? ==> FaultAt(rows, broken, i) == Some(r.error)
    ensures r.Ok? ==> FaultAt(rows, broken, i).None?
    ensures r.Ok? ==> (r.value.1 == current || fresh(r.value.1)) && InProgress(r.value.0, r.value.1, rows[..i + 1])
  {
    var row := rows[i];
    assert rows[..i + 1] == rows[..i] + [row];
    if current != null {
      NextRowFault(keys, current, rows, broken, i);
    }
    var keys', group := keys, current;
    if current == null || current.key != Tag(row) {
      if current != null {
        ClosedListCovers(keys, current, rows[..i]);
        keys' := keys + [current.fact];
      }
      group := new Group(row);
    }
    if !group.Matches(row) {
      return Err(InconsistentScalars(row.constraintName));
    }
    if row.position != group.nextPosition {
      return Err(BadPosition(row.constraintName, row.position, group.nextPosition));
    }
    group.Append(row);
    return Ok((keys', group));
  }

  /** Closes the group in progress, if any, after the last row. */
  method Close(keys: seq<ForeignKey>, current: Group?, ghost rows: seq<Row>) returns (closed: seq<ForeignKey>)
    requires if current == null then keys == [] && rows == [] else InProgress(keys, current, rows)
    ensures Lists(closed, rows)
  {
    if current == null {
      return [];
    }
    ClosedListCovers(keys, current, rows);
    return keys + [current.fact];
  }

  method Scan(rows: seq<Row>, broken: bool) returns (r: Result<seq<ForeignKey>, ScanError>)
    ensures r.Ok? <==> CleanUpTo(rows, broken, |rows| + 1)
    ensures r.Err? ==>
              exists i :: 0 <= i <= |rows| && CleanUpTo(rows, broken, i) && FaultAt(rows, broken, i) == Some(r.error)
    ensures r.Ok? ==> Lists(r.value, rows)
  {
    var keys: seq<ForeignKey> := [];
    var current: Group? := null;
    for i := 0 to |rows|
      invariant current == null <==> i == 0
      invariant current == null ==> keys == []
      invariant current != null ==> fresh(current) && InProgress(keys, current, rows[..i])
      invariant CleanUpTo(rows, broken, i)
    {
      var step := ReadRow(rows, broken, i, keys, current);
      if step.Err? {
        return Err(step.error);
      }
      keys, current := step.value.0, step.value.1;
    }
    assert rows[..|rows|] == rows;
    if broken {
      assert FaultAt(rows, broken, |rows|) == Some(Iteration);
      return Err(Iteration);
    }
    var closed := Close(keys, current, rows);
    return Ok(closed);
  }

  method ScanStandardForeignKeys(delivery: Delivery<Row>) returns (r: Result<seq<ForeignKey>, ScanError>)
    ensures r.Ok? <==> CleanUpTo(delivery.rows, delivery.broken, |delivery.rows| + 1)
    ensures r.Err? ==> exists i :: && 0 <= i <= |delivery.rows|
                                   && CleanUpTo(delivery.rows, delivery.broken, i)
                                   && FaultAt(delivery.rows, delivery.broken, i) == Some(r.error)
    ensures r.Ok? ==> Lists(r.value, delivery.rows)
    ensures forall keys :: Lists(keys, delivery.rows) && !delivery.broken ==> r == Ok(keys)
  {
    var rows, broken := delivery.rows, delivery.broken;
    r := Scan(rows, broken);
    forall keys | Lists(keys, rows) && !broken
      ensures r == Ok(keys)
    {
      ListingIsClean(keys, rows);
      ListingIsInjective(keys, r.value, rows);
    }
  }
}
