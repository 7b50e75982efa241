/** The primary source: one row per constraint column, straight from the InnoDB registry. */
module InnoDBScan {
  import opened Outcomes
  import opened ForeignKeys
  import Grouping

  datatype Row = Row(
    id: string,
    forName: string,
    refName: string,
    columnCount: nat,
    flags: bv64,
    childColumn: string,
    parentColumn: string,
    position: nat
  )

  datatype ScanError =
    | BadIdentifier(id: string)
    | BadChildName(id: string)
    | BadParentName(id: string)
    | SchemaDiffers(id: string)
    | ColumnCount(id: string, have: nat, want: nat)
    | BadRules(id: string, flags: bv64)
    | InconsistentScalars(id: string)
    | BadPosition(id: string, have: nat, want: nat)
    | Iteration

  // ---------------------------------------------------------------------------
  // How InnoDB lays out constraints.

  function Identifier(key: ForeignKey): string {
    JoinInnoDBName(key.childSchema, key.constraintName)
  }

  /** A constraint InnoDB can register: names that can be told apart again, paired columns, the four rules. */
  predicate Storable(key: ForeignKey) {
    && key.childSchema != "" && '/' !in key.childSchema && key.constraintName != "" && key.childTable != ""
    && key.parentSchema != "" && '/' !in key.parentSchema && key.parentTable != ""
    && |key.childColumns| == |key.parentColumns| > 0
    && key.onDelete.Stored() && key.onUpdate.Stored()
    && key.indexed
  }

  /** The rows of one constraint, numbered from one. */
  function RowsOf(key: ForeignKey): (rows: seq<Row>)
    requires |key.childColumns| == |key.parentColumns|
    ensures |rows| == |key.childColumns|
    ensures forall i :: 0 <= i < |rows| ==>
      rows[i] == Row(Identifier(key), JoinInnoDBName(key.childSchema, key.childTable),
                     JoinInnoDBName(key.parentSchema, key.parentTable), |rows|,
                     Flags(key.onDelete, key.onUpdate), key.childColumns[i], key.parentColumns[i], i + 1)
  {
    seq(|key.childColumns|, i requires 0 <= i < |key.childColumns| =>
      Row(Identifier(key), JoinInnoDBName(key.childSchema, key.childTable),
          JoinInnoDBName(key.parentSchema, key.parentTable), |key.childColumns|,
          Flags(key.onDelete, key.onUpdate), key.childColumns[i], key.parentColumns[i], i + 1))
  }

  predicate StorableList(keys: seq<ForeignKey>) {
    && (forall i :: 0 <= i < |keys| ==> Storable(keys[i]))
    && (forall i :: 0 < i < |keys| ==> Identifier(keys[i - 1]) != Identifier(keys[i]))
  }

  function GroupsOf(keys: seq<ForeignKey>): (groups: seq<seq<Row>>)
    requires forall i :: 0 <= i < |keys| ==> Storable(keys[i])
    ensures |groups| == |keys|
  {
    seq(|keys|, i requires 0 <= i < |keys| && Storable(keys[i]) => RowsOf(keys[i]))
  }

  /** `rows` is the registry's listing of `keys`, constraint by constraint. */
  ghost predicate Lists(keys: seq<ForeignKey>, rows: seq<Row>) {
    StorableList(keys) && Grouping.Concat(GroupsOf(keys)) == rows
  }

  /** Where the rows of constraint `n` begin. */
  function Offset(keys: seq<ForeignKey>, n: nat): nat
    requires n <= |keys|
  {
    if n == 0 then 0 else Offset(keys, n - 1) + |keys[n - 1].childColumns|
  }

  lemma {:induction false} OffsetInTail(keys: seq<ForeignKey>, n: nat)
    requires 0 < n <= |keys|
    ensures Offset(keys, n) == |keys[0].childColumns| + Offset(keys[1..], n - 1)
  {
    if n == 1 {
    } else {
      OffsetInTail(keys, n - 1);
    }
  }

  /** The rows of a constraint stand where the rows before it end, and nothing stands after the last. */
  lemma {:induction false} RowAt(keys: seq<ForeignKey>, rows: seq<Row>, i: nat, c: nat)
    requires Lists(keys, rows)
    ensures |rows| == Offset(keys, |keys|)
    ensures i < |keys| && c < |keys[i].childColumns| ==>
              && |keys[i].childColumns| == |keys[i].parentColumns|
              && Offset(keys, i) + c < |rows| && rows[Offset(keys, i) + c] == RowsOf(keys[i])[c]
  {
    hide GroupsOf, Grouping.Concat;
    if keys == [] {
      NoRows(rows);
    } else {
      ListsTail(keys, rows);
      var first, rest := RowsOf(keys[0]), Grouping.Concat(GroupsOf(keys)[1..]);
      OffsetInTail(keys, |keys|);
      if i == 0 {
        RowAt(keys[1..], rest, 0, 0);
      } else {
        RowAt(keys[1..], rest, i - 1, c);
        if i < |keys| {
          OffsetInTail(keys, i);
          assert keys[1..][i - 1] == keys[i];
        }
      }
    }
  }

  lemma NoRows(rows: seq<Row>)
    requires Lists([], rows)
    ensures rows == []
  {
    assert GroupsOf([]) == [];
  }

  /** Every row of a listing, by constraint and column, and no further row. */
  lemma ListedRow(keys: seq<ForeignKey>, rows: seq<Row>, i: nat, c: nat)
    requires Lists(keys, rows)
    ensures |rows| == Offset(keys, |keys|)
    ensures i < |keys| && c < |keys[i].childColumns| ==>
              && Offset(keys, i) + c < |rows| && c < |keys[i].parentColumns|
              && rows[Offset(keys, i) + c] ==
                 Row(keys[i].childSchema + "/" + keys[i].constraintName, keys[i].childSchema + "/" + keys[i].childTable,
                keys[i].parentSchema + "/" + keys[i].parentTable, |keys[i].childColumns|,
                Flags(keys[i].onDelete, keys[i].onUpdate), keys[i].childColumns[c], keys[i].parentColumns[c], c + 1)
  {
    hide Lists, Offset, Flags;
    RowAt(keys, rows, i, c);
  }

  // ---------------------------------------------------------------------------
  // What is wrong with a row list, row by row.

  predicate Starts(rows: seq<Row>, i: nat)
    requires i < |rows|
  {
    i == 0 || rows[i - 1].id != rows[i].id
  }

  predicate SameScalars(a: Row, b: Row) {
    a.forName == b.forName && a.refName == b.refName && a.columnCount == b.columnCount && a.flags == b.flags
  }

  /** What prevents `have` rows with these scalars from being a constraint, in the order it is checked. */
  function GroupFault(scalars: Row, have: nat): Option<ScanError> {
    var id := SplitInnoDBName(scalars.id);
    var child := SplitInnoDBName(scalars.forName);
    if id.None? then Some(BadIdentifier(scalars.id))
    else if child.None? then Some(BadChildName(scalars.id))
    else if SplitInnoDBName(scalars.refName).None? then Some(BadParentName(scalars.id))
    else if id.value.0 != child.value.0 then Some(SchemaDiffers(scalars.id))
    else if scalars.columnCount == 0 || have != scalars.columnCount then
      Some(ColumnCount(scalars.id, have, scalars.columnCount))
    else if Rules(scalars.flags).None? then Some(BadRules(scalars.id, scalars.flags))
    else None
  }

  /** The fault found on reading row `i`, or after the last row. Each depends on two rows only. */
  function FaultAt(rows: seq<Row>, broken: bool, i: nat): Option<ScanError>
    requires i <= |rows|
  {
    if i == |rows| then
      if broken then Some(Iteration)
      else if i > 0 then GroupFault(rows[i - 1], rows[i - 1].position)
      else None
    else
      var closing := if i > 0 && Starts(rows, i) then GroupFault(rows[i - 1], rows[i - 1].position) else None;
      var want := if Starts(rows, i) then 1 else rows[i - 1].position + 1;
      if closing.Some? then closing
      else if !Starts(rows, i) && !SameScalars(rows[i - 1], rows[i]) then Some(InconsistentScalars(rows[i].id))
      else if rows[i].position != want then Some(BadPosition(rows[i].id, rows[i].position, want))
      else None
  }

  /** The fault of a group by its names, count and bits, in the order of discovery. */
  lemma GroupFaultByNames(s: Row, have: nat)
    ensures !TwoParts(s.id) ==> GroupFault(s, have) == Some(BadIdentifier(s.id))
    ensures TwoParts(s.id) && !TwoParts(s.forName) ==> GroupFault(s, have) == Some(BadChildName(s.id))
    ensures TwoParts(s.id) && TwoParts(s.forName) && !TwoParts(s.refName) ==>
              GroupFault(s, have) == Some(BadParentName(s.id))
  {
    hide SplitInnoDBName, TwoParts, Rules;
    SplitsTwoParts(s.id);
    SplitsTwoParts(s.forName);
    SplitsTwoParts(s.refName);
  }

  /** With three readable names: schemas, then the number of rows, then the flags. */
  lemma GroupFaultByContents(s: Row, have: nat, schema: string, name: string, owner: string, child: string)
    requires s.id == schema + "/" + name && schema != "" && '/' !in schema && name != ""
    requires s.forName == owner + "/" + child && owner != "" && '/' !in owner && child != ""
    requires TwoParts(s.refName)
    ensures GroupFault(s, have) ==
            if schema != owner then Some(SchemaDiffers(s.id))
            else if s.columnCount == 0 || have != s.columnCount then Some(ColumnCount(s.id, have, s.columnCount))
            else if Rules(s.flags).None? then Some(BadRules(s.id, s.flags))
            else None
  {
    hide SplitInnoDBName, TwoParts, Rules;
    SplitIsJoinUndone(s.id, schema, name);
    SplitIsJoinUndone(s.forName, owner, child);
    SplitsTwoParts(s.refName);
  }

  /** Reading a row: the group before it first, then its scalars, then its position. */
  lemma FaultsInOrder(rows: seq<Row>, broken: bool, i: nat)
    requires 0 < i < |rows|
    ensures rows[i].id != rows[i - 1].id && GroupFault(rows[i - 1], rows[i - 1].position).Some? ==>
              FaultAt(rows, broken, i) == GroupFault(rows[i - 1], rows[i - 1].position)
    ensures rows[i].id != rows[i - 1].id && GroupFault(rows[i - 1], rows[i - 1].position).None? ==>
              FaultAt(rows, broken, i) ==
              if rows[i].position != 1 then Some(BadPosition(rows[i].id, rows[i].position, 1)) else None
    ensures rows[i].id == rows[i - 1].id ==>
              FaultAt(rows, broken, i) ==
              if rows[i].forName != rows[i - 1].forName || rows[i].refName != rows[i - 1].refName ||
                 rows[i].columnCount != rows[i - 1].columnCount || rows[i].flags != rows[i - 1].flags
              then Some(InconsistentScalars(rows[i].id))
              else if rows[i].position != rows[i - 1].position + 1
              then Some(BadPosition(rows[i].id, rows[i].position, rows[i - 1].position + 1))
              else None
    ensures FaultAt(rows, true, |rows|) == Some(Iteration)
    ensures FaultAt(rows, broken, 0) ==
            if rows[0].position != 1 then Some(BadPosition(rows[0].id, rows[0].position, 1)) else None
  {
    hide GroupFault;
  }

  predicate CleanUpTo(rows: seq<Row>, broken: bool, end: nat)
    requires end <= |rows| + 1
  {
    forall i :: 0 <= i < end ==> FaultAt(rows, broken, i).None?
  }

  /** Inside and right after one constraint's rows, whatever different constraint follows. */
  lemma FirstGroupIsClean(key: ForeignKey, rest: seq<Row>, i: nat)
    requires Storable(key)
    requires rest != [] ==> rest[0].id != Identifier(key) && rest[0].position == 1
    requires i <= |RowsOf(key)|
    ensures FaultAt(RowsOf(key) + rest, false, i).None?
  {
    StorableHasNoFault(key);
    var first := RowsOf(key);
    var rows, n := first + rest, |first|;
    assert i < n ==> rows[i] == first[i];
    assert i > 0 ==> rows[i - 1] == first[i - 1];
    if i == n {
      assert GroupFault(first[n - 1], n) == GroupFault(first[0], n);
    }
  }

  /** Past the first constraint, rows are judged as if it were not there. */
  lemma FaultsShift(first: seq<Row>, rest: seq<Row>, i: nat)
    requires first != [] && |first| < i <= |first| + |rest|
    ensures FaultAt(first + rest, false, i) == FaultAt(rest, false, i - |first|)
  {
    var rows, n := first + rest, |first|;
    assert i < |rows| ==> rows[i] == rest[i - n];
    assert rows[i - 1] == rest[i - 1 - n];
  }

  /** A listing of constraints has no fault anywhere. */
  lemma {:induction false} ListingIsClean(keys: seq<ForeignKey>, rows: seq<Row>)
    requires Lists(keys, rows)
    ensures CleanUpTo(rows, false, |rows| + 1)
  {
    if keys != [] {
      var first, rest := RowsOf(keys[0]), Grouping.Concat(GroupsOf(keys)[1..]);
      ListsTail(keys, rows);
      ListingIsClean(keys[1..], rest);
      if rest != [] {
        ListingStarts(keys[1..], rest);
        assert FaultAt(rest, false, 0).None?;
        assert Identifier(keys[0]) != Identifier(keys[1]);
      }
      forall i | 0 <= i <= |rows|
        ensures FaultAt(rows, false, i).None?
      {
        if i > |first| {
          FaultsShift(first, rest, i);
          assert FaultAt(rest, false, i - |first|).None?;
        } else {
          FirstGroupIsClean(keys[0], rest, i);
        }
      }
    }
  }

  lemma ListsTail(keys: seq<ForeignKey>, rows: seq<Row>)
    requires Lists(keys, rows) && keys != []
    ensures rows == RowsOf(keys[0]) + Grouping.Concat(GroupsOf(keys)[1..])
    ensures Lists(keys[1..], Grouping.Concat(GroupsOf(keys)[1..]))
  {
    assert GroupsOf(keys)[1..] == GroupsOf(keys[1..]);
    forall i | 0 < i < |keys[1..]|
      ensures Identifier(keys[1..][i - 1]) != Identifier(keys[1..][i])
    {
      assert Identifier(keys[i]) != Identifier(keys[i + 1]);
    }
  }

  lemma ListingStarts(keys: seq<ForeignKey>, rows: seq<Row>)
    requires Lists(keys, rows) && rows != []
    ensures keys != [] && rows[0].id == Identifier(keys[0])
  {
    if keys != [] {
      assert rows == RowsOf(keys[0]) + Grouping.Concat(GroupsOf(keys)[1..]);
      assert rows[0] == RowsOf(keys[0])[0];
    }
  }

  lemma StorableHasNoFault(key: ForeignKey)
    requires Storable(key)
    ensures GroupFault(RowsOf(key)[0], |RowsOf(key)|).None?
  {
    SplitIsJoinUndone(Identifier(key), key.childSchema, key.constraintName);
    SplitIsJoinUndone(JoinInnoDBName(key.childSchema, key.childTable), key.childSchema, key.childTable);
    SplitIsJoinUndone(JoinInnoDBName(key.parentSchema, key.parentTable), key.parentSchema, key.parentTable);
    RulesAreFlagsUndone(Flags(key.onDelete, key.onUpdate), key.onDelete, key.onUpdate);
  }

  /** A constraint is determined by its rows. */
  lemma RowsDetermineKey(a: ForeignKey, b: ForeignKey)
    requires Storable(a) && Storable(b) && RowsOf(a) == RowsOf(b)
    ensures a == b
  {
    var row := RowsOf(a)[0];
    assert row == RowsOf(b)[0];
    JoinIsInjective(a.childSchema, a.constraintName, b.childSchema, b.constraintName);
    JoinIsInjective(a.childSchema, a.childTable, b.childSchema, b.childTable);
    JoinIsInjective(a.parentSchema, a.parentTable, b.parentSchema, b.parentTable);
    RulesAreFlagsUndone(row.flags, a.onDelete, a.onUpdate);
    RulesAreFlagsUndone(row.flags, b.onDelete, b.onUpdate);
    assert |RowsOf(a)| == |RowsOf(b)|;
    forall i | 0 <= i < |a.childColumns|
      ensures a.childColumns[i] == b.childColumns[i] && a.parentColumns[i] == b.parentColumns[i]
    {
      assert RowsOf(a)[i] == RowsOf(b)[i];
    }
    assert a.childColumns == b.childColumns && a.parentColumns == b.parentColumns;
  }

  lemma GroupsAreRuns(keys: seq<ForeignKey>)
    requires StorableList(keys)
    ensures Grouping.Runs(GroupsOf(keys), (row: Row) => row.id)
  {
    forall i | 0 < i < |keys|
      ensures GroupsOf(keys)[i - 1][0].id != GroupsOf(keys)[i][0].id
    {
      assert Identifier(keys[i - 1]) != Identifier(keys[i]);
    }
  }

  /** No two lists of constraints share a listing. */
  lemma ListingIsInjective(xs: seq<ForeignKey>, ys: seq<ForeignKey>, rows: seq<Row>)
    requires Lists(xs, rows) && Lists(ys, rows)
    ensures xs == ys
  {
    GroupsAreRuns(xs);
    GroupsAreRuns(ys);
    Grouping.RunsAreUnique(GroupsOf(xs), GroupsOf(ys), (row: Row) => row.id);
    forall i | 0 <= i < |xs|
      ensures xs[i] == ys[i]
    {
      assert GroupsOf(xs)[i] == GroupsOf(ys)[i];
      RowsDetermineKey(xs[i], ys[i]);
    }
  }

  // ---------------------------------------------------------------------------
  // The scan.

  /** The constraint under construction: scalars fixed by its first row, columns appended in place. */
  class Group {
    const id: string
    const forName: string
    const refName: string
    const columnCount: nat
    const flags: bv64
    var childColumns: seq<string>
    var parentColumns: seq<string>
    var nextPosition: nat

    constructor (first: Row)
      ensures Scalars() == first.(childColumn := "", parentColumn := "", position := 0)
      ensures childColumns == parentColumns == [] && nextPosition == 1
    {
      id, forName, refName := first.id, first.forName, first.refName;
      columnCount, flags := first.columnCount, first.flags;
      childColumns, parentColumns, nextPosition := [], [], 1;
    }

    function Scalars(): Row {
      Row(id, forName, refName, columnCount, flags, "", "", 0)
    }

    predicate Valid()
      reads this
    {
      |childColumns| == |parentColumns| == nextPosition - 1
    }

    /** The rows appended so far. */
    function Rows(): (rows: seq<Row>)
      reads this
      requires Valid()
      ensures |rows| == |childColumns|
      ensures forall i :: 0 <= i < |rows| ==>
        rows[i] == Row(id, forName, refName, columnCount, flags, childColumns[i], parentColumns[i], i + 1)
    {
      seq(|childColumns|, i requires 0 <= i < |childColumns| reads this requires Valid() =>
        Row(id, forName, refName, columnCount, flags, childColumns[i], parentColumns[i], i + 1))
    }

    method Append(row: Row)
      requires Valid() && SameScalars(Scalars(), row) && row.id == id && row.position == nextPosition
      modifies this
      ensures Valid() && Rows() == old(Rows()) + [row] && nextPosition == old(nextPosition) + 1
    {
      childColumns := childColumns + [row.childColumn];
      parentColumns := parentColumns + [row.parentColumn];
      nextPosition := nextPosition + 1;
    }

    /** The finished constraint, whose rows are the ones appended; or the first thing wrong with it. */
    method ForeignKey() returns (r: Result<ForeignKey, ScanError>)
      requires Valid()
      ensures r.Ok? <==> GroupFault(Scalars(), |childColumns|).None?
      ensures r.Err? ==> GroupFault(Scalars(), |childColumns|) == Some(r.error)
      ensures r.Ok? ==> Storable(r.value) && RowsOf(r.value) == Rows() && Identifier(r.value) == id
    {
      var constraint := SplitInnoDBName(id);
      if constraint.None? {
        return Err(BadIdentifier(id));
      }
      var child := SplitInnoDBName(forName);
      if child.None? {
        return Err(BadChildName(id));
      }
      var parent := SplitInnoDBName(refName);
      if parent.None? {
        return Err(BadParentName(id));
      }
      if constraint.value.0 != child.value.0 {
        return Err(SchemaDiffers(id));
      }
      if columnCount == 0 || |childColumns| != columnCount {
        return Err(ColumnCount(id, |childColumns|, columnCount));
      }
      var rules := DecodeInnoDBForeignKeyRules(flags);
      if rules.None? {
        return Err(BadRules(id, flags));
      }
      SplitIsJoinUndone(id, constraint.value.0, constraint.value.1);
      SplitIsJoinUndone(forName, child.value.0, child.value.1);
      SplitIsJoinUndone(refName, parent.value.0, parent.value.1);
      RulesAreFlagsUndone(flags, rules.value.0, rules.value.1);
      var key := ForeignKeys.ForeignKey(
        constraint.value.1, child.value.0, child.value.1, childColumns,
        parent.value.0, parent.value.1, parentColumns, rules.value.0, rules.value.1, true);
      assert RowsOf(key) == Rows();
      return Ok(key);
    }
  }

  lemma ListExtends(keys: seq<ForeignKey>, key: ForeignKey)
    requires StorableList(keys) && Storable(key)
    requires keys != [] ==> Identifier(keys[|keys| - 1]) != Identifier(key)
    ensures StorableList(keys + [key])
    ensures Grouping.Concat(GroupsOf(keys + [key])) == Grouping.Concat(GroupsOf(keys)) + RowsOf(key)
  {
    assert GroupsOf(keys + [key]) == GroupsOf(keys) + [RowsOf(key)];
    Grouping.ConcatOne(GroupsOf(keys), RowsOf(key));
  }

  /** The group in progress stands for the rows since the last closed constraint. */
  ghost predicate InProgress(keys: seq<ForeignKey>, group: Group, rows: seq<Row>)
    reads group
  {
    && group.Valid() && rows != [] && group.childColumns != []
    && StorableList(keys)
    && (keys != [] ==> Identifier(keys[|keys| - 1]) != group.id)
    && rows == Grouping.Concat(GroupsOf(keys)) + group.Rows()
  }

  /** The faults of a finished group are those read off its last row. */
  lemma LastRowTells(keys: seq<ForeignKey>, group: Group, rows: seq<Row>)
    requires InProgress(keys, group, rows)
    ensures var last := rows[|rows| - 1];
            && last.id == group.id && SameScalars(last, group.Scalars())
            && last.position == group.nextPosition - 1
            && GroupFault(last, last.position) == GroupFault(group.Scalars(), |group.childColumns|)
  {
    assert rows[|rows| - 1] == group.Rows()[|group.childColumns| - 1];
  }

  /** The fault of the next row, in terms of the group in progress. */
  lemma NextRowFault(keys: seq<ForeignKey>, group: Group, rows: seq<Row>, broken: bool, i: nat)
    requires 0 < i < |rows| && InProgress(keys, group, rows[..i])
    ensures Starts(rows, i) <==> rows[i].id != group.id
    ensures FaultAt(rows, broken, i) ==
            var closing := GroupFault(group.Scalars(), |group.childColumns|);
            var want := if rows[i].id == group.id then group.nextPosition else 1;
            if rows[i].id != group.id && closing.Some? then closing
            else if rows[i].id == group.id && !SameScalars(group.Scalars(), rows[i]) then
              Some(InconsistentScalars(rows[i].id))
            else if rows[i].position != want then Some(BadPosition(rows[i].id, rows[i].position, want))
            else None
  {
    LastRowTells(keys, group, rows[..i]);
  }

  method ScanInnoDBForeignKeys(delivery: Delivery<Row>) returns (r: Result<seq<ForeignKey>, ScanError>)
    ensures r.Ok? <==> CleanUpTo(delivery.rows, delivery.broken, |delivery.rows| + 1)
    ensures r.Err? ==> exists i :: && 0 <= i <= |delivery.rows|
                                   && CleanUpTo(delivery.rows, delivery.broken, i)
                                   && FaultAt(delivery.rows, delivery.broken, i) == Some(r.error)
    ensures r.Ok? ==> Lists(r.value, delivery.rows)
    ensures forall keys :: Lists(keys, delivery.rows) && !delivery.broken ==> r == Ok(keys)
  {
    var rows, broken := delivery.rows, delivery.broken;
    r := Scan(rows, broken);
    forall keys | Lists(keys, rows) && !broken
      ensures r == Ok(keys)
    {
      ListingIsClean(keys, rows);
      ListingIsInjective(keys, r.value, rows);
    }
  }

  /** Closes the group in progress: its constraint joins the list, which then covers all its rows. */
  method Close(keys: seq<ForeignKey>, group: Group, ghost rows: seq<Row>)
    returns (r: Result<seq<ForeignKey>, ScanError>)
    requires InProgress(keys, group, rows)
    ensures r.Ok? <==> GroupFault(group.Scalars(), |group.childColumns|).None?
    ensures r.Err? ==> GroupFault(group.Scalars(), |group.childColumns|) == Some(r.error)
    ensures r.Ok? ==> Lists(r.value, rows) && r.value != [] && Identifier(r.value[|r.value| - 1]) == group.id
  {
    var key := group.ForeignKey();
    if key.Err? {
      return Err(key.error);
    }
    ListExtends(keys, key.value);
    return Ok(keys + [key.value]);
  }

  /**
  Reads row `i`: closes the group in progress when the identifier changes, then appends
  the row to the current one.
  */
  method ReadRow(rows: seq<Row>, ghost broken: bool, i: nat, keys: seq<ForeignKey>, current: Group?)
    returns (r: Result<(seq<ForeignKey>, Group), ScanError>)
    requires i < |rows|
    requires current == null <==> i == 0
    requires if current == null then keys == [] else InProgress(keys, current, rows[..i])
    modifies current
    ensures r.Err? ==> FaultAt(rows, broken, i) == Some(r.error)
    ensures r.Ok? ==> FaultAt(rows, broken, i).None?
    ensures r.Ok? ==> (r.value.1 == current || fresh(r.value.1)) && InProgress(r.value.0, r.value.1, rows[..i + 1])
  {
    var row := rows[i];
    assert rows[..i + 1] == rows[..i] + [row];
    if current != null {
      NextRowFault(keys, current, rows, broken, i);
    }
    var keys', group := keys, current;
    if current == null || current.id != row.id {
      if current != null {
        var closed := Close(keys, current, rows[..i]);
        if closed.Err? {
          return Err(closed.error);
        }
        keys' := closed.value;
      }
      group := new Group(row);
    }
    if !SameScalars(group.Scalars(), row) {
      return Err(InconsistentScalars(row.id));
    }
    if row.position != group.nextPosition {
      return Err(BadPosition(row.id, row.position, group.nextPosition));
    }
    group.Append(row);
    return Ok((keys', group));
  }

  /** The fault after the last row, in terms of the group in progress. */
  lemma EndFault(keys: seq<ForeignKey>, current: Group?, rows: seq<Row>, broken: bool)
    requires current == null <==> rows == []
    requires current == null ==> keys == []
    requires current != null ==> InProgress(keys, current, rows)
    ensures FaultAt(rows, broken, |rows|) ==
            if broken then Some(Iteration)
            else if current == null then None
            else GroupFault(current.Scalars(), |current.childColumns|)
    ensures current == null ==> Lists([], rows)
  {
    if current != null {
      LastRowTells(keys, current, rows);
    }
  }

  method Scan(rows: seq<Row>, broken: bool) returns (r: Result<seq<ForeignKey>, ScanError>)
    ensures r.Ok? <==> CleanUpTo(rows, broken, |rows| + 1)
    ensures r.Err? ==>
              exists i :: 0 <= i <= |rows| && CleanUpTo(rows, broken, i) && FaultAt(rows, broken, i) == Some(r.error)
    ensures r.Ok? ==> Lists(r.value, rows)
  {
    hide FaultAt, GroupFault, InProgress, Lists;
    var keys: seq<ForeignKey> := [];
    var current: Group? := null;
    for i := 0 to |rows|
      invariant current == null <==> i == 0
      invariant current == null ==> keys == []
      invariant current != null ==> fresh(current) && InProgress(keys, current, rows[..i])
      invariant CleanUpTo(rows, broken, i)
    {
      var step := ReadRow(rows, broken, i, keys, current);
      if step.Err? {
        return Err(step.error);
      }
      keys, current := step.value.0, step.value.1;
    }
    assert rows[..|rows|] == rows;
    EndFault(keys, current, rows, broken);
    if broken {
      return Err(Iteration);
    }
    if current != null {
      var closed := Close(keys, current, rows);
      if closed.Err? {
        return Err(closed.error);
      }
      keys := closed.value;
    }
    return Ok(keys);
  }
}
