/** Supporting indexes of the fallback source, read in batches into one shared accumulator. */
module FallbackIndexes {
  import opened Outcomes
  import opened Lists
  import opened ForeignKeys
  import Statements

  datatype TableIdentity = TableIdentity(schema: string, table: string)

  /** One index part; a functional part has no column name. */
  datatype IndexRow = IndexRow(schema: string, table: string, index: string, column: Option<string>, position: nat)
  {
    function Identity(): TableIdentity {
      TableIdentity(schema, table)
    }

    /** A functional part keeps its slot under a name no column has. */
    function Name(): string {
      if column.Some? then column.value else ""
    }
  }

  datatype ReadError = BadPosition(index: string, have: nat, want: nat) | Iteration

  // ---------------------------------------------------------------------------
  // What a list of index rows says, index by index.

  predicate Belongs(row: IndexRow, id: TableIdentity, index: string) {
    row.Identity() == id && row.index == index
  }

  /** The rows of one index, in the order they arrive. */
  function Parts(rows: seq<IndexRow>, id: TableIdentity, index: string): seq<IndexRow> {
    if rows == [] then
      []
    else
      var last := rows[|rows| - 1];
      Parts(rows[..|rows| - 1], id, index) + if Belongs(last, id, index) then [last] else []
  }

  function Names(parts: seq<IndexRow>): (names: seq<string>)
    ensures |names| == |parts|
    ensures forall i :: 0 <= i < |names| ==> names[i] == parts[i].Name()
  {
    seq(|parts|, i requires 0 <= i < |parts| => parts[i].Name())
  }

  predicate Dense(parts: seq<IndexRow>) {
    forall i :: 0 <= i < |parts| ==> parts[i].position == i + 1
  }

  /** Every index's parts arrive numbered from one without gaps. */
  ghost predicate AllDense(rows: seq<IndexRow>) {
    forall id, index :: Dense(Parts(rows, id, index))
  }

  lemma {:induction false} PartsAppend(left: seq<IndexRow>, right: seq<IndexRow>, id: TableIdentity, index: string)
    ensures Parts(left + right, id, index) == Parts(left, id, index) + Parts(right, id, index)
  {
    if right == [] {
      assert left + right == left;
    } else {
      var n := |right| - 1;
      assert (left + right)[..|left + right| - 1] == left + right[..n];
      PartsAppend(left, right[..n], id, index);
    }
  }

  lemma PartsOfNext(rows: seq<IndexRow>, last: IndexRow, id: TableIdentity, index: string)
    ensures Parts(rows + [last], id, index) == Parts(rows, id, index) + if Belongs(last, id, index) then [last] else []
  {
    assert (rows + [last])[..|rows|] == rows;
  }

  lemma {:induction false} PartsBelong(rows: seq<IndexRow>, id: TableIdentity, index: string)
    ensures forall row :: row in Parts(rows, id, index) <==> row in rows && Belongs(row, id, index)
  {
    if rows == [] {
    } else {
      PartsBelong(rows[..|rows| - 1], id, index);
      assert rows == rows[..|rows| - 1] + [rows[|rows| - 1]];
    }
  }

  // ---------------------------------------------------------------------------
  // The accumulator.

  type Indexes = map<TableIdentity, map<string, seq<string>>>

  function Columns(indexes: Indexes, id: TableIdentity, index: string): seq<string> {
    if id in indexes && index in indexes[id] then indexes[id][index] else []
  }

  /** `indexes` is exactly what `rows` says: every index under its table, with its columns. */
  ghost predicate Gathers(indexes: Indexes, rows: seq<IndexRow>) {
    && (forall id, index :: GathersIndex(indexes, rows, id, index))
    && NothingEmpty(indexes)
  }

  /** A table or an index is present only when something was read for it. */
  ghost predicate NothingEmpty(indexes: Indexes) {
    && (forall id :: id in indexes ==> indexes[id] != map[])
    && (forall id, index :: id in indexes && index in indexes[id] ==> indexes[id][index] != [])
  }

  lemma GatheredIsDense(indexes: Indexes, rows: seq<IndexRow>)
    requires Gathers(indexes, rows)
    ensures AllDense(rows)
  {
    forall id, index
      ensures Dense(Parts(rows, id, index))
    {
      assert GathersIndex(indexes, rows, id, index);
    }
  }

  /** The rows determine the accumulated map. */
  lemma GatheringIsUnique(a: Indexes, b: Indexes, rows: seq<IndexRow>, rows': seq<IndexRow>)
    requires Gathers(a, rows) && Gathers(b, rows')
    requires forall id, index :: Parts(rows, id, index) == Parts(rows', id, index)
    ensures a == b
  {
    GatheredWithin(a, b, rows, rows');
    GatheredWithin(b, a, rows', rows);
    forall id | id in a
      ensures a[id] == b[id]
    {
      forall index | index in a[id]
        ensures a[id][index] == b[id][index]
      {
        assert GathersIndex(a, rows, id, index) && GathersIndex(b, rows', id, index);
      }
      assert a[id].Keys == b[id].Keys;
    }
    assert a.Keys == b.Keys;
  }

  lemma GatheredWithin(a: Indexes, b: Indexes, rows: seq<IndexRow>, rows': seq<IndexRow>)
    requires Gathers(a, rows) && Gathers(b, rows')
    requires forall id, index :: Parts(rows, id, index) == Parts(rows', id, index)
    ensures a.Keys <= b.Keys
    ensures forall id :: id in a ==> a[id].Keys <= b[id].Keys
  {
    forall id | id in a
      ensures id in b && a[id].Keys <= b[id].Keys
    {
      forall index | index in a[id]
        ensures id in b && index in b[id]
      {
        assert GathersIndex(a, rows, id, index) && GathersIndex(b, rows', id, index);
      }
      var index :| index in a[id];
    }
  }

  /** The error of a row that does not continue its index, given the rows before it. */
  function GapError(rows: seq<IndexRow>, row: IndexRow): Option<ReadError> {
    var have := |Parts(rows, row.Identity(), row.index)|;
    if row.position == have + 1 then None else Some(BadPosition(row.index, row.position, have + 1))
  }

  /** The error names the first row that does not continue its index. */
  ghost predicate FirstGap(before: seq<IndexRow>, rows: seq<IndexRow>, error: ReadError) {
    exists i :: 0 <= i < |rows| && AllDense(before + rows[..i]) && GapError(before + rows[..i], rows[i]) == Some(error)
  }

  lemma GapFound(indexes: Indexes, before: seq<IndexRow>, rows: seq<IndexRow>, i: nat)
    requires i < |rows| && Gathers(indexes, before + rows[..i])
    requires rows[i].position != |Columns(indexes, rows[i].Identity(), rows[i].index)| + 1
    ensures !AllDense(before + rows)
    ensures FirstGap(before, rows, BadPosition(rows[i].index, rows[i].position,
                                               |Columns(indexes, rows[i].Identity(), rows[i].index)| + 1))
  {
    var sofar, row := before + rows[..i], rows[i];
    assert GathersIndex(indexes, sofar, row.Identity(), row.index);
    GatheredIsDense(indexes, sofar);
    GapIsNotDense(sofar, row, rows[i + 1..]);
    assert sofar + [row] + rows[i + 1..] == before + rows;
  }

  class IndexAccumulator {
    var indexes: Indexes

    constructor ()
      ensures indexes == map[] && Gathers(indexes, [])
    {
      indexes := map[];
    }

    /** Reads one batch. On success the accumulator has gathered the new rows after the earlier ones. */
    method ReadFallbackIndexes(delivery: Delivery<IndexRow>, ghost before: seq<IndexRow>)
      returns (r: Result<(), ReadError>)
      requires Gathers(indexes, before)
      modifies this
      ensures r.Ok? <==> !delivery.broken && AllDense(before + delivery.rows)
      ensures r.Ok? ==> Gathers(indexes, before + delivery.rows)
      ensures r.Err? && AllDense(before + delivery.rows) ==> r.error == Iteration
      ensures r.Err? && !AllDense(before + delivery.rows) ==> FirstGap(before, delivery.rows, r.error)
    {
      var rows := delivery.rows;
      assert before + rows[..0] == before;
      for i := 0 to |rows|
        invariant Gathers(indexes, before + rows[..i])
      {
        var row := rows[i];
        ghost var sofar := before + rows[..i];
        assert before + rows[..i + 1] == sofar + [row];
        var id := row.Identity();
        var columns := Columns(indexes, id, row.index);
        assert GathersIndex(indexes, sofar, id, row.index);
        if row.position != |columns| + 1 {
          GapFound(indexes, before, rows, i);
          return Err(BadPosition(row.index, row.position, |columns| + 1));
        }
        GathersNext(indexes, sofar, row);
        var byName := if id in indexes then indexes[id] else map[];
        indexes := indexes[id := byName[row.index := columns + [row.Name()]]];
      }
      assert rows[..|rows|] == rows;
      GatheredIsDense(indexes, before + rows);
      r := if delivery.broken then Err(Iteration) else Ok(());
    }
  }

  /** The accumulator after one more row. */
  function WithRow(indexes: Indexes, row: IndexRow): Indexes {
    var id := row.Identity();
    var byName := if id in indexes then indexes[id] else map[];
    indexes[id := byName[row.index := Columns(indexes, id, row.index) + [row.Name()]]]
  }

  /** One index, gathered completely. */
  ghost predicate GathersIndex(indexes: Indexes, rows: seq<IndexRow>, id: TableIdentity, index: string) {
    Dense(Parts(rows, id, index)) && Columns(indexes, id, index) == Names(Parts(rows, id, index))
  }

  lemma GathersIndexNext(indexes: Indexes, rows: seq<IndexRow>, row: IndexRow, id: TableIdentity, index: string)
    requires GathersIndex(indexes, rows, id, index)
    requires Belongs(row, id, index) ==> row.position == |Parts(rows, id, index)| + 1
    ensures GathersIndex(WithRow(indexes, row), rows + [row], id, index)
  {
    hide Parts, Columns, WithRow, Belongs;
    PartsOfNext(rows, row, id, index);
    ColumnsUpdated(indexes, row, id, index);
    assert Names(Parts(rows, id, index) + [row]) == Names(Parts(rows, id, index)) + [row.Name()];
  }

  lemma GathersNext(indexes: Indexes, rows: seq<IndexRow>, row: IndexRow)
    requires Gathers(indexes, rows)
    requires row.position == |Parts(rows, row.Identity(), row.index)| + 1
    ensures Gathers(WithRow(indexes, row), rows + [row])
  {
    var all := rows + [row];
    var next := WithRow(indexes, row);
    forall id, index
      ensures GathersIndex(next, all, id, index)
    {
      assert GathersIndex(indexes, rows, id, index);
      GathersIndexNext(indexes, rows, row, id, index);
    }
    NothingEmptyUpdated(indexes, row);
  }

  lemma NothingEmptyUpdated(indexes: Indexes, row: IndexRow)
    requires NothingEmpty(indexes)
    ensures NothingEmpty(WithRow(indexes, row))
  {
    assert row.index in WithRow(indexes, row)[row.Identity()];
  }

  lemma ColumnsUpdated(indexes: Indexes, row: IndexRow, id: TableIdentity, index: string)
    ensures Columns(WithRow(indexes, row), id, index) ==
            if Belongs(row, id, index) then Columns(indexes, id, index) + [row.Name()] else Columns(indexes, id, index)
  {
  }

  /** A gap cannot be filled by later rows. */
  lemma GapIsNotDense(rows: seq<IndexRow>, row: IndexRow, later: seq<IndexRow>)
    requires row.position != |Parts(rows, row.Identity(), row.index)| + 1
    ensures !AllDense(rows + [row] + later)
  {
    var id := row.Identity();
    PartsOfNext(rows, row, id, row.index);
    PartsAppend(rows + [row], later, id, row.index);
    var parts := Parts(rows + [row] + later, id, row.index);
    var n := |Parts(rows, id, row.index)|;
    assert parts[n] == row;
    assert !Dense(parts);
  }

  // ---------------------------------------------------------------------------
  // Leftmost-prefix support.

  method ForeignKeyColumnsIndexed(columns: seq<string>, indexes: seq<seq<string>>) returns (indexed: bool)
    ensures indexed <==> columns != [] && exists index :: index in indexes && columns <= index
  {
    if |columns| == 0 {
      return false;
    }
    for k := 0 to |indexes|
      invariant forall j :: 0 <= j < k ==> !(columns <= indexes[j])
    {
      var index := indexes[k];
      if |index| < |columns| {
        continue;
      }
      var matches := true;
      var position := 0;
      while position < |columns|
        invariant 0 <= position <= |columns|
        invariant matches ==> columns[..position] == index[..position]
        invariant !matches ==> !(columns <= index)
      {
        if index[position] != columns[position] {
          matches := false;
          break;
        }
        position := position + 1;
      }
      if matches {
        assert columns[..|columns|] == columns;
        assert index in indexes && columns <= index;
        return true;
      }
    }
    return false;
  }

  /** Some index on the constraint's child table starts with its child columns. */
  ghost predicate Supported(key: ForeignKey, rows: seq<IndexRow>) {
    && key.childColumns != []
    && exists index :: key.childColumns <= Names(Parts(rows, TableIdentity(key.childSchema, key.childTable), index))
  }

  /** There is a row for every column, at the column's place in the index. */
  predicate LeadingParts(schema: string, table: string, index: string, columns: seq<string>, rows: seq<IndexRow>) {
    forall c :: 0 <= c < |columns| ==> IndexRow(schema, table, index, Some(columns[c]), c + 1) in rows
  }

  /** What support means row by row: one index whose first parts are the columns, in order. */
  lemma SupportedByRows(key: ForeignKey, rows: seq<IndexRow>)
    requires AllDense(rows) && "" !in key.childColumns
    ensures Supported(key, rows) <==>
            && key.childColumns != []
            && exists index :: LeadingParts(key.childSchema, key.childTable, index, key.childColumns, rows)
  {
    var id, columns := TableIdentity(key.childSchema, key.childTable), key.childColumns;
    forall index
      ensures columns <= Names(Parts(rows, id, index)) <==>
              LeadingParts(key.childSchema, key.childTable, index, columns, rows)
    {
      LeadingPartsByRows(key.childSchema, key.childTable, columns, rows, index);
    }
  }

  lemma LeadingPartsByRows(schema: string, table: string, columns: seq<string>, rows: seq<IndexRow>, index: string)
    requires AllDense(rows) && "" !in columns
    ensures columns <= Names(Parts(rows, TableIdentity(schema, table), index)) <==>
            LeadingParts(schema, table, index, columns, rows)
  {
    var id := TableIdentity(schema, table);
    var parts := Parts(rows, id, index);
    PartsBelong(rows, id, index);
    assert Dense(parts);
    if columns <= Names(parts) {
      FunctionalPartsNeverMatch(columns, parts);
      forall c | 0 <= c < |columns|
        ensures IndexRow(schema, table, index, Some(columns[c]), c + 1) in rows
      {
        assert parts[c] in parts && parts[c] == IndexRow(schema, table, index, Some(columns[c]), c + 1);
      }
    }
    if LeadingParts(schema, table, index, columns, rows) {
      forall c | 0 <= c < |columns|
        ensures c < |parts| && columns[c] == Names(parts)[c]
      {
        var row := IndexRow(schema, table, index, Some(columns[c]), c + 1);
        assert row in parts;
        var p :| 0 <= p < |parts| && parts[p] == row;
        assert parts[p].position == p + 1;
      }
      if columns != [] {
        var last := |columns| - 1;
        assert IndexRow(schema, table, index, Some(columns[last]), last + 1) in rows;
        assert last < |parts|;
      }
      LeadsWhenAgrees(columns, Names(parts));
    }
  }

  lemma LeadsWhenAgrees(columns: seq<string>, names: seq<string>)
    requires |columns| <= |names| && forall c :: 0 <= c < |columns| ==> columns[c] == names[c]
    ensures columns <= names
  {
    assert columns == names[..|columns|];
  }

  /** A row is refused exactly when its number is not one more than its index has rows so far. */
  lemma GapsByPosition(rows: seq<IndexRow>, row: IndexRow)
    ensures var have := |Parts(rows, TableIdentity(row.schema, row.table), row.index)|;
            GapError(rows, row) ==
            if row.position == have + 1 then None else Some(BadPosition(row.index, row.position, have + 1))
    ensures forall id, index :: Parts(rows + [row], id, index) == Parts(rows, id, index) +
              if row.schema == id.schema && row.table == id.table && row.index == index then [row] else []
  {
    forall id, index
      ensures Parts(rows + [row], id, index) == Parts(rows, id, index) +
              if row.schema == id.schema && row.table == id.table && row.index == index then [row] else []
    {
      PartsOfNext(rows, row, id, index);
    }
  }

  /** A functional part holds its slot and never stands for a column of a foreign key. */
  lemma FunctionalPartsNeverMatch(columns: seq<string>, parts: seq<IndexRow>)
    requires "" !in columns && columns <= Names(parts)
    ensures forall i :: 0 <= i < |columns| ==> parts[i].column == Some(columns[i])
  {
    forall i | 0 <= i < |columns|
      ensures parts[i].column == Some(columns[i])
    {
      assert columns[i] == Names(parts)[i];
    }
  }

  method Candidates(byName: map<string, seq<string>>) returns (candidates: seq<seq<string>>)
    ensures forall c :: c in candidates <==> exists index :: index in byName && byName[index] == c
  {
    candidates := [];
    var remaining := byName.Keys;
    while remaining != {}
      invariant remaining <= byName.Keys
      invariant forall c :: c in candidates <==>
                exists index :: index in byName && index !in remaining && byName[index] == c
      decreases |remaining|
    {
      var index :| index in remaining;
      remaining := remaining - {index};
      candidates := candidates + [byName[index]];
    }
  }

  ghost predicate CandidatesOf(candidates: map<TableIdentity, seq<seq<string>>>, indexes: Indexes, id: TableIdentity)
    requires id in candidates && id in indexes
  {
    forall c :: c in candidates[id] <==> exists index :: index in indexes[id] && indexes[id][index] == c
  }

  method CandidatesByTable(indexes: Indexes) returns (candidates: map<TableIdentity, seq<seq<string>>>)
    ensures candidates.Keys == indexes.Keys
    ensures forall id :: id in indexes ==> CandidatesOf(candidates, indexes, id)
  {
    candidates := map[];
    var remaining := indexes.Keys;
    while remaining != {}
      invariant remaining <= indexes.Keys
      invariant candidates.Keys == indexes.Keys - remaining
      invariant forall id :: id in candidates ==> CandidatesOf(candidates, indexes, id)
      decreases |remaining|
    {
      var id :| id in remaining;
      remaining := remaining - {id};
      var ofTable := Candidates(indexes[id]);
      candidates := candidates[id := ofTable];
    }
  }

  // ---------------------------------------------------------------------------
  // Batches.

  const BATCH := Statements.MAX_STATEMENT_PARAMETERS / 2

  /** What the server answers to one batch of pairs. */
  type Answer = seq<TableIdentity> -> Delivery<IndexRow>

  function FirstBatch(pairs: seq<TableIdentity>): (n: nat)
    ensures n <= |pairs| && n <= BATCH && (pairs != [] ==> n > 0)
  {
    if |pairs| < BATCH then |pairs| else BATCH
  }

  /** A statement takes as many pairs as its parameters allow, two each, and never more than are left. */
  lemma BatchSize(pairs: seq<TableIdentity>)
    ensures FirstBatch(pairs) == if |pairs| <= 32767 then |pairs| else 32767
  {
  }

  /** All rows read, batch after batch. */
  function ReadRows(pairs: seq<TableIdentity>, answer: Answer): seq<IndexRow>
    decreases |pairs|
  {
    if pairs == [] then
      []
    else
      var n := FirstBatch(pairs);
      answer(pairs[..n]).rows + ReadRows(pairs[n..], answer)
  }

  predicate AnyBroken(pairs: seq<TableIdentity>, answer: Answer)
    decreases |pairs|
  {
    pairs != [] &&
    var n := FirstBatch(pairs);
    answer(pairs[..n]).broken || AnyBroken(pairs[n..], answer)
  }

  /**
  The server answers from one snapshot: for each requested pair all of its index rows,
  each index in its own order, and nothing for other pairs. How indexes interleave is free.
  */
  ghost predicate Honest(answer: Answer, stored: seq<IndexRow>) {
    forall batch :: HonestFor(answer, stored, batch)
  }

  ghost predicate HonestFor(answer: Answer, stored: seq<IndexRow>, batch: seq<TableIdentity>) {
    && !answer(batch).broken
    && forall id, index ::
         Parts(answer(batch).rows, id, index) == if id in batch then Parts(stored, id, index) else []
  }

  /** Splitting distinct pairs into batches reads every index as one statement would. */
  lemma {:induction false} BatchingChangesNothing(pairs: seq<TableIdentity>, answer: Answer, stored: seq<IndexRow>,
                                                  id: TableIdentity, index: string)
    requires Honest(answer, stored) && Unrepeated(pairs)
    ensures Parts(ReadRows(pairs, answer), id, index) == Parts(answer(pairs).rows, id, index)
    ensures !AnyBroken(pairs, answer)
    decreases |pairs|
  {
    assert HonestFor(answer, stored, pairs);
    if pairs == [] {
      assert Parts([], id, index) == [];
    } else {
      var n := FirstBatch(pairs);
      var first, rest := pairs[..n], pairs[n..];
      assert pairs == first + rest;
      assert HonestFor(answer, stored, first) && HonestFor(answer, stored, rest);
      BatchingChangesNothing(rest, answer, stored, id, index);
      PartsAppend(answer(first).rows, ReadRows(rest, answer), id, index);
      assert id in first ==> id !in rest;
    }
  }

  /** The map accumulated over batches is the map a single statement would have given. */
  lemma BatchedMapIsSingleMap(pairs: seq<TableIdentity>, answer: Answer, stored: seq<IndexRow>, batched: Indexes,
                              single: Indexes)
    requires Honest(answer, stored) && Unrepeated(pairs)
    requires Gathers(batched, ReadRows(pairs, answer)) && Gathers(single, answer(pairs).rows)
    ensures batched == single
  {
    forall id, index
      ensures Parts(ReadRows(pairs, answer), id, index) == Parts(answer(pairs).rows, id, index)
    {
      BatchingChangesNothing(pairs, answer, stored, id, index);
    }
    GatheringIsUnique(batched, single, ReadRows(pairs, answer), answer(pairs).rows);
  }

  function ChildTables(keys: seq<ForeignKey>): (ids: seq<TableIdentity>)
    ensures |ids| == |keys|
    ensures forall i :: 0 <= i < |keys| ==> ids[i] == TableIdentity(keys[i].childSchema, keys[i].childTable)
  {
    seq(|keys|, i requires 0 <= i < |keys| => TableIdentity(keys[i].childSchema, keys[i].childTable))
  }

  /** The distinct child tables of the constraints, in order of first occurrence. */
  function PairsOf(keys: seq<ForeignKey>): (pairs: seq<TableIdentity>)
  {
    Statements.Distinct(ChildTables(keys))
  }

  lemma PairsAreDistinct(keys: seq<ForeignKey>)
    ensures Unrepeated(PairsOf(keys))
    ensures forall key :: key in keys ==> TableIdentity(key.childSchema, key.childTable) in PairsOf(keys)
  {
    var ids := ChildTables(keys);
    forall i, j | 0 <= i < j < |PairsOf(keys)|
      ensures PairsOf(keys)[i] != PairsOf(keys)[j]
    {
      Statements.DistinctOrder(ids, i, j);
    }
    forall key | key in keys
      ensures TableIdentity(key.childSchema, key.childTable) in PairsOf(keys)
    {
      var i :| 0 <= i < |keys| && keys[i] == key;
      assert ids[i] in ids;
    }
  }

  lemma PairsOfNext(keys: seq<ForeignKey>, i: nat)
    requires i < |keys|
    ensures var pair := TableIdentity(keys[i].childSchema, keys[i].childTable);
            PairsOf(keys[..i + 1]) == PairsOf(keys[..i]) + if pair in PairsOf(keys[..i]) then [] else [pair]
  {
    var ids := ChildTables(keys[..i + 1]);
    var before := ChildTables(keys[..i]);
    assert ids[..i] == before;
    assert ids == before + [ids[i]];
  }

  method CollectPairs(keys: seq<ForeignKey>) returns (pairs: seq<TableIdentity>)
    ensures pairs == PairsOf(keys)
  {
    pairs := [];
    var seen: set<TableIdentity> := {};
    for i := 0 to |keys|
      invariant pairs == PairsOf(keys[..i])
      invariant forall pair :: pair in seen <==> pair in pairs
    {
      var pair := TableIdentity(keys[i].childSchema, keys[i].childTable);
      PairsOfNext(keys, i);
      if pair in seen {
        continue;
      }
      seen := seen + {pair};
      pairs := pairs + [pair];
    }
    assert keys[..|keys|] == keys;
  }

  /** One more batch taken off the front. */
  lemma NextBatch(pairs: seq<TableIdentity>, start: nat, end: nat, answer: Answer)
    requires start < |pairs| && end == if start + BATCH < |pairs| then start + BATCH else |pairs|
    ensures ReadRows(pairs[start..], answer) == answer(pairs[start..end]).rows + ReadRows(pairs[end..], answer)
    ensures AnyBroken(pairs[start..], answer) == (answer(pairs[start..end]).broken || AnyBroken(pairs[end..], answer))
  {
    var rest := pairs[start..];
    assert FirstBatch(rest) == end - start;
    assert rest[..end - start] == pairs[start..end] && rest[end - start..] == pairs[end..];
  }

  /** The batches before `start` are read, the others are still to come. */
  ghost predicate ReadSoFar(pairs: seq<TableIdentity>, start: nat, answer: Answer, read: seq<IndexRow>) {
    && start <= |pairs|
    && read + ReadRows(pairs[start..], answer) == ReadRows(pairs, answer)
    && AnyBroken(pairs[start..], answer) == AnyBroken(pairs, answer)
  }

  lemma ReadNextBatch(pairs: seq<TableIdentity>, start: nat, end: nat, answer: Answer, read: seq<IndexRow>)
    requires ReadSoFar(pairs, start, answer, read) && start < |pairs|
    requires end == if start + BATCH < |pairs| then start + BATCH else |pairs|
    ensures var delivery := answer(pairs[start..end]);
            if delivery.broken then AnyBroken(pairs, answer)
            else
              && ReadSoFar(pairs, end, answer, read + delivery.rows)
              && (AllDense(ReadRows(pairs, answer)) ==> AllDense(read + delivery.rows))
  {
    NextBatch(pairs, start, end, answer);
    var delivery := answer(pairs[start..end]);
    var later := ReadRows(pairs[end..], answer);
    assert read + (delivery.rows + later) == (read + delivery.rows) + later;
    PrefixDense(read + delivery.rows, later);
  }

  /** The failure of the first batch that cannot be read, given the rows of the batches before it. */
  ghost predicate FailsWith(pairs: seq<TableIdentity>, answer: Answer, read: seq<IndexRow>, error: ReadError)
    decreases |pairs|
  {
    pairs != [] &&
    var n := FirstBatch(pairs);
    var delivery := answer(pairs[..n]);
    if !AllDense(read + delivery.rows) then FirstGap(read, delivery.rows, error)
    else if delivery.broken then error == Iteration
    else FailsWith(pairs[n..], answer, read + delivery.rows, error)
  }

  lemma FailsInBatch(pairs: seq<TableIdentity>, start: nat, end: nat, answer: Answer, read: seq<IndexRow>,
                     error: ReadError)
    requires start < |pairs| && end == if start + BATCH < |pairs| then start + BATCH else |pairs|
    ensures var delivery := answer(pairs[start..end]);
            FailsWith(pairs[start..], answer, read, error) <==>
            if !AllDense(read + delivery.rows) then FirstGap(read, delivery.rows, error)
            else if delivery.broken then error == Iteration
            else FailsWith(pairs[end..], answer, read + delivery.rows, error)
  {
    var rest := pairs[start..];
    assert FirstBatch(rest) == end - start;
    assert rest[..end - start] == pairs[start..end] && rest[end - start..] == pairs[end..];
  }

  /** Reads all batches into one accumulator. */
  method ReadAllBatches(pairs: seq<TableIdentity>, answer: Answer) returns (r: Result<Indexes, ReadError>)
    ensures r.Ok? <==> !AnyBroken(pairs, answer) && AllDense(ReadRows(pairs, answer))
    ensures r.Ok? ==> Gathers(r.value, ReadRows(pairs, answer))
    ensures r.Err? ==> FailsWith(pairs, answer, [], r.error)
  {
    hide AllDense, FirstGap, FailsWith, Gathers;
    var accumulator := new IndexAccumulator();
    ghost var read: seq<IndexRow> := [];
    var start := 0;
    assert pairs[0..] == pairs && [] + ReadRows(pairs, answer) == ReadRows(pairs, answer);
    while start < |pairs|
      invariant fresh(accumulator) && Gathers(accumulator.indexes, read)
      invariant ReadSoFar(pairs, start, answer, read)
      invariant forall error :: FailsWith(pairs[start..], answer, read, error) ==> FailsWith(pairs, answer, [], error)
    {
      var end := if start + BATCH < |pairs| then start + BATCH else |pairs|;
      var delivery := answer(pairs[start..end]);
      ReadNextBatch(pairs, start, end, answer, read);
      forall error
        ensures FailsWith(pairs[start..], answer, read, error) <==>
                if !AllDense(read + delivery.rows) then FirstGap(read, delivery.rows, error)
                else if delivery.broken then error == Iteration
                else FailsWith(pairs[end..], answer, read + delivery.rows, error)
      {
        FailsInBatch(pairs, start, end, answer, read, error);
      }
      var step := accumulator.ReadFallbackIndexes(delivery, read);
      if step.Err? {
        return Err(step.error);
      }
      read := read + delivery.rows;
      start := end;
    }
    assert pairs[start..] == [] && read + [] == read;
    GatheredIsDense(accumulator.indexes, read);
    return Ok(accumulator.indexes);
  }

  lemma PrefixDense(rows: seq<IndexRow>, later: seq<IndexRow>)
    ensures AllDense(rows + later) ==> AllDense(rows)
  {
    if AllDense(rows + later) {
      forall id, index
        ensures Dense(Parts(rows, id, index))
      {
        PartsAppend(rows, later, id, index);
        var all, mine := Parts(rows + later, id, index), Parts(rows, id, index);
        assert Dense(all);
        assert forall i :: 0 <= i < |mine| ==> mine[i] == all[i];
      }
    }
  }

  /** Sets every constraint's `indexed` in place; no other field changes, and none changes on error. */
  method PopulateFallbackIndexes(keys: array<ForeignKey>, answer: Answer) returns (r: Result<(), ReadError>)
    modifies keys
    ensures r.Ok? <==>
            var pairs := PairsOf(old(keys[..])); !AnyBroken(pairs, answer) && AllDense(ReadRows(pairs, answer))
    ensures r.Err? ==> keys[..] == old(keys[..]) && FailsWith(PairsOf(keys[..]), answer, [], r.error)
    ensures r.Ok? ==> forall i :: 0 <= i < keys.Length ==>
      var key := old(keys[i]);
      keys[i] == key.(indexed := Supported(key, ReadRows(PairsOf(old(keys[..])), answer)))
  {
    if keys.Length == 0 {
      assert PairsOf(keys[..]) == [];
      return Ok(());
    }
    var pairs := CollectPairs(keys[..]);
    var read := ReadAllBatches(pairs, answer);
    if read.Err? {
      return Err(read.error);
    }
    SetIndexed(keys, read.value, ReadRows(pairs, answer));
    return Ok(());
  }

  /** The last pass: each constraint against the candidate indexes of its own child table. */
  method SetIndexed(keys: array<ForeignKey>, indexes: Indexes, ghost rows: seq<IndexRow>)
    requires Gathers(indexes, rows)
    modifies keys
    ensures forall i :: 0 <= i < keys.Length ==> keys[i] == old(keys[i]).(indexed := Supported(old(keys[i]), rows))
  {
    var candidates := CandidatesByTable(indexes);
    for i := 0 to keys.Length
      invariant forall k :: i <= k < keys.Length ==> keys[k] == old(keys[k])
      invariant forall k :: 0 <= k < i ==> keys[k] == old(keys[k]).(indexed := Supported(old(keys[k]), rows))
    {
      var key := keys[i];
      var id := TableIdentity(key.childSchema, key.childTable);
      var ofTable := if id in candidates then candidates[id] else [];
      var indexed := ForeignKeyColumnsIndexed(key.childColumns, ofTable);
      SupportedByCandidates(key, indexes, candidates, rows);
      keys[i] := key.(indexed := indexed);
    }
  }

  lemma SupportedByCandidates(key: ForeignKey, indexes: Indexes, candidates: map<TableIdentity, seq<seq<string>>>,
                              rows: seq<IndexRow>)
    requires Gathers(indexes, rows)
    requires candidates.Keys == indexes.Keys
    requires forall id :: id in indexes ==> CandidatesOf(candidates, indexes, id)
    ensures var id := TableIdentity(key.childSchema, key.childTable);
            var ofTable := if id in candidates then candidates[id] else [];
            Supported(key, rows) <==> key.childColumns != [] && exists c :: c in ofTable && key.childColumns <= c
  {
    var id := TableIdentity(key.childSchema, key.childTable);
    var ofTable := if id in candidates then candidates[id] else [];
    if Supported(key, rows) {
      var index :| key.childColumns <= Names(Parts(rows, id, index));
      assert GathersIndex(indexes, rows, id, index);
      assert CandidatesOf(candidates, indexes, id);
      assert indexes[id][index] in ofTable;
    }
    if key.childColumns != [] && exists c :: c in ofTable && key.childColumns <= c {
      var c :| c in ofTable && key.childColumns <= c;
      assert CandidatesOf(candidates, indexes, id);
      var index :| index in indexes[id] && indexes[id][index] == c;
      assert GathersIndex(indexes, rows, id, index);
    }
  }
}
