/** Reading replication channels by column name, whatever the layout of the result set. */
module ReplicaStatus {
  import opened Outcomes
  import opened Lists

  /** A value as a driver delivers it. */
  datatype SqlValue =
    | Null | Text(text: string) | Bytes(bytes: seq<bv8>) | Signed(signed: int) | Unsigned(unsigned: nat) | Other

  /** The conversions out of driver values; each may refuse a value. */
  datatype Decoders = Decoders(
    str: SqlValue -> Option<string>,
    nullInt64: SqlValue -> Option<Option<int>>,
    int_: SqlValue -> Option<int>,
    uint16: SqlValue -> Option<nat>
  )

  datatype ChannelStatus = ChannelStatus(
    channelName: string,
    ioRunning: string,
    sqlRunning: string,
    secondsBehindSource: Option<int>,
    lastIOErrno: int,
    lastIOError: string,
    lastSQLErrno: int,
    lastSQLError: string,
    retrievedGTIDSet: string,
    executedGTIDSet: string,
    sourceHost: string,
    sourcePort: nat
  )

  const CHANNEL_NAME := "Channel_Name"
  const IO_RUNNING := "Replica_IO_Running"
  const SQL_RUNNING := "Replica_SQL_Running"
  const SECONDS_BEHIND := "Seconds_Behind_Source"
  const LAST_IO_ERRNO := "Last_IO_Errno"
  const LAST_IO_ERROR := "Last_IO_Error"
  const LAST_SQL_ERRNO := "Last_SQL_Errno"
  const LAST_SQL_ERROR := "Last_SQL_Error"
  const RETRIEVED_GTID_SET := "Retrieved_Gtid_Set"
  const EXECUTED_GTID_SET := "Executed_Gtid_Set"
  const SOURCE_HOST := "Source_Host"
  const SOURCE_PORT := "Source_Port"

  /** A promised column, by what it reports. */
  datatype Column =
    | ChannelName | IORunning | SQLRunning | SecondsBehind | LastIOErrno | LastIOError
    | LastSQLErrno | LastSQLError | RetrievedGTIDSet | ExecutedGTIDSet | SourceHost | SourcePort
  {
    /** The server's spelling. */
    function Name(): string {
      match this
      case ChannelName => CHANNEL_NAME
      case IORunning => IO_RUNNING
      case SQLRunning => SQL_RUNNING
      case SecondsBehind => SECONDS_BEHIND
      case LastIOErrno => LAST_IO_ERRNO
      case LastIOError => LAST_IO_ERROR
      case LastSQLErrno => LAST_SQL_ERRNO
      case LastSQLError => LAST_SQL_ERROR
      case RetrievedGTIDSet => RETRIEVED_GTID_SET
      case ExecutedGTIDSet => EXECUTED_GTID_SET
      case SourceHost => SOURCE_HOST
      case SourcePort => SOURCE_PORT
    }
  }

  /** The order in which columns are checked for and decoded. */
  const PROMISED := [
    ChannelName, IORunning, SQLRunning, SecondsBehind, LastIOErrno, LastIOError,
    LastSQLErrno, LastSQLError, RetrievedGTIDSet, ExecutedGTIDSet, SourceHost, SourcePort
  ]

  datatype Cause = MissingColumn | Undecodable | DriverFailure

  /** Channel and column are empty when a failure cannot be attributed to one. */
  datatype OpError = OpError(channel: string, column: string, cause: Cause)

  const DRIVER_FAILED := OpError("", "", DriverFailure)

  // ---------------------------------------------------------------------------
  // One row, by column.

  type Cells = Column -> SqlValue

  function Decode<T>(decoded: Option<T>, channel: string, column: Column): Result<T, OpError> {
    if decoded.Some? then Ok(decoded.value) else Err(OpError(channel, column.Name(), Undecodable))
  }

  /** The channel name decodes first, so every later failure can name its channel. */
  function DecodeChannelStatus(d: Decoders, cells: Cells): Result<ChannelStatus, OpError> {
    var name :- Decode(d.str(cells(ChannelName)), "", ChannelName);
    var io :- Decode(d.str(cells(IORunning)), name, IORunning);
    var sql :- Decode(d.str(cells(SQLRunning)), name, SQLRunning);
    var seconds :- Decode(d.nullInt64(cells(SecondsBehind)), name, SecondsBehind);
    var ioErrno :- Decode(d.int_(cells(LastIOErrno)), name, LastIOErrno);
    var ioError :- Decode(d.str(cells(LastIOError)), name, LastIOError);
    var sqlErrno :- Decode(d.int_(cells(LastSQLErrno)), name, LastSQLErrno);
    var sqlError :- Decode(d.str(cells(LastSQLError)), name, LastSQLError);
    var retrieved :- Decode(d.str(cells(RetrievedGTIDSet)), name, RetrievedGTIDSet);
    var executed :- Decode(d.str(cells(ExecutedGTIDSet)), name, ExecutedGTIDSet);
    var host :- Decode(d.str(cells(SourceHost)), name, SourceHost);
    var port :- Decode(d.uint16(cells(SourcePort)), name, SourcePort);
    Ok(ChannelStatus(name, io, sql, seconds, ioErrno, ioError, sqlErrno, sqlError, retrieved, executed, host, port))
  }

  /** Whether a value is refused in a column. */
  predicate Refused(d: Decoders, column: Column, value: SqlValue) {
    match column
    case SecondsBehind => d.nullInt64(value).None?
    case LastIOErrno => d.int_(value).None?
    case LastSQLErrno => d.int_(value).None?
    case SourcePort => d.uint16(value).None?
    case _ => d.str(value).None?
  }

  /** Position of the first refused column in promise order, if any. */
  function FirstRefused(d: Decoders, cells: Cells, k: nat): (at: nat)
    requires k <= |PROMISED|
    ensures k <= at <= |PROMISED|
    ensures at < |PROMISED| ==> Refused(d, PROMISED[at], cells(PROMISED[at]))
    ensures forall j :: k <= j < at ==> !Refused(d, PROMISED[j], cells(PROMISED[j]))
    decreases |PROMISED| - k
  {
    if k == |PROMISED| || Refused(d, PROMISED[k], cells(PROMISED[k])) then k else FirstRefused(d, cells, k + 1)
  }

  /** A row fails at its first refused column, naming its channel unless that is what was refused. */
  lemma DecodingFailsAtFirstRefused(d: Decoders, cells: Cells)
    ensures var at := FirstRefused(d, cells, 0);
            var r := DecodeChannelStatus(d, cells);
            && (r.Ok? <==> at == |PROMISED|)
            && (r.Err? ==> r.error == OpError(if at == 0 then "" else d.str(cells(ChannelName)).value,
                                              PROMISED[at].Name(), Undecodable))
  {
    hide FirstRefused;
    PromisedInOrder();
    var at := FirstRefused(d, cells, 0);
    RefusalAt(d, cells, 0, ChannelName);
    RefusalAt(d, cells, 1, IORunning);
    RefusalAt(d, cells, 2, SQLRunning);
    RefusalAt(d, cells, 3, SecondsBehind);
    RefusalAt(d, cells, 4, LastIOErrno);
    RefusalAt(d, cells, 5, LastIOError);
    RefusalAt(d, cells, 6, LastSQLErrno);
    RefusalAt(d, cells, 7, LastSQLError);
    RefusalAt(d, cells, 8, RetrievedGTIDSet);
    RefusalAt(d, cells, 9, ExecutedGTIDSet);
    RefusalAt(d, cells, 10, SourceHost);
    RefusalAt(d, cells, 11, SourcePort);
  }

  lemma PromisedInOrder()
    ensures |PROMISED| == 12
    ensures PROMISED[0] == ChannelName && PROMISED[1] == IORunning && PROMISED[2] == SQLRunning
    ensures PROMISED[3] == SecondsBehind && PROMISED[4] == LastIOErrno && PROMISED[5] == LastIOError
    ensures PROMISED[6] == LastSQLErrno && PROMISED[7] == LastSQLError && PROMISED[8] == RetrievedGTIDSet
    ensures PROMISED[9] == ExecutedGTIDSet && PROMISED[10] == SourceHost && PROMISED[11] == SourcePort
  {
  }

  lemma RefusalAt(d: Decoders, cells: Cells, k: nat, column: Column)
    requires k < |PROMISED| && PROMISED[k] == column
    ensures k < FirstRefused(d, cells, 0) ==> !Refused(d, column, cells(column))
    ensures k == FirstRefused(d, cells, 0) ==> Refused(d, column, cells(column))
  {
    hide Refused;
  }

  /** Each field of a decoded channel comes from the column that reports it. */
  lemma FieldsComeFromTheirColumns(d: Decoders, cells: Cells)
    requires DecodeChannelStatus(d, cells).Ok?
    ensures var s := DecodeChannelStatus(d, cells).value;
      && d.str(cells(ChannelName)) == Some(s.channelName)
      && d.str(cells(IORunning)) == Some(s.ioRunning) && d.str(cells(SQLRunning)) == Some(s.sqlRunning)
      && d.nullInt64(cells(SecondsBehind)) == Some(s.secondsBehindSource)
      && d.int_(cells(LastIOErrno)) == Some(s.lastIOErrno) && d.str(cells(LastIOError)) == Some(s.lastIOError)
      && d.int_(cells(LastSQLErrno)) == Some(s.lastSQLErrno) && d.str(cells(LastSQLError)) == Some(s.lastSQLError)
      && d.str(cells(RetrievedGTIDSet)) == Some(s.retrievedGTIDSet)
      && d.str(cells(ExecutedGTIDSet)) == Some(s.executedGTIDSet)
      && d.str(cells(SourceHost)) == Some(s.sourceHost) && d.uint16(cells(SourcePort)) == Some(s.sourcePort)
  {
  }

  // ---------------------------------------------------------------------------
  // Result sets.

  /** Column names (unless the driver cannot say), rows as wide as the names, and how reading ends. */
  datatype RowSet = RowSet(names: Option<seq<string>>, rows: seq<seq<SqlValue>>, broken: bool, closeFails: bool)
  {
    predicate Rectangular() {
      names.Some? ==> forall i :: 0 <= i < |rows| ==> |rows[i]| == |names.value|
    }
  }

  predicate Promises(names: seq<string>) {
    forall k :: 0 <= k < |PROMISED| ==> PROMISED[k].Name() in names
  }

  lemma {:induction false} PromisedHasAll(column: Column)
    ensures column in PROMISED
  {
    var k := match column
      case ChannelName => 0
      case IORunning => 1
      case SQLRunning => 2
      case SecondsBehind => 3
      case LastIOErrno => 4
      case LastIOError => 5
      case LastSQLErrno => 6
      case LastSQLError => 7
      case RetrievedGTIDSet => 8
      case ExecutedGTIDSet => 9
      case SourceHost => 10
      case SourcePort => 11;
    assert PROMISED[k] == column;
  }

  /** The value under a column's name; of equal names the first one counts. */
  function CellAt(names: seq<string>, row: seq<SqlValue>, column: Column): SqlValue
    requires |row| == |names|
  {
    if column.Name() in names then row[First(names, column.Name())] else Null
  }

  function CellsOf(names: seq<string>, row: seq<SqlValue>): Cells
    requires |row| == |names|
  {
    (column: Column) => CellAt(names, row, column)
  }

  /** Position of the first promised column the names lack, if any. */
  function FirstMissing(names: seq<string>, k: nat): (at: nat)
    requires k <= |PROMISED|
    ensures k <= at <= |PROMISED|
    ensures at < |PROMISED| ==> PROMISED[at].Name() !in names
    ensures forall j :: k <= j < at ==> PROMISED[j].Name() in names
    decreases |PROMISED| - k
  {
    if k == |PROMISED| || PROMISED[k].Name() !in names then k else FirstMissing(names, k + 1)
  }

  /** Rows decoded in order, up to the first failure. */
  function DecodeRows(d: Decoders, names: seq<string>, rows: seq<seq<SqlValue>>): Result<seq<ChannelStatus>, OpError>
    requires forall i :: 0 <= i < |rows| ==> |rows[i]| == |names|
  {
    if rows == [] then
      Ok([])
    else
      var before :- DecodeRows(d, names, rows[..|rows| - 1]);
      var last :- DecodeChannelStatus(d, CellsOf(names, rows[|rows| - 1]));
      Ok(before + [last])
  }

  /** What reading a result set means. Any failure yields no list. */
  function Parsed(d: Decoders, result: RowSet): Result<seq<ChannelStatus>, OpError>
    requires result.Rectangular()
  {
    if result.names.None? then
      Err(DRIVER_FAILED)
    else
      var names := result.names.value;
      var missing := FirstMissing(names, 0);
      if missing < |PROMISED| then
        Err(OpError("", PROMISED[missing].Name(), MissingColumn))
      else
        var channels :- DecodeRows(d, names, result.rows);
        if result.broken || result.closeFails then Err(DRIVER_FAILED) else Ok(channels)
  }

  // ---------------------------------------------------------------------------
  // The reader.

  datatype ColumnIndex = ColumnIndex(positions: map<string, nat>, width: nat)
  {
    /** Every name is located at its first position. */
    ghost predicate Describes(names: seq<string>) {
      && width == |names|
      && (forall name :: name in positions <==> name in names)
      && (forall name :: name in positions ==> positions[name] == First(names, name))
    }
  }

  /** Of equal names, the first one is kept. */
  method LocateColumns(names: seq<string>) returns (positions: map<string, nat>)
    ensures ColumnIndex(positions, |names|).Describes(names)
  {
    positions := map[];
    for position := 0 to |names|
      invariant forall name :: name in positions <==> name in names[..position]
      invariant forall name :: name in positions ==>
        name in names && positions[name] == First(names, name) < position
    {
      var name := names[position];
      assert names[..position + 1] == names[..position] + [name];
      if name !in positions {
        FirstHere(names, position);
        positions := positions[name := position];
      }
    }
    assert names[..|names|] == names;
  }

  method IndexColumns(names: seq<string>) returns (r: Result<ColumnIndex, OpError>)
    ensures r.Ok? ==> r.value.Describes(names) && Promises(names)
    ensures r.Ok? <==> FirstMissing(names, 0) == |PROMISED|
    ensures r.Err? ==> r.error == OpError("", PROMISED[FirstMissing(names, 0)].Name(), MissingColumn)
  {
    hide FirstMissing;
    var positions := LocateColumns(names);
    for k := 0 to |PROMISED|
      invariant forall j :: 0 <= j < k ==> PROMISED[j].Name() in names
    {
      var name := PROMISED[k].Name();
      if name !in positions {
        assert FirstMissing(names, 0) == k;
        return Err(OpError("", name, MissingColumn));
      }
    }
    return Ok(ColumnIndex(positions, |names|));
  }

  lemma FirstHere(names: seq<string>, position: nat)
    requires position < |names| && names[position] !in names[..position]
    ensures First(names, names[position]) == position
  {
    assert forall i :: 0 <= i < position ==> names[..position][i] == names[i];
  }

  /** Writes one delivered row into the reused buffer. */
  method Scan(row: seq<SqlValue>, values: array<SqlValue>)
    requires |row| == values.Length
    modifies values
    ensures values[..] == row
  {
    for i := 0 to |row|
      invariant values[..i] == row[..i]
    {
      values[i] := row[i];
    }
    assert values[..] == values[..|row|] && row[..|row|] == row;
  }

  method ReadChannel(d: Decoders, index: ColumnIndex, values: array<SqlValue>, ghost names: seq<string>)
    returns (r: Result<ChannelStatus, OpError>)
    requires index.Describes(names) && Promises(names) && values.Length == |names|
    ensures r == DecodeChannelStatus(d, CellsOf(names, values[..]))
  {
    var row := values[..];
    forall column: Column
      ensures column.Name() in index.positions && index.positions[column.Name()] < |row|
      ensures row[index.positions[column.Name()]] == CellAt(names, row, column)
    {
      PromisedHasAll(column);
    }
    var cells := (column: Column) =>
      var name := column.Name();
      if name in index.positions && index.positions[name] < |row| then row[index.positions[name]] else Null;
    r := DecodeChannelStatus(d, cells);
    SameCells(d, cells, CellsOf(names, row));
  }

  /** Decoding reads cells only through their columns. */
  lemma SameCells(d: Decoders, cells: Cells, cells': Cells)
    requires forall column :: cells(column) == cells'(column)
    ensures DecodeChannelStatus(d, cells) == DecodeChannelStatus(d, cells')
  {
  }

  method ParseReplicaStatus(d: Decoders, result: RowSet) returns (r: Result<seq<ChannelStatus>, OpError>)
    requires result.Rectangular()
    ensures r == Parsed(d, result)
  {
    hide DecodeChannelStatus, CellsOf, FirstMissing, Promises;
    if result.names.None? {
      return Err(DRIVER_FAILED);
    }
    var names := result.names.value;
    var index := IndexColumns(names);
    if index.Err? {
      return Err(index.error);
    }
    var values := new SqlValue[|names|];
    var channels: seq<ChannelStatus> := [];
    for i := 0 to |result.rows|
      invariant DecodeRows(d, names, result.rows[..i]) == Ok(channels)
    {
      Scan(result.rows[i], values);
      var channel := ReadChannel(d, index.value, values, names);
      assert result.rows[..i + 1][..i] == result.rows[..i];
      if channel.Err? {
        FailureStops(d, names, result.rows, i + 1, channel.error);
        return Err(channel.error);
      }
      channels := channels + [channel.value];
    }
    assert result.rows[..|result.rows|] == result.rows;
    if result.broken {
      return Err(DRIVER_FAILED);
    }
    if result.closeFails {
      return Err(DRIVER_FAILED);
    }
    return Ok(channels);
  }

  /** The first failure is the answer, whatever rows follow. */
  lemma {:induction false} FailureStops(d: Decoders, names: seq<string>, rows: seq<seq<SqlValue>>, i: nat,
                                        error: OpError)
    requires i <= |rows| && forall k :: 0 <= k < |rows| ==> |rows[k]| == |names|
    requires DecodeRows(d, names, rows[..i]) == Err(error)
    ensures DecodeRows(d, names, rows) == Err(error)
    decreases |rows|
  {
    if i == |rows| {
      assert rows[..i] == rows;
    } else {
      assert rows[..|rows| - 1][..i] == rows[..i];
      FailureStops(d, names, rows[..|rows| - 1], i, error);
    }
  }

  // ---------------------------------------------------------------------------
  // Layout does not matter.

  /** The two result sets show the same value under every promised name, row by row, and end alike. */
  ghost predicate SameByName(a: RowSet, b: RowSet)
    requires a.Rectangular() && b.Rectangular()
  {
    && a.names.Some? && b.names.Some? && |a.rows| == |b.rows| && a.broken == b.broken && a.closeFails == b.closeFails
    && (forall column: Column :: column.Name() in a.names.value <==> column.Name() in b.names.value)
    && (forall i, column: Column :: 0 <= i < |a.rows| ==>
          CellAt(a.names.value, a.rows[i], column) == CellAt(b.names.value, b.rows[i], column))
  }

  /** Then they read alike: the same list, or the same error naming the same channel and column. */
  lemma ParsingReadsNamesOnly(d: Decoders, a: RowSet, b: RowSet)
    requires a.Rectangular() && b.Rectangular() && SameByName(a, b)
    ensures Parsed(d, a) == Parsed(d, b)
  {
    SameMissing(a.names.value, b.names.value, 0);
    SameRows(d, a, b, |a.rows|);
    assert a.rows[..|a.rows|] == a.rows && b.rows[..|b.rows|] == b.rows;
  }

  lemma {:induction false} SameMissing(names: seq<string>, names': seq<string>, k: nat)
    requires k <= |PROMISED|
    requires forall column: Column :: column.Name() in names <==> column.Name() in names'
    ensures FirstMissing(names, k) == FirstMissing(names', k)
    decreases |PROMISED| - k
  {
    if k == |PROMISED| {
    } else {
      SameMissing(names, names', k + 1);
    }
  }

  lemma {:induction false} SameRows(d: Decoders, a: RowSet, b: RowSet, n: nat)
    requires a.Rectangular() && b.Rectangular() && SameByName(a, b) && n <= |a.rows|
    ensures DecodeRows(d, a.names.value, a.rows[..n]) == DecodeRows(d, b.names.value, b.rows[..n])
  {
    hide DecodeChannelStatus, CellAt;
    if n == 0 {
    } else {
      SameRows(d, a, b, n - 1);
      assert a.rows[..n][..n - 1] == a.rows[..n - 1] && b.rows[..n][..n - 1] == b.rows[..n - 1];
      SameCells(d, CellsOf(a.names.value, a.rows[n - 1]), CellsOf(b.names.value, b.rows[n - 1]));
    }
  }

  /** A list rearranged: position `i` now holds what was at `order[i]`. */
  function Rearranged<T>(xs: seq<T>, order: seq<nat>): (ys: seq<T>)
    requires forall i :: 0 <= i < |order| ==> order[i] < |xs|
    ensures |ys| == |order| && forall i :: 0 <= i < |ys| ==> ys[i] == xs[order[i]]
  {
    seq(|order|, i requires 0 <= i < |order| && order[i] < |xs| => xs[order[i]])
  }

  predicate IsPermutation(order: seq<nat>, n: nat) {
    && |order| == n
    && (forall i :: 0 <= i < n ==> order[i] < n)
    && (forall i, j :: 0 <= i < j < n ==> order[i] != order[j])
    && (forall k: nat :: k < n ==> k in order)
  }

  /** The same columns in another order, with every row's values moved along. */
  function PermuteColumns(a: RowSet, order: seq<nat>): (b: RowSet)
    requires a.names.Some? && a.Rectangular() && IsPermutation(order, |a.names.value|)
    ensures b.Rectangular() && b.names.Some? && |b.rows| == |a.rows|
  {
    RowSet(Some(Rearranged(a.names.value, order)),
           seq(|a.rows|, i requires 0 <= i < |a.rows| && |a.rows[i]| == |order| => Rearranged(a.rows[i], order)),
           a.broken, a.closeFails)
  }

  /** Reordering distinctly named columns changes nothing. */
  lemma ColumnOrderIsInvisible(d: Decoders, a: RowSet, order: seq<nat>)
    requires a.names.Some? && a.Rectangular() && IsPermutation(order, |a.names.value|) && Unrepeated(a.names.value)
    ensures Parsed(d, PermuteColumns(a, order)) == Parsed(d, a)
  {
    var b := PermuteColumns(a, order);
    var names, names' := a.names.value, b.names.value;
    forall column: Column
      ensures column.Name() in names <==> column.Name() in names'
      ensures column.Name() in names ==>
        column.Name() in names' && order[First(names', column.Name())] == First(names, column.Name())
    {
      PermutedPosition(names, order, column.Name());
    }
    forall i, column: Column | 0 <= i < |a.rows|
      ensures CellAt(names, a.rows[i], column) == CellAt(names', b.rows[i], column)
    {
      assert b.rows[i] == Rearranged(a.rows[i], order);
    }
    ParsingReadsNamesOnly(d, b, a);
  }

  lemma PermutedPosition(names: seq<string>, order: seq<nat>, name: string)
    requires IsPermutation(order, |names|) && Unrepeated(names)
    ensures var names' := Rearranged(names, order);
            && (name in names <==> name in names')
            && (name in names && name in names' ==> order[First(names', name)] == First(names, name))
  {
    var names' := Rearranged(names, order);
    if name in names {
      var k := First(names, name);
      assert k in order;
      var i :| 0 <= i < |order| && order[i] == k;
      assert names'[i] == name;
    }
    if name in names' {
      var i := First(names', name);
      assert names[order[i]] == name;
    }
  }

  /** A column the program does not know, put in front of position `k`. */
  function InsertColumn(a: RowSet, k: nat, name: string, values: seq<SqlValue>): (b: RowSet)
    requires a.names.Some? && a.Rectangular() && k <= |a.names.value| && |values| == |a.rows|
    ensures b.Rectangular() && b.names.Some? && |b.rows| == |a.rows|
  {
    RowSet(Some(a.names.value[..k] + [name] + a.names.value[k..]),
           seq(|a.rows|, i requires 0 <= i < |a.rows| && |a.rows[i]| == |a.names.value| =>
             a.rows[i][..k] + [values[i]] + a.rows[i][k..]),
           a.broken, a.closeFails)
  }

  /** An unknown column changes nothing, even among repeated names. */
  lemma UnknownColumnIsInvisible(d: Decoders, a: RowSet, k: nat, name: string, values: seq<SqlValue>)
    requires a.names.Some? && a.Rectangular() && k <= |a.names.value| && |values| == |a.rows|
    requires forall column: Column :: column.Name() != name
    ensures Parsed(d, InsertColumn(a, k, name, values)) == Parsed(d, a)
  {
    var b := InsertColumn(a, k, name, values);
    var names, names' := a.names.value, b.names.value;
    forall column: Column
      ensures column.Name() in names <==> column.Name() in names'
      ensures column.Name() in names ==>
        var at := First(names, column.Name());
        column.Name() in names' && First(names', column.Name()) == if at < k then at else at + 1
    {
      ShiftedPosition(names, k, name, column.Name());
    }
    forall i, column: Column | 0 <= i < |a.rows|
      ensures CellAt(names, a.rows[i], column) == CellAt(names', b.rows[i], column)
    {
      assert b.rows[i] == a.rows[i][..k] + [values[i]] + a.rows[i][k..];
    }
    ParsingReadsNamesOnly(d, b, a);
  }

  lemma ShiftedPosition(names: seq<string>, k: nat, inserted: string, name: string)
    requires k <= |names| && name != inserted
    ensures var names' := names[..k] + [inserted] + names[k..];
            && (name in names <==> name in names')
            && (name in names && name in names' ==>
                  var at := First(names, name);
                  First(names', name) == if at < k then at else at + 1)
  {
    InsertedNames(names, k, inserted);
    ShiftedIn(names, names[..k] + [inserted] + names[k..], k, inserted, name);
  }

  /** `names'` is `names` with one more name at position `k`. */
  predicate IsInsertion(names: seq<string>, names': seq<string>, k: nat, inserted: string) {
    && k <= |names| && |names'| == |names| + 1 && names'[k] == inserted
    && (forall i :: 0 <= i < k ==> names'[i] == names[i])
    && (forall i :: k < i < |names'| ==> names'[i] == names[i - 1])
  }

  lemma ShiftedIn(names: seq<string>, names': seq<string>, k: nat, inserted: string, name: string)
    requires IsInsertion(names, names', k, inserted) && name != inserted
    ensures name in names <==> name in names'
    ensures name in names && name in names' ==>
              var at := First(names, name);
              First(names', name) == if at < k then at else at + 1
  {
    if name in names {
      var at := First(names, name);
      FirstIs(names', name, if at < k then at else at + 1);
    }
    if name in names' {
      var i := First(names', name);
      assert names[if i < k then i else i - 1] == name;
    }
  }

  lemma FirstIs(names: seq<string>, name: string, at: nat)
    requires at < |names| && names[at] == name && forall i :: 0 <= i < at ==> names[i] != name
    ensures name in names && First(names, name) == at
  {
  }

  lemma InsertedNames(names: seq<string>, k: nat, inserted: string)
    requires k <= |names|
    ensures IsInsertion(names, names[..k] + [inserted] + names[k..], k, inserted)
  {
  }

  // ---------------------------------------------------------------------------
  // The same, by the server's spelling.

  /** The twelve promised columns as the server spells them, in the order in which they are missed. */
  const SPELLINGS := [
    "Channel_Name", "Replica_IO_Running", "Replica_SQL_Running", "Seconds_Behind_Source", "Last_IO_Errno",
    "Last_IO_Error", "Last_SQL_Errno", "Last_SQL_Error", "Retrieved_Gtid_Set", "Executed_Gtid_Set", "Source_Host",
    "Source_Port"
  ]

  lemma ColumnSpellings(k: nat)
    requires k < 12
    ensures |PROMISED| == |SPELLINGS| == 12 && PROMISED[k].Name() == SPELLINGS[k]
  {
    PromisedInOrder();
  }

  /** The value in the first column of a name. */
  function ValueAt(names: seq<string>, row: seq<SqlValue>, name: string): SqlValue
    requires |row| == |names| && name in names
  {
    row[First(names, name)]
  }

  ghost predicate AllSpelled(names: seq<string>) {
    forall k :: 0 <= k < 12 ==> SPELLINGS[k] in names
  }

  /** Each field of a channel is decoded from the value under its column's spelling. */
  lemma FieldsBySpelling(d: Decoders, names: seq<string>, row: seq<SqlValue>)
    requires |row| == |names| && AllSpelled(names)
    requires DecodeChannelStatus(d, CellsOf(names, row)).Ok?
    ensures var s := DecodeChannelStatus(d, CellsOf(names, row)).value;
            && "Channel_Name" in names && d.str(ValueAt(names, row, "Channel_Name")) == Some(s.channelName)
            && "Replica_IO_Running" in names && d.str(ValueAt(names, row, "Replica_IO_Running")) == Some(s.ioRunning)
            && "Replica_SQL_Running" in names && d.str(ValueAt(names, row, "Replica_SQL_Running")) == Some(s.sqlRunning)
            && "Seconds_Behind_Source" in names
            && d.nullInt64(ValueAt(names, row, "Seconds_Behind_Source")) == Some(s.secondsBehindSource)
            && "Last_IO_Errno" in names && d.int_(ValueAt(names, row, "Last_IO_Errno")) == Some(s.lastIOErrno)
            && "Last_IO_Error" in names && d.str(ValueAt(names, row, "Last_IO_Error")) == Some(s.lastIOError)
    ensures var s := DecodeChannelStatus(d, CellsOf(names, row)).value;
            && "Last_SQL_Errno" in names && d.int_(ValueAt(names, row, "Last_SQL_Errno")) == Some(s.lastSQLErrno)
            && "Last_SQL_Error" in names && d.str(ValueAt(names, row, "Last_SQL_Error")) == Some(s.lastSQLError)
            && "Retrieved_Gtid_Set" in names
            && d.str(ValueAt(names, row, "Retrieved_Gtid_Set")) == Some(s.retrievedGTIDSet)
            && "Executed_Gtid_Set" in names
            && d.str(ValueAt(names, row, "Executed_Gtid_Set")) == Some(s.executedGTIDSet)
            && "Source_Host" in names && d.str(ValueAt(names, row, "Source_Host")) == Some(s.sourceHost)
            && "Source_Port" in names && d.uint16(ValueAt(names, row, "Source_Port")) == Some(s.sourcePort)
  {
    hide DecodeChannelStatus;
    var cells := CellsOf(names, row);
    FieldsComeFromTheirColumns(d, cells);
    forall k | 0 <= k < 12
      ensures SPELLINGS[k] in names && cells(PROMISED[k]) == ValueAt(names, row, SPELLINGS[k])
    {
      ColumnSpellings(k);
    }
    PromisedInOrder();
    SpellingsInOrder();
  }

  lemma SpellingsInOrder()
    ensures |SPELLINGS| == 12
    ensures SPELLINGS[0] == "Channel_Name" && SPELLINGS[1] == "Replica_IO_Running"
    ensures SPELLINGS[2] == "Replica_SQL_Running" && SPELLINGS[3] == "Seconds_Behind_Source"
    ensures SPELLINGS[4] == "Last_IO_Errno" && SPELLINGS[5] == "Last_IO_Error"
    ensures SPELLINGS[6] == "Last_SQL_Errno" && SPELLINGS[7] == "Last_SQL_Error"
    ensures SPELLINGS[8] == "Retrieved_Gtid_Set" && SPELLINGS[9] == "Executed_Gtid_Set"
    ensures SPELLINGS[10] == "Source_Host" && SPELLINGS[11] == "Source_Port"
  {
  }

  /** When a result set is read at all, and what is read: every row, in order, each as its own channel. */
  lemma ParsesExactly(d: Decoders, result: RowSet)
    requires result.Rectangular()
    ensures Parsed(d, result).Ok? <==>
            && result.names.Some? && AllSpelled(result.names.value)
            && !result.broken && !result.closeFails
            && forall i :: 0 <= i < |result.rows| ==>
                 DecodeChannelStatus(d, CellsOf(result.names.value, result.rows[i])).Ok?
    ensures Parsed(d, result).Ok? ==>
            && |Parsed(d, result).value| == |result.rows|
            && forall i :: 0 <= i < |result.rows| ==>
                 DecodeChannelStatus(d, CellsOf(result.names.value, result.rows[i])) == Ok(Parsed(d, result).value[i])
  {
    hide DecodeChannelStatus, CellAt;
    if result.names.Some? {
      AllSpelledMeansNoneMissing(result.names.value);
      DecodesAllRows(d, result.names.value, result.rows);
    }
  }

  lemma AllSpelledMeansNoneMissing(names: seq<string>)
    ensures AllSpelled(names) <==> FirstMissing(names, 0) == |PROMISED|
  {
    forall k | 0 <= k < 12
      ensures PROMISED[k].Name() == SPELLINGS[k] && |PROMISED| == 12
    {
      ColumnSpellings(k);
    }
    PromisedInOrder();
  }

  lemma {:induction false} DecodesAllRows(d: Decoders, names: seq<string>, rows: seq<seq<SqlValue>>)
    requires forall i :: 0 <= i < |rows| ==> |rows[i]| == |names|
    ensures DecodeRows(d, names, rows).Ok? <==>
            forall i :: 0 <= i < |rows| ==> DecodeChannelStatus(d, CellsOf(names, rows[i])).Ok?
    ensures DecodeRows(d, names, rows).Ok? ==>
            && |DecodeRows(d, names, rows).value| == |rows|
            && forall i :: 0 <= i < |rows| ==>
                 DecodeChannelStatus(d, CellsOf(names, rows[i])) == Ok(DecodeRows(d, names, rows).value[i])
    decreases |rows|
  {
    hide DecodeChannelStatus, CellAt;
    if rows == [] {
    } else {
      var before := rows[..|rows| - 1];
      DecodesAllRows(d, names, before);
      assert forall i :: 0 <= i < |before| ==> before[i] == rows[i];
    }
  }

  /** Columns that cannot be named are a driver failure; otherwise the first missing one is named. */
  lemma MissingColumnReported(d: Decoders, result: RowSet, i: nat)
    requires result.Rectangular()
    ensures result.names.None? ==> Parsed(d, result) == Err(OpError("", "", DriverFailure))
    ensures result.names.Some? && i < 12 && SPELLINGS[i] !in result.names.value &&
            (forall k :: 0 <= k < i ==> SPELLINGS[k] in result.names.value) ==>
              Parsed(d, result) == Err(OpError("", SPELLINGS[i], MissingColumn))
  {
    hide DecodeRows;
    if result.names.Some? {
      var names := result.names.value;
      if i < 12 && SPELLINGS[i] !in names && forall k :: 0 <= k < i ==> SPELLINGS[k] in names {
        FirstMissingIs(names, i);
      }
    }
  }

  /** A row that cannot be decoded is reported, if none before it is, whatever follows. */
  lemma FirstBadRowReported(d: Decoders, result: RowSet, i: nat)
    requires result.Rectangular() && result.names.Some? && AllSpelled(result.names.value) && i < |result.rows|
    requires forall k :: 0 <= k < i ==> DecodeChannelStatus(d, CellsOf(result.names.value, result.rows[k])).Ok?
    requires DecodeChannelStatus(d, CellsOf(result.names.value, result.rows[i])).Err?
    ensures Parsed(d, result) == Err(DecodeChannelStatus(d, CellsOf(result.names.value, result.rows[i])).error)
  {
    hide DecodeChannelStatus, CellAt, AllSpelled;
    var names, rows := result.names.value, result.rows;
    AllSpelledMeansNoneMissing(names);
    FirstBadRow(d, names, rows, i);
  }

  lemma FirstBadRow(d: Decoders, names: seq<string>, rows: seq<seq<SqlValue>>, i: nat)
    requires i < |rows| && forall k :: 0 <= k < |rows| ==> |rows[k]| == |names|
    requires forall k :: 0 <= k < i ==> DecodeChannelStatus(d, CellsOf(names, rows[k])).Ok?
    requires DecodeChannelStatus(d, CellsOf(names, rows[i])).Err?
    ensures DecodeRows(d, names, rows) == Err(DecodeChannelStatus(d, CellsOf(names, rows[i])).error)
  {
    hide DecodeChannelStatus, CellAt;
    var error := DecodeChannelStatus(d, CellsOf(names, rows[i])).error;
    DecodesAllRows(d, names, rows[..i]);
    assert rows[..i + 1][..i] == rows[..i];
    assert DecodeRows(d, names, rows[..i + 1]) == Err(error);
    FailureStops(d, names, rows, i + 1, error);
  }

  /** A driver that breaks off, or fails on closing, is reported when every row was read well. */
  lemma DriverFailureReported(d: Decoders, result: RowSet)
    requires result.Rectangular() && result.names.Some? && AllSpelled(result.names.value)
    requires forall k :: 0 <= k < |result.rows| ==>
               DecodeChannelStatus(d, CellsOf(result.names.value, result.rows[k])).Ok?
    requires result.broken || result.closeFails
    ensures Parsed(d, result) == Err(OpError("", "", DriverFailure))
  {
    hide DecodeChannelStatus, CellAt, AllSpelled;
    AllSpelledMeansNoneMissing(result.names.value);
    DecodesAllRows(d, result.names.value, result.rows);
  }

  lemma FirstMissingIs(names: seq<string>, i: nat)
    requires i < 12 && SPELLINGS[i] !in names && forall k :: 0 <= k < i ==> SPELLINGS[k] in names
    ensures FirstMissing(names, 0) == i && i < |PROMISED| && PROMISED[i].Name() == SPELLINGS[i]
  {
    forall k | 0 <= k < 12
      ensures PROMISED[k].Name() == SPELLINGS[k] && |PROMISED| == 12
    {
      ColumnSpellings(k);
    }
  }
}
