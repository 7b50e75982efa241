/** Building the privilege fact from the rows of the four privilege tables. */
module GrantAssembly {
  import opened Outcomes
  import opened Grants
  import Statements
  import Wildcards

  /**
  One row of a privilege table. `row` carries the columns that say what the row is
  about; each table produces one kind of `StoredRow`.
  */
  datatype PrivilegeRow = PrivilegeRow(grantee: string, row: StoredRow, privilegeName: string)

  datatype RoleRow = RoleRow(name: string, host: string)

  /** Which statement failed; those that return rows are named by their table. */
  datatype ReadError = NoCurrentUser | NoPartialRevokes | Iteration(table: string)

  function PrivilegeFromString(value: string): Option<Privilege> {
    if value == "SELECT" then Some(Select)
    else if value == "INSERT" then Some(Insert)
    else if value == "UPDATE" then Some(Update)
    else if value == "DELETE" then Some(Delete)
    else if value == "CREATE" then Some(Create)
    else if value == "TRIGGER" then Some(Trigger)
    else None
  }

  // ---------------------------------------------------------------------------
  // Grantee spellings.

  /** Position of the last `@`, or the length when there is none. */
  function LastAt(s: string): (index: nat)
    ensures index <= |s|
    ensures index < |s| ==> s[index] == '@' && '@' !in s[index + 1..]
    ensures index == |s| ==> '@' !in s
  {
    if s == "" then
      0
    else
      var last := |s| - 1;
      if s[last] == '@' then
        last
      else
        var before := LastAt(s[..last]);
        assert s == s[..last] + [s[last]];
        if before == last then
          |s|
        else
          assert s[before + 1..] == s[..last][before + 1..] + [s[last]];
          before
  }

  function FormatCurrentUserGrantee(currentUser: string): string {
    var index := LastAt(currentUser);
    if index == |currentUser| then
      "'" + currentUser + "'@'%'"
    else
      "'" + currentUser[..index] + "'@'" + currentUser[index + 1..] + "'"
  }

  function FormatRoleGrantee(name: string, host: string): string {
    "'" + name + "'@'" + host + "'"
  }

  /** The split is at the last `@`, so a user name may contain one; quotes stay unescaped. */
  lemma CurrentUserGranteeSplits(user: string, host: string)
    requires '@' !in host
    ensures FormatCurrentUserGrantee(user + "@" + host) == "'" + user + "'@'" + host + "'"
    ensures FormatCurrentUserGrantee(host) == "'" + host + "'@'%'"
  {
    var whole := user + "@" + host;
    var index := LastAt(whole);
    assert whole[|user|] == '@';
    assert index == |user|;
    assert whole[..index] == user && whole[index + 1..] == host;
  }

  const ANONYMOUS_PREFIX := "''@'"
  const ANONYMOUS_PATTERN := Statements.ANONYMOUS_PATTERN

  predicate HasPrefix(s: string, prefix: string) {
    |prefix| <= |s| && s[..|prefix|] == prefix
  }

  /** Every grantee recorded as anonymous is one the narrowed schema statement asks for. */
  lemma AnonymousIsRequested(grantee: string)
    requires HasPrefix(grantee, ANONYMOUS_PREFIX)
    ensures Wildcards.Covers(ANONYMOUS_PATTERN, grantee)
  {
    var literal := [Wildcards.Literal('\''), Wildcards.Literal('\''), Wildcards.Literal('@')];
    var run := [Wildcards.AnyRun];
    assert Wildcards.Tokens(ANONYMOUS_PATTERN) == literal + run by {
      assert ANONYMOUS_PATTERN[1..] == "'@%" && "'@%"[1..] == "@%" && "@%"[1..] == "%" && "%"[1..] == "";
    }
    assert grantee[..3] == grantee[..4][..3] == ANONYMOUS_PREFIX[..3];
    Wildcards.FixedPrefix(literal, run, grantee);
    var rest := grantee[3..];
    assert rest[|rest|..] == "";
    assert run[1..] == [];
    assert Wildcards.Denotes(run[1..], rest[|rest|..]);
  }

  // ---------------------------------------------------------------------------
  // What the rows of one session add up to.

  /** The identities a row's grantee is compared with. */
  datatype Session = Session(accountGrantee: string, roleGrantees: set<string>)

  function SourceFor(session: Session, grantee: string): Sources {
    if grantee == session.accountGrantee then Sources(true, false, false)
    else if grantee in session.roleGrantees then Sources(false, true, false)
    else if HasPrefix(grantee, ANONYMOUS_PREFIX) then Sources(false, false, true)
    else NO_SOURCES
  }

  /** What one row is recorded as. Anonymous rows count at schema scope only. */
  function Recorded(session: Session, r: PrivilegeRow): Sources {
    var source := SourceFor(session, r.grantee);
    if PrivilegeFromString(r.privilegeName).None? || (source.anonymous && !r.row.SchemaRow?) then NO_SOURCES
    else source
  }

  predicate About(r: PrivilegeRow, row: StoredRow, priv: Privilege) {
    r.row == row && PrivilegeFromString(r.privilegeName) == Some(priv)
  }

  /** The evidence in a set of rows for one stored row and privilege, by existence alone. */
  function Evidence(session: Session, rows: seq<PrivilegeRow>, row: StoredRow, priv: Privilege): Sources {
    Sources(
      exists r :: r in rows && About(r, row, priv) && Recorded(session, r).account,
      exists r :: r in rows && About(r, row, priv) && Recorded(session, r).role,
      exists r :: r in rows && About(r, row, priv) && Recorded(session, r).anonymous
    )
  }

  /** No map holds a key for a privilege nobody relevant holds. */
  ghost predicate NoZeroEntries(g: Grants) {
    && (forall k :: k in g.global ==> g.global[k].Nonzero())
    && (forall k :: k in g.schema ==> g.schema[k].Nonzero())
    && (forall k :: k in g.table ==> g.table[k].Nonzero())
    && (forall k :: k in g.column ==> g.column[k].Nonzero())
  }

  /** The maps of `g` hold exactly the evidence in `rows`. */
  ghost predicate Holds(g: Grants, session: Session, rows: seq<PrivilegeRow>) {
    && NoZeroEntries(g)
    && forall row, priv :: Stored(g, row, priv) == Evidence(session, rows, row, priv)
  }

  lemma EvidenceAppend(session: Session, rows: seq<PrivilegeRow>, more: seq<PrivilegeRow>, row: StoredRow,
                       priv: Privilege)
    ensures Evidence(session, rows + more, row, priv) ==
            Evidence(session, rows, row, priv).Or(Evidence(session, more, row, priv))
  {
    var all := rows + more;
    assert forall r :: r in all <==> r in rows || r in more;
  }

  lemma EvidenceOfOne(session: Session, r: PrivilegeRow, row: StoredRow, priv: Privilege)
    ensures Evidence(session, [r], row, priv) == if About(r, row, priv) then Recorded(session, r) else NO_SOURCES
  {
    assert r in [r];
  }

  /** A row that records nothing can be skipped. */
  lemma HoldsSkipped(g: Grants, session: Session, rows: seq<PrivilegeRow>, r: PrivilegeRow)
    requires Holds(g, session, rows)
    requires Recorded(session, r) == NO_SOURCES
    ensures Holds(g, session, rows + [r])
  {
    forall row, priv
      ensures Stored(g, row, priv) == Evidence(session, rows + [r], row, priv)
    {
      EvidenceAppend(session, rows, [r], row, priv);
      EvidenceOfOne(session, r, row, priv);
    }
  }

  /** OR-ing a row into its own entry, and into no other, records it. */
  lemma HoldsRecorded(g: Grants, g': Grants, session: Session, rows: seq<PrivilegeRow>, r: PrivilegeRow, own: Privilege)
    requires Holds(g, session, rows)
    requires PrivilegeFromString(r.privilegeName) == Some(own)
    requires NoZeroEntries(g')
    requires forall row, priv :: Stored(g', row, priv) ==
                                 if row == r.row && priv == own then Stored(g, row, priv).Or(Recorded(session, r))
                                 else Stored(g, row, priv)
    ensures Holds(g', session, rows + [r])
  {
    forall row, priv
      ensures Stored(g', row, priv) == Evidence(session, rows + [r], row, priv)
    {
      EvidenceAppend(session, rows, [r], row, priv);
      EvidenceOfOne(session, r, row, priv);
    }
  }

  /** Holding the evidence determines the maps. */
  lemma EvidenceDeterminesMaps(g: Grants, g': Grants)
    requires NoZeroEntries(g) && NoZeroEntries(g')
    requires forall row, priv :: Stored(g, row, priv) == Stored(g', row, priv)
    ensures g.global == g'.global && g.schema == g'.schema && g.table == g'.table && g.column == g'.column
  {
    forall k
      ensures k in g.global <==> k in g'.global
      ensures k in g.global ==> g.global[k] == g'.global[k]
    {
      assert Stored(g, GlobalRow, k) == Stored(g', GlobalRow, k);
    }
    forall k
      ensures k in g.schema <==> k in g'.schema
      ensures k in g.schema ==> g.schema[k] == g'.schema[k]
    {
      assert k == SchemaKey(k.schema, k.privilege);
      assert Stored(g, SchemaRow(k.schema), k.privilege) == Stored(g', SchemaRow(k.schema), k.privilege);
    }
    forall k
      ensures k in g.table <==> k in g'.table
      ensures k in g.table ==> g.table[k] == g'.table[k]
    {
      assert k == TableKey(k.schema, k.table, k.privilege);
      assert Stored(g, TableRow(k.schema, k.table), k.privilege) ==
             Stored(g', TableRow(k.schema, k.table), k.privilege);
    }
    forall k
      ensures k in g.column <==> k in g'.column
      ensures k in g.column ==> g.column[k] == g'.column[k]
    {
      assert k == TableKey(k.schema, k.table, k.privilege);
      assert Stored(g, ColumnRow(k.schema, k.table), k.privilege) ==
             Stored(g', ColumnRow(k.schema, k.table), k.privilege);
    }
  }

  // ---------------------------------------------------------------------------
  // The reads, in the order the program makes them.

  class GrantsReader {
    var fact: Grants

    constructor (affinity: Affinity)
      ensures fact == Grants(false, affinity, false, "", {}, map[], map[], map[], map[])
    {
      fact := Grants(false, affinity, false, "", {}, map[], map[], map[], map[]);
    }

    function Identities(): Session
      reads this
    {
      Session(fact.accountGrantee, fact.roleGrantees)
    }

    method ReadEnabledRoles(read: Delivery<RoleRow>) returns (r: Result<(), ReadError>)
      modifies this
      ensures r == if read.broken then Err(Iteration("ENABLED_ROLES")) else Ok(())
      ensures fact == old(fact).(roleGrantees := old(fact).roleGrantees +
                                                 set row | row in read.rows :: FormatRoleGrantee(row.name, row.host))
    {
      for i := 0 to |read.rows|
        invariant fact == old(fact).(roleGrantees := old(fact).roleGrantees +
                                                     set row | row in read.rows[..i] ::
                                                       FormatRoleGrantee(row.name, row.host))
      {
        var row := read.rows[i];
        assert read.rows[..i + 1] == read.rows[..i] + [row];
        fact := fact.(roleGrantees := fact.roleGrantees + {FormatRoleGrantee(row.name, row.host)});
      }
      assert read.rows[..|read.rows|] == read.rows;
      if read.broken {
        return Err(Iteration("ENABLED_ROLES"));
      }
      return Ok(());
    }

    method ReadGlobalGrants(read: Delivery<PrivilegeRow>, ghost before: seq<PrivilegeRow>)
      returns (r: Result<(), ReadError>)
      requires forall row :: row in read.rows ==> row.row.GlobalRow?
      requires Holds(fact, Identities(), before)
      modifies this
      ensures r == if read.broken then Err(Iteration("USER_PRIVILEGES")) else Ok(())
      ensures fact == old(fact).(global := fact.global)
      ensures Holds(fact, Identities(), before + read.rows)
    {
      assert before == before + read.rows[..0];
      for i := 0 to |read.rows|
        invariant fact == old(fact).(global := fact.global)
        invariant Holds(fact, Identities(), before + read.rows[..i])
      {
        var row := read.rows[i];
        assert before + read.rows[..i + 1] == (before + read.rows[..i]) + [row];
        var privilege := PrivilegeFromString(row.privilegeName);
        var source := SourceFor(Identities(), row.grantee);
        if privilege.None? || !source.Nonzero() || source == Sources(false, false, true) {
          HoldsSkipped(fact, Identities(), before + read.rows[..i], row);
          continue;
        }
        ghost var g := fact;
        fact := fact.(global := fact.global[privilege.value := At(fact.global, privilege.value).Or(source)]);
        HoldsRecorded(g, fact, Identities(), before + read.rows[..i], row, privilege.value);
      }
      assert read.rows[..|read.rows|] == read.rows;
      r := if read.broken then Err(Iteration("USER_PRIVILEGES")) else Ok(());
    }

    method ReadSchemaGrants(read: Delivery<PrivilegeRow>, ghost before: seq<PrivilegeRow>)
      returns (r: Result<(), ReadError>)
      requires forall row :: row in read.rows ==> row.row.SchemaRow?
      requires Holds(fact, Identities(), before)
      modifies this
      ensures r == if read.broken then Err(Iteration("SCHEMA_PRIVILEGES")) else Ok(())
      ensures fact == old(fact).(schema := fact.schema)
      ensures Holds(fact, Identities(), before + read.rows)
    {
      assert before == before + read.rows[..0];
      for i := 0 to |read.rows|
        invariant fact == old(fact).(schema := fact.schema)
        invariant Holds(fact, Identities(), before + read.rows[..i])
      {
        var row := read.rows[i];
        assert before + read.rows[..i + 1] == (before + read.rows[..i]) + [row];
        var privilege := PrivilegeFromString(row.privilegeName);
        var source := SourceFor(Identities(), row.grantee);
        if privilege.None? || !source.Nonzero() {
          HoldsSkipped(fact, Identities(), before + read.rows[..i], row);
          continue;
        }
        ghost var g := fact;
        var key := SchemaKey(row.row.schema, privilege.value);
        fact := fact.(schema := fact.schema[key := At(fact.schema, key).Or(source)]);
        HoldsRecorded(g, fact, Identities(), before + read.rows[..i], row, privilege.value);
      }
      assert read.rows[..|read.rows|] == read.rows;
      r := if read.broken then Err(Iteration("SCHEMA_PRIVILEGES")) else Ok(());
    }

    method ReadTableGrants(read: Delivery<PrivilegeRow>, ghost before: seq<PrivilegeRow>)
      returns (r: Result<(), ReadError>)
      requires forall row :: row in read.rows ==> row.row.TableRow?
      requires Holds(fact, Identities(), before)
      modifies this
      ensures r == if read.broken then Err(Iteration("TABLE_PRIVILEGES")) else Ok(())
      ensures fact == old(fact).(table := fact.table)
      ensures Holds(fact, Identities(), before + read.rows)
    {
      assert before == before + read.rows[..0];
      for i := 0 to |read.rows|
        invariant fact == old(fact).(table := fact.table)
        invariant Holds(fact, Identities(), before + read.rows[..i])
      {
        var row := read.rows[i];
        assert before + read.rows[..i + 1] == (before + read.rows[..i]) + [row];
        var privilege := PrivilegeFromString(row.privilegeName);
        var source := SourceFor(Identities(), row.grantee);
        if privilege.None? || !source.Nonzero() || source == Sources(false, false, true) {
          HoldsSkipped(fact, Identities(), before + read.rows[..i], row);
          continue;
        }
        ghost var g := fact;
        var key := TableKey(row.row.schema, row.row.table, privilege.value);
        fact := fact.(table := fact.table[key := At(fact.table, key).Or(source)]);
        HoldsRecorded(g, fact, Identities(), before + read.rows[..i], row, privilege.value);
      }
      assert read.rows[..|read.rows|] == read.rows;
      r := if read.broken then Err(Iteration("TABLE_PRIVILEGES")) else Ok(());
    }

    method ReadColumnGrants(read: Delivery<PrivilegeRow>, ghost before: seq<PrivilegeRow>)
      returns (r: Result<(), ReadError>)
      requires forall row :: row in read.rows ==> row.row.ColumnRow?
      requires Holds(fact, Identities(), before)
      modifies this
      ensures r == if read.broken then Err(Iteration("COLUMN_PRIVILEGES")) else Ok(())
      ensures fact == old(fact).(column := fact.column)
      ensures Holds(fact, Identities(), before + read.rows)
    {
      assert before == before + read.rows[..0];
      for i := 0 to |read.rows|
        invariant fact == old(fact).(column := fact.column)
        invariant Holds(fact, Identities(), before + read.rows[..i])
      {
        var row := read.rows[i];
        assert before + read.rows[..i + 1] == (before + read.rows[..i]) + [row];
        var privilege := PrivilegeFromString(row.privilegeName);
        var source := SourceFor(Identities(), row.grantee);
        if privilege.None? || !source.Nonzero() || source == Sources(false, false, true) {
          HoldsSkipped(fact, Identities(), before + read.rows[..i], row);
          continue;
        }
        ghost var g := fact;
        var key := TableKey(row.row.schema, row.row.table, privilege.value);
        fact := fact.(column := fact.column[key := At(fact.column, key).Or(source)]);
        HoldsRecorded(g, fact, Identities(), before + read.rows[..i], row, privilege.value);
      }
      assert read.rows[..|read.rows|] == read.rows;
      r := if read.broken then Err(Iteration("COLUMN_PRIVILEGES")) else Ok(());
    }
  }

  /** Everything the server answers to one assembly, in statement order; `None` is a statement that fails. */
  datatype Reads = Reads(
    currentUser: Option<string>,
    roles: Delivery<RoleRow>,
    partialRevokes: Option<int>,
    global: Delivery<PrivilegeRow>,
    schema: Delivery<PrivilegeRow>,
    table: Delivery<PrivilegeRow>,
    column: Delivery<PrivilegeRow>
  )
  {
    /** Each statement returns rows of the table it reads. */
    predicate Typed() {
      && (forall r :: r in global.rows ==> r.row.GlobalRow?)
      && (forall r :: r in schema.rows ==> r.row.SchemaRow?)
      && (forall r :: r in table.rows ==> r.row.TableRow?)
      && (forall r :: r in column.rows ==> r.row.ColumnRow?)
    }

    /** What fails first, if anything does. */
    function FirstFailure(): Option<ReadError> {
      if currentUser.None? then Some(NoCurrentUser)
      else if roles.broken then Some(Iteration("ENABLED_ROLES"))
      else if partialRevokes.None? then Some(NoPartialRevokes)
      else if global.broken then Some(Iteration("USER_PRIVILEGES"))
      else if schema.broken then Some(Iteration("SCHEMA_PRIVILEGES"))
      else if table.broken then Some(Iteration("TABLE_PRIVILEGES"))
      else if column.broken then Some(Iteration("COLUMN_PRIVILEGES"))
      else None
    }

    function Identities(): Session
      requires currentUser.Some?
    {
      Session(FormatCurrentUserGrantee(currentUser.value),
              set row | row in roles.rows :: FormatRoleGrantee(row.name, row.host))
    }

    function Rows(): seq<PrivilegeRow> {
      global.rows + schema.rows + table.rows + column.rows
    }
  }

  /** `g` is the fact these reads establish. */
  ghost predicate Assembles(g: Grants, affinity: Affinity, served: Reads) {
    && served.currentUser.Some? && served.partialRevokes.Some?
    && g.populated && g.affinity == affinity && g.partialRevokes == (served.partialRevokes.value != 0)
    && Session(g.accountGrantee, g.roleGrantees) == served.Identities()
    && Holds(g, served.Identities(), served.Rows())
  }

  /** The first failure is reported and yields no fact; otherwise the fact holds exactly the evidence read. */
  method AssembleGrants(affinity: Affinity, served: Reads) returns (r: Result<Grants, ReadError>)
    requires served.Typed()
    ensures r.Ok? <==> served.FirstFailure().None?
    ensures r.Err? ==> served.FirstFailure() == Some(r.error)
    ensures r.Ok? ==> Assembles(r.value, affinity, served)
  {
    hide Holds, FormatCurrentUserGrantee, FormatRoleGrantee;
    var reader := new GrantsReader(affinity);
    if served.currentUser.None? {
      return Err(NoCurrentUser);
    }
    reader.fact := reader.fact.(accountGrantee := FormatCurrentUserGrantee(served.currentUser.value));
    var step := reader.ReadEnabledRoles(served.roles);
    if step.Err? {
      return Err(step.error);
    }
    if served.partialRevokes.None? {
      return Err(NoPartialRevokes);
    }
    reader.fact := reader.fact.(partialRevokes := served.partialRevokes.value != 0);
    assert reader.Identities() == served.Identities();
    EmptyHoldsNothing(reader.fact, reader.Identities());
    step := reader.ReadGlobalGrants(served.global, []);
    if step.Err? {
      return Err(step.error);
    }
    assert [] + served.global.rows == served.global.rows;
    step := reader.ReadSchemaGrants(served.schema, served.global.rows);
    if step.Err? {
      return Err(step.error);
    }
    step := reader.ReadTableGrants(served.table, served.global.rows + served.schema.rows);
    if step.Err? {
      return Err(step.error);
    }
    step := reader.ReadColumnGrants(served.column, served.global.rows + served.schema.rows + served.table.rows);
    if step.Err? {
      return Err(step.error);
    }
    PopulatedHolds(reader.fact, reader.Identities(), served.Rows());
    reader.fact := reader.fact.(populated := true);
    return Ok(reader.fact);
  }

  lemma EmptyHoldsNothing(g: Grants, session: Session)
    requires g.global == map[] && g.schema == map[] && g.table == map[] && g.column == map[]
    ensures Holds(g, session, [])
  {
  }

  lemma PopulatedHolds(g: Grants, session: Session, rows: seq<PrivilegeRow>)
    requires Holds(g, session, rows)
    ensures Holds(g.(populated := true), session, rows)
  {
    assert forall row, priv :: Stored(g.(populated := true), row, priv) == Stored(g, row, priv);
  }

  // ---------------------------------------------------------------------------
  // What an assembled fact holds, in terms of the rows alone.

  /** The server's spelling of the declared privileges. */
  predicate Spells(name: string, priv: Privilege) {
    || (priv == Select && name == "SELECT") || (priv == Insert && name == "INSERT")
    || (priv == Update && name == "UPDATE") || (priv == Delete && name == "DELETE")
    || (priv == Create && name == "CREATE") || (priv == Trigger && name == "TRIGGER")
  }

  lemma SpellingsAreRead(name: string, priv: Privilege)
    ensures PrivilegeFromString(name) == Some(priv) <==> Spells(name, priv)
  {
  }

  /** A row of any of the four privilege tables that is about this object and privilege. */
  predicate Delivers(served: Reads, r: PrivilegeRow, row: StoredRow, priv: Privilege) {
    && (r in served.global.rows || r in served.schema.rows || r in served.table.rows || r in served.column.rows)
    && r.row == row && Spells(r.privilegeName, priv)
  }

  predicate BlankUser(grantee: string) {
    |grantee| >= 4 && grantee[0] == '\'' && grantee[1] == '\'' && grantee[2] == '@' && grantee[3] == '\''
  }

  lemma BlankUserHasPrefix(grantee: string)
    ensures HasPrefix(grantee, ANONYMOUS_PREFIX) <==> BlankUser(grantee)
  {
    if |grantee| >= 4 {
      assert grantee[..4] == [grantee[0], grantee[1], grantee[2], grantee[3]];
    }
  }

  /** Who a session compares grantees with. */
  lemma AssembledIdentities(g: Grants, affinity: Affinity, served: Reads, user: string, host: string, grantee: string)
    requires Assembles(g, affinity, served)
    requires served.currentUser == Some(user + "@" + host) && '@' !in host
    ensures g.accountGrantee == "'" + user + "'@'" + host + "'"
    ensures grantee in g.roleGrantees <==>
            exists row :: row in served.roles.rows && grantee == "'" + row.name + "'@'" + row.host + "'"
    ensures g.partialRevokes <==> served.partialRevokes != Some(0)
  {
    CurrentUserGranteeSplits(user, host);
  }

  /** Rows of the account's own grantee set the account bit, and nothing else does. */
  lemma AccountBitExactly(g: Grants, affinity: Affinity, served: Reads, row: StoredRow, priv: Privilege)
    requires Assembles(g, affinity, served)
    ensures Stored(g, row, priv).account <==>
            exists r :: Delivers(served, r, row, priv) && r.grantee == g.accountGrantee
  {
    EvidenceByRows(g, affinity, served, row, priv);
  }

  /** Rows of enabled roles other than the account itself set the role bit, and nothing else does. */
  lemma RoleBitExactly(g: Grants, affinity: Affinity, served: Reads, row: StoredRow, priv: Privilege)
    requires Assembles(g, affinity, served)
    ensures Stored(g, row, priv).role <==>
            exists r :: Delivers(served, r, row, priv) && r.grantee in g.roleGrantees && r.grantee != g.accountGrantee
  {
    EvidenceByRows(g, affinity, served, row, priv);
  }

  /** Schema rows of a blank user that is neither set the anonymous bit, and nothing else does. */
  lemma AnonymousBitExactly(g: Grants, affinity: Affinity, served: Reads, row: StoredRow, priv: Privilege)
    requires Assembles(g, affinity, served)
    ensures Stored(g, row, priv).anonymous <==>
            row.SchemaRow? && exists r :: && Delivers(served, r, row, priv) && BlankUser(r.grantee)
                                          && r.grantee !in g.roleGrantees && r.grantee != g.accountGrantee
  {
    EvidenceByRows(g, affinity, served, row, priv);
  }

  lemma EvidenceByRows(g: Grants, affinity: Affinity, served: Reads, row: StoredRow, priv: Privilege)
    requires Assembles(g, affinity, served)
    ensures Stored(g, row, priv) == Evidence(served.Identities(), served.Rows(), row, priv)
    ensures forall r :: r in served.Rows() && About(r, row, priv) <==> Delivers(served, r, row, priv)
    ensures forall r :: About(r, row, priv) ==>
              && (Recorded(served.Identities(), r).account <==> r.grantee == g.accountGrantee)
              && (Recorded(served.Identities(), r).role <==>
                  r.grantee in g.roleGrantees && r.grantee != g.accountGrantee)
              && (Recorded(served.Identities(), r).anonymous <==>
                  row.SchemaRow? && BlankUser(r.grantee) && r.grantee !in g.roleGrantees &&
                  r.grantee != g.accountGrantee)
  {
    hide HasPrefix, BlankUser, FormatCurrentUserGrantee, Spells, PrivilegeFromString, NoZeroEntries;
    assert forall r :: r in served.Rows() <==>
             r in served.global.rows || r in served.schema.rows || r in served.table.rows || r in served.column.rows;
    forall r: PrivilegeRow
      ensures About(r, row, priv) <==> r.row == row && Spells(r.privilegeName, priv)
      ensures HasPrefix(r.grantee, ANONYMOUS_PREFIX) <==> BlankUser(r.grantee)
    {
      SpellingsAreRead(r.privilegeName, priv);
      BlankUserHasPrefix(r.grantee);
    }
  }

  // ---------------------------------------------------------------------------
  // Read width does not matter.

  /** A row the narrowed statement for its table asks for by name or by pattern. */
  predicate Requested(session: Session, r: PrivilegeRow) {
    || r.grantee == session.accountGrantee
    || r.grantee in session.roleGrantees
    || (r.row.SchemaRow? && Wildcards.Covers(ANONYMOUS_PATTERN, r.grantee))
  }

  /** `some` is a read of `all` in any order and multiplicity that misses no requested row. */
  ghost predicate Narrows(session: Session, some: seq<PrivilegeRow>, all: seq<PrivilegeRow>) {
    && (forall r :: r in some ==> r in all)
    && (forall r :: r in all && Requested(session, r) ==> r in some)
  }

  /**
  The rows a statement returns: all of them unnarrowed, otherwise those of its grantees, the
  last argument of a schema statement being a pattern.
  */
  predicate Asks(statement: Statements.Statement, r: PrivilegeRow) {
    || statement.args == []
    || (if r.row.SchemaRow? then
          var last := |statement.args| - 1;
          r.grantee in statement.args[..last] || Wildcards.Covers(statement.args[last], r.grantee)
        else
          r.grantee in statement.args)
  }

  /** The statement that reads a row's table. */
  function Reading(r: PrivilegeRow, statement: Statements.Statement, schemaStatement: Statements.Statement):
    Statements.Statement
  {
    if r.row.SchemaRow? then schemaStatement else statement
  }

  /** The grantees bound: the account, then its roles. */
  ghost predicate Names(grantees: seq<string>, session: Session) {
    forall grantee :: grantee in grantees <==> grantee == session.accountGrantee || grantee in session.roleGrantees
  }

  /** The statements of one session, whether they could be narrowed or not, ask for every requested row. */
  method PrivilegeStatements(session: Session, roles: seq<string>, query: string, schemaQuery: string,
                             representable: string -> bool)
    returns (statement: Statements.Statement, schemaStatement: Statements.Statement)
    requires '?' !in query && '?' !in schemaQuery
    requires forall role :: role in roles <==> role in session.roleGrantees
    ensures Statements.Bound(statement) && Statements.Bound(schemaStatement)
    ensures forall r :: Requested(session, r) ==> Asks(Reading(r, statement, schemaStatement), r)
    ensures forall r: PrivilegeRow :: Asks(Reading(r, statement, schemaStatement), r) ==>
              Requested(session, r) || Reading(r, statement, schemaStatement).args == []
  {
    var grantees := [session.accountGrantee] + roles;
    assert Names(grantees, session);
    statement := Statements.GranteePredicate(query, grantees, representable);
    schemaStatement := Statements.GranteePredicateWithAnonymous(schemaQuery, grantees, representable);
    ghost var names := Statements.Distinct(grantees);
    assert (names + [ANONYMOUS_PATTERN])[..|names|] == names;
  }

  /** A server that answers its statements leaves nothing requested out. */
  lemma AskedRowsNarrow(session: Session, statement: Statements.Statement, schemaStatement: Statements.Statement,
                        some: seq<PrivilegeRow>, all: seq<PrivilegeRow>)
    requires forall r :: Requested(session, r) ==> Asks(Reading(r, statement, schemaStatement), r)
    requires forall r :: r in some <==> r in all && Asks(Reading(r, statement, schemaStatement), r)
    ensures Narrows(session, some, all)
  {
  }

  /** Whatever is recorded was requested. */
  lemma RecordedIsRequested(session: Session, r: PrivilegeRow)
    requires Recorded(session, r).Nonzero()
    ensures Requested(session, r)
  {
    if HasPrefix(r.grantee, ANONYMOUS_PREFIX) {
      AnonymousIsRequested(r.grantee);
    }
  }

  lemma NarrowingKeepsEvidence(session: Session, some: seq<PrivilegeRow>, all: seq<PrivilegeRow>,
                               row: StoredRow, priv: Privilege)
    requires Narrows(session, some, all)
    ensures Evidence(session, some, row, priv) == Evidence(session, all, row, priv)
  {
    forall r | r in all && Recorded(session, r).Nonzero()
      ensures r in some
    {
      RecordedIsRequested(session, r);
    }
  }

  /** The narrowed and the unnarrowed reads, in any row order, build the same fact. */
  lemma ReadWidthIsInvisible(g: Grants, g': Grants, affinity: Affinity, some: Reads, all: Reads)
    requires Assembles(g, affinity, some) && Assembles(g', affinity, all)
    requires some.currentUser == all.currentUser && some.partialRevokes == all.partialRevokes
    requires forall row :: row in some.roles.rows <==> row in all.roles.rows
    requires Narrows(all.Identities(), some.Rows(), all.Rows())
    ensures g == g'
  {
    assert some.Identities() == all.Identities();
    forall row, priv
      ensures Stored(g, row, priv) == Stored(g', row, priv)
    {
      NarrowingKeepsEvidence(all.Identities(), some.Rows(), all.Rows(), row, priv);
    }
    EvidenceDeterminesMaps(g, g');
  }
}
