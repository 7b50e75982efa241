/**
The current account's privileges, as assembled from the privilege tables, and the
four-valued answers derived from them.
*/
module Grants {
  import Wildcards

  /** How firmly a connection is bound to one session. */
  datatype Affinity = Opaque | Pool | Pinned

  datatype GrantState = Unknown | Present | Absent | Unconfirmed

  /** A privilege; `Undeclared` stands for every value outside the declared ones. */
  datatype Privilege =
    | NoPrivilege | Select | Insert | Update | Delete | Create | Trigger
    | Undeclared(code: nat)
  {
    predicate Valid() {
      !NoPrivilege? && !Undeclared?
    }
  }

  /** Who holds a stored grant: the three flag bits accumulated per key. */
  datatype Sources = Sources(account: bool, role: bool, anonymous: bool)
  {
    function Or(other: Sources): Sources {
      Sources(account || other.account, role || other.role, anonymous || other.anonymous)
    }

    predicate Nonzero() {
      account || role || anonymous
    }

    /** Every bit of this is a bit of `other`. */
    predicate Within(other: Sources) {
      (account ==> other.account) && (role ==> other.role) && (anonymous ==> other.anonymous)
    }
  }

  const NO_SOURCES := Sources(false, false, false)

  datatype SchemaKey = SchemaKey(schema: string, privilege: Privilege)
  datatype TableKey = TableKey(schema: string, table: string, privilege: Privilege)

  /** The assembled fact; a value, never changed once built. */
  datatype Grants = Grants(
    populated: bool,
    affinity: Affinity,
    partialRevokes: bool,
    accountGrantee: string,
    roleGrantees: set<string>,
    global: map<Privilege, Sources>,
    schema: map<SchemaKey, Sources>,
    table: map<TableKey, Sources>,
    column: map<TableKey, Sources>
  )

  /** Reading a missing map key gives the zero value. */
  function At<K>(m: map<K, Sources>, k: K): Sources {
    if k in m then m[k] else NO_SOURCES
  }

  /**
  Case-insensitive equality, character by character. `fold` picks one representative
  from each class of characters that differ only in case.
  */
  predicate EqualFold(fold: char -> char, x: string, y: string) {
    |x| == |y| && forall i :: 0 <= i < |x| ==> fold(x[i]) == fold(y[i])
  }

  const MYSQL_SCHEMA := "mysql"

  /** Whether the account is known to see the privilege rows of other accounts. */
  predicate BroadVisibility(g: Grants) {
    || At(g.schema, SchemaKey(MYSQL_SCHEMA, Select)).account
    || (!g.partialRevokes && At(g.global, Select).account)
  }

  /** What one key's sources say on their own. */
  function StateForSources(g: Grants, sources: Sources): (state: GrantState)
    ensures state == Present <==> sources.account && g.affinity != Opaque
    ensures state == Absent <==> !sources.Nonzero()
    ensures state != Unknown
  {
    if sources.account then
      if g.affinity.Opaque? then Unconfirmed else Present
    else if sources.role then
      Unconfirmed
    else if sources.anonymous then
      Unconfirmed
    else
      Absent
  }

  // ---------------------------------------------------------------------------
  // What the answers mean, in terms of stored rows.

  /** The object a privilege is asked about. */
  datatype Scope = Everywhere | OfSchema(schema: string) | OfTable(schema: string, table: string)

  /** A stored grant, at one of the four levels the server keeps. */
  datatype StoredRow =
    | GlobalRow
    | SchemaRow(schema: string)
    | TableRow(schema: string, table: string)
    | ColumnRow(schema: string, table: string)

  function Stored(g: Grants, row: StoredRow, priv: Privilege): Sources {
    match row
    case GlobalRow => At(g.global, priv)
    case SchemaRow(s) => At(g.schema, SchemaKey(s, priv))
    case TableRow(s, t) => At(g.table, TableKey(s, t, priv))
    case ColumnRow(s, t) => At(g.column, TableKey(s, t, priv))
  }

  /** The row names the object exactly, at a level that grants the whole object. */
  predicate Establishes(g: Grants, row: StoredRow, scope: Scope) {
    match row
    case GlobalRow => !g.partialRevokes
    case SchemaRow(s) => !scope.Everywhere? && s == scope.schema
    case TableRow(s, t) => scope == OfTable(s, t)
    case ColumnRow(_, _) => false
  }

  /**
  The row bears on the object: it is global, names it up to case, or (while partial
  revokes are off) is a schema pattern that covers the object's schema.
  */
  predicate Touches(g: Grants, fold: char -> char, row: StoredRow, scope: Scope) {
    match row
    case GlobalRow => true
    case SchemaRow(s) =>
      && !scope.Everywhere?
      && (|| EqualFold(fold, s, scope.schema)
          || (!g.partialRevokes && Wildcards.Covers(s, scope.schema)))
    case TableRow(s, t) =>
      scope.OfTable? && EqualFold(fold, s, scope.schema) && EqualFold(fold, t, scope.table)
    case ColumnRow(s, t) =>
      scope.OfTable? && EqualFold(fold, s, scope.schema) && EqualFold(fold, t, scope.table)
  }

  ghost predicate Proven(g: Grants, scope: Scope, priv: Privilege) {
    exists row :: Establishes(g, row, scope) && Stored(g, row, priv).account
  }

  ghost predicate Untouched(g: Grants, fold: char -> char, scope: Scope, priv: Privilege) {
    forall row :: Touches(g, fold, row, scope) ==> !Stored(g, row, priv).Nonzero()
  }

  /** The session could not hold the privilege by a path this fact does not read. */
  predicate Conclusive(g: Grants) {
    g.affinity == Pinned && g.roleGrantees == {} && BroadVisibility(g)
  }

  /** The documented meaning of an answer, for all three kinds of question. */
  ghost function Answer(g: Grants, fold: char -> char, scope: Scope, priv: Privilege): GrantState {
    if !g.populated || !priv.Valid() then
      Unknown
    else if g.affinity != Opaque && Proven(g, scope, priv) then
      Present
    else if Conclusive(g) && Untouched(g, fold, scope, priv) then
      Absent
    else
      Unconfirmed
  }

  // ---------------------------------------------------------------------------
  // Resolution from exact rows.

  predicate GlobalProves(g: Grants, global: Sources) {
    !g.partialRevokes && StateForSources(g, global) == Present
  }

  /** The outcome of `Resolve`, whatever the order of the specific sources. */
  function Resolved(g: Grants, priv: Privilege, specific: seq<Sources>, global: Sources): GrantState {
    if !priv.Valid() || !g.populated then
      Unknown
    else if (exists s :: s in specific && StateForSources(g, s) == Present) || GlobalProves(g, global) then
      Present
    else if (exists s :: s in specific && s.Nonzero()) || global.Nonzero() || !Conclusive(g) then
      Unconfirmed
    else
      Absent
  }

  method Resolve(g: Grants, priv: Privilege, specific: seq<Sources>, global: Sources) returns (state: GrantState)
    ensures state == Resolved(g, priv, specific, global)
  {
    if !priv.Valid() || !g.populated {
      return Unknown;
    }
    var unconfirmed := false;
    for i := 0 to |specific|
      invariant forall s :: s in specific[..i] ==> StateForSources(g, s) != Present
      invariant unconfirmed <==> exists s :: s in specific[..i] && s.Nonzero()
    {
      var here := StateForSources(g, specific[i]);
      assert specific[..i + 1] == specific[..i] + [specific[i]];
      if here == Present {
        assert specific[i] in specific;
        return Present;
      }
      if here == Unconfirmed {
        unconfirmed := true;
      }
    }
    assert specific[..|specific|] == specific;
    if global.Nonzero() {
      if g.partialRevokes {
        unconfirmed := true;
      } else {
        var here := StateForSources(g, global);
        if here == Present {
          return Present;
        }
        if here == Unconfirmed {
          unconfirmed := true;
        }
      }
    }
    if unconfirmed || g.roleGrantees != {} || g.affinity != Pinned || !BroadVisibility(g) {
      return Unconfirmed;
    }
    return Absent;
  }

  // ---------------------------------------------------------------------------
  // The two scans of the schema map, in whatever order the map is walked.

  /** A recorded schema row for `priv`, spelled differently from `schema`. */
  predicate OtherSchemaRow(g: Grants, key: SchemaKey, schema: string, priv: Privilege) {
    key.privilege == priv && At(g.schema, key).Nonzero() && key.schema != schema
  }

  predicate PatternCovered(g: Grants, schema: string, priv: Privilege) {
    exists key :: key in g.schema && OtherSchemaRow(g, key, schema, priv) && Wildcards.Covers(key.schema, schema)
  }

  predicate SchemaCaseVariant(g: Grants, fold: char -> char, schema: string, priv: Privilege) {
    exists key :: key in g.schema && OtherSchemaRow(g, key, schema, priv) && EqualFold(fold, key.schema, schema)
  }

  method SchemaPatternCovers(g: Grants, schema: string, priv: Privilege) returns (found: bool)
    ensures found <==> PatternCovered(g, schema, priv)
  {
    var remaining := g.schema.Keys;
    while remaining != {}
      invariant remaining <= g.schema.Keys
      invariant forall key :: key in g.schema && key !in remaining && OtherSchemaRow(g, key, schema, priv) ==>
                                !Wildcards.Covers(key.schema, schema)
      decreases |remaining|
    {
      var key :| key in remaining;
      remaining := remaining - {key};
      if key.privilege != priv || !g.schema[key].Nonzero() || key.schema == schema {
        continue;
      }
      var matches, _ := Wildcards.LikePatternMatches(key.schema, schema);
      if matches {
        return true;
      }
    }
    return false;
  }

  method SchemaCaseVariantMatches(g: Grants, fold: char -> char, schema: string, priv: Privilege)
    returns (found: bool)
    ensures found <==> SchemaCaseVariant(g, fold, schema, priv)
  {
    var remaining := g.schema.Keys;
    while remaining != {}
      invariant remaining <= g.schema.Keys
      invariant forall key :: key in g.schema && key !in remaining && OtherSchemaRow(g, key, schema, priv) ==>
                                !EqualFold(fold, key.schema, schema)
      decreases |remaining|
    {
      var key :| key in remaining;
      remaining := remaining - {key};
      if key.privilege == priv && g.schema[key].Nonzero() && key.schema != schema &&
         EqualFold(fold, key.schema, schema) {
        return true;
      }
    }
    return false;
  }

  /** A row of a table-keyed map that names the table up to case, but not exactly. */
  predicate TableCaseVariant(fold: char -> char, grants: map<TableKey, Sources>, key: TableKey,
                             schema: string, table: string, priv: Privilege) {
    && key.privilege == priv && At(grants, key).Nonzero() && !(key.schema == schema && key.table == table)
    && EqualFold(fold, key.schema, schema) && EqualFold(fold, key.table, table)
  }

  method TableCaseVariantMatches(fold: char -> char, grants: map<TableKey, Sources>,
                                 schema: string, table: string, priv: Privilege) returns (found: bool)
    ensures found <==> exists key :: key in grants && TableCaseVariant(fold, grants, key, schema, table, priv)
  {
    var remaining := grants.Keys;
    while remaining != {}
      invariant remaining <= grants.Keys
      invariant forall key :: key in grants && key !in remaining ==>
                                !TableCaseVariant(fold, grants, key, schema, table, priv)
      decreases |remaining|
    {
      var key :| key in remaining;
      remaining := remaining - {key};
      if key.privilege != priv || !grants[key].Nonzero() || (key.schema == schema && key.table == table) {
        continue;
      }
      if EqualFold(fold, key.schema, schema) && EqualFold(fold, key.table, table) {
        return true;
      }
    }
    return false;
  }

  // ---------------------------------------------------------------------------
  // The memo and the downgrade chain.

  /** Caches the two whole-map scans, which depend only on the schema and the privilege. */
  class SchemaScanMemo {
    var patternKnown: bool
    var patternCovers: bool
    var variantKnown: bool
    var variantMatches: bool

    constructor ()
      ensures !patternKnown && !variantKnown
    {
      patternKnown, patternCovers, variantKnown, variantMatches := false, false, false, false;
    }

    /** Whatever has been cached is the answer of the scan it stands for. */
    predicate AgreesWith(g: Grants, fold: char -> char, schema: string, priv: Privilege)
      reads this
    {
      && (patternKnown ==> patternCovers == PatternCovered(g, schema, priv))
      && (variantKnown ==> variantMatches == SchemaCaseVariant(g, fold, schema, priv))
    }
  }

  method DowngradeForSchemaPattern(g: Grants, fold: char -> char, state: GrantState, schema: string,
                                   priv: Privilege, memo: SchemaScanMemo) returns (r: GrantState)
    requires memo.AgreesWith(g, fold, schema, priv)
    modifies memo
    ensures memo.AgreesWith(g, fold, schema, priv)
    ensures r == if state == Absent && !g.partialRevokes && PatternCovered(g, schema, priv) then Unconfirmed else state
  {
    if state != Absent {
      return state;
    }
    if g.partialRevokes {
      return state;
    }
    if !memo.patternKnown {
      var covers := SchemaPatternCovers(g, schema, priv);
      memo.patternCovers := covers;
      memo.patternKnown := true;
    }
    if memo.patternCovers {
      return Unconfirmed;
    }
    return state;
  }

  function DowngradeForColumnGrant(g: Grants, state: GrantState, schema: string, table: string,
                                   priv: Privilege): (r: GrantState)
    ensures r != state ==> state == Absent && r == Unconfirmed
    ensures r == Absent ==> !Stored(g, ColumnRow(schema, table), priv).Nonzero()
  {
    if state != Absent then state
    else if At(g.column, TableKey(schema, table, priv)).Nonzero() then Unconfirmed
    else state
  }

  method DowngradeForSchemaCaseVariant(g: Grants, fold: char -> char, state: GrantState, schema: string,
                                       priv: Privilege) returns (r: GrantState)
    ensures r == if state == Absent && SchemaCaseVariant(g, fold, schema, priv) then Unconfirmed else state
  {
    if state != Absent {
      return state;
    }
    var matches := SchemaCaseVariantMatches(g, fold, schema, priv);
    if matches {
      return Unconfirmed;
    }
    return state;
  }

  /** Some table or column row names the table up to case, but not exactly. */
  predicate AnyTableCaseVariant(g: Grants, fold: char -> char, schema: string, table: string, priv: Privilege) {
    || (exists key :: key in g.table && TableCaseVariant(fold, g.table, key, schema, table, priv))
    || (exists key :: key in g.column && TableCaseVariant(fold, g.column, key, schema, table, priv))
  }

  /** Scans the table map, then the column map. */
  method AnyTableCaseVariantMatches(g: Grants, fold: char -> char, schema: string, table: string, priv: Privilege)
    returns (found: bool)
    ensures found <==> AnyTableCaseVariant(g, fold, schema, table, priv)
  {
    found := TableCaseVariantMatches(fold, g.table, schema, table, priv);
    if found {
      return true;
    }
    found := TableCaseVariantMatches(fold, g.column, schema, table, priv);
  }

  method DowngradeForTableCaseVariant(g: Grants, fold: char -> char, state: GrantState, schema: string,
                                      table: string, priv: Privilege, memo: SchemaScanMemo) returns (r: GrantState)
    requires memo.AgreesWith(g, fold, schema, priv)
    modifies memo
    ensures memo.AgreesWith(g, fold, schema, priv)
    ensures r == if state == Absent &&
                    (SchemaCaseVariant(g, fold, schema, priv) || AnyTableCaseVariant(g, fold, schema, table, priv))
                 then Unconfirmed else state
  {
    if state != Absent {
      return state;
    }
    if !memo.variantKnown {
      var matches := SchemaCaseVariantMatches(g, fold, schema, priv);
      memo.variantMatches := matches;
      memo.variantKnown := true;
    }
    if memo.variantMatches {
      return Unconfirmed;
    }
    var found := AnyTableCaseVariantMatches(g, fold, schema, table, priv);
    if found {
      return Unconfirmed;
    }
    return state;
  }

  // ---------------------------------------------------------------------------
  // The three questions.

  /** No stored row touches a schema: stated once by rows, once by the scans that look for them. */
  lemma SchemaRowsUntouched(g: Grants, fold: char -> char, schema: string, priv: Privilege, scope: Scope)
    requires !scope.Everywhere? && scope.schema == schema
    ensures (forall s :: Touches(g, fold, SchemaRow(s), scope) ==> !Stored(g, SchemaRow(s), priv).Nonzero()) <==>
            && !At(g.schema, SchemaKey(schema, priv)).Nonzero()
            && !SchemaCaseVariant(g, fold, schema, priv)
            && (g.partialRevokes || !PatternCovered(g, schema, priv))
  {
    if forall s :: Touches(g, fold, SchemaRow(s), scope) ==> !Stored(g, SchemaRow(s), priv).Nonzero() {
      assert Touches(g, fold, SchemaRow(schema), scope);
      forall key | key in g.schema && OtherSchemaRow(g, key, schema, priv)
        ensures !EqualFold(fold, key.schema, schema)
        ensures g.partialRevokes || !Wildcards.Covers(key.schema, schema)
      {
        assert key == SchemaKey(key.schema, priv);
        assert !Touches(g, fold, SchemaRow(key.schema), scope);
      }
    }
    if && !At(g.schema, SchemaKey(schema, priv)).Nonzero()
       && !SchemaCaseVariant(g, fold, schema, priv)
       && (g.partialRevokes || !PatternCovered(g, schema, priv))
    {
      forall s | Touches(g, fold, SchemaRow(s), scope)
        ensures !Stored(g, SchemaRow(s), priv).Nonzero()
      {
        var key := SchemaKey(s, priv);
        if At(g.schema, key).Nonzero() {
          assert key in g.schema && OtherSchemaRow(g, key, schema, priv);
        }
      }
    }
  }

  /** The same for the rows kept per table, in one of the two maps. */
  lemma TableRowsUntouched(fold: char -> char, grants: map<TableKey, Sources>, schema: string, table: string,
                           priv: Privilege)
    ensures (forall s, t :: EqualFold(fold, s, schema) && EqualFold(fold, t, table) ==>
                              !At(grants, TableKey(s, t, priv)).Nonzero()) <==>
            && !At(grants, TableKey(schema, table, priv)).Nonzero()
            && !exists key :: key in grants && TableCaseVariant(fold, grants, key, schema, table, priv)
  {
    if forall s, t :: EqualFold(fold, s, schema) && EqualFold(fold, t, table) ==>
                        !At(grants, TableKey(s, t, priv)).Nonzero()
    {
      assert EqualFold(fold, schema, schema) && EqualFold(fold, table, table);
      forall key | key in grants
        ensures !TableCaseVariant(fold, grants, key, schema, table, priv)
      {
        assert key == TableKey(key.schema, key.table, key.privilege);
      }
    }
    if && !At(grants, TableKey(schema, table, priv)).Nonzero()
       && !exists key :: key in grants && TableCaseVariant(fold, grants, key, schema, table, priv)
    {
      forall s, t | EqualFold(fold, s, schema) && EqualFold(fold, t, table)
        ensures !At(grants, TableKey(s, t, priv)).Nonzero()
      {
        var key := TableKey(s, t, priv);
        if At(grants, key).Nonzero() {
          assert key in grants && TableCaseVariant(fold, grants, key, schema, table, priv);
        }
      }
    }
  }

  /** Untouched, for a table, is exactly the absence every step of the chain checks for. */
  lemma TableUntouched(g: Grants, fold: char -> char, schema: string, table: string, priv: Privilege)
    ensures Untouched(g, fold, OfTable(schema, table), priv) <==>
            && !At(g.global, priv).Nonzero()
            && !At(g.schema, SchemaKey(schema, priv)).Nonzero()
            && !At(g.table, TableKey(schema, table, priv)).Nonzero()
            && !At(g.column, TableKey(schema, table, priv)).Nonzero()
            && (g.partialRevokes || !PatternCovered(g, schema, priv))
            && !SchemaCaseVariant(g, fold, schema, priv)
            && !AnyTableCaseVariant(g, fold, schema, table, priv)
  {
    var scope := OfTable(schema, table);
    SchemaRowsUntouched(g, fold, schema, priv, scope);
    TableRowsUntouched(fold, g.table, schema, table, priv);
    TableRowsUntouched(fold, g.column, schema, table, priv);
    if Untouched(g, fold, scope, priv) {
      assert Touches(g, fold, GlobalRow, scope);
      forall s, t | EqualFold(fold, s, schema) && EqualFold(fold, t, table)
        ensures !At(g.table, TableKey(s, t, priv)).Nonzero() && !At(g.column, TableKey(s, t, priv)).Nonzero()
      {
        assert Touches(g, fold, TableRow(s, t), scope) && Touches(g, fold, ColumnRow(s, t), scope);
      }
    }
  }

  lemma SchemaUntouched(g: Grants, fold: char -> char, schema: string, priv: Privilege)
    ensures Untouched(g, fold, OfSchema(schema), priv) <==>
            && !At(g.global, priv).Nonzero()
            && !At(g.schema, SchemaKey(schema, priv)).Nonzero()
            && (g.partialRevokes || !PatternCovered(g, schema, priv))
            && !SchemaCaseVariant(g, fold, schema, priv)
  {
    var scope := OfSchema(schema);
    SchemaRowsUntouched(g, fold, schema, priv, scope);
    if Untouched(g, fold, scope, priv) {
      assert Touches(g, fold, GlobalRow, scope);
    }
  }

  lemma ProvenRows(g: Grants, scope: Scope, priv: Privilege)
    ensures Proven(g, scope, priv) <==>
            || (!g.partialRevokes && At(g.global, priv).account)
            || (!scope.Everywhere? && At(g.schema, SchemaKey(scope.schema, priv)).account)
            || (scope.OfTable? && At(g.table, TableKey(scope.schema, scope.table, priv)).account)
  {
    assert Establishes(g, GlobalRow, scope) <==> !g.partialRevokes;
    if !scope.Everywhere? {
      assert Establishes(g, SchemaRow(scope.schema), scope);
    }
    if scope.OfTable? {
      assert Establishes(g, TableRow(scope.schema, scope.table), scope);
    }
  }

  /** Global scope: no row is looked up by name, so only the global row bears on it. */
  method Global(g: Grants, fold: char -> char, priv: Privilege) returns (state: GrantState)
    ensures state == Answer(g, fold, Everywhere, priv)
  {
    state := Resolve(g, priv, [], At(g.global, priv));
    ProvenRows(g, Everywhere, priv);
    assert Touches(g, fold, GlobalRow, Everywhere);
  }

  method Schema(g: Grants, fold: char -> char, schema: string, priv: Privilege) returns (state: GrantState)
    ensures state == Answer(g, fold, OfSchema(schema), priv)
  {
    var own := At(g.schema, SchemaKey(schema, priv));
    state := Resolve(g, priv, [own], At(g.global, priv));
    var memo := new SchemaScanMemo();
    state := DowngradeForSchemaPattern(g, fold, state, schema, priv, memo);
    state := DowngradeForSchemaCaseVariant(g, fold, state, schema, priv);
    assert own in [own];
    ProvenRows(g, OfSchema(schema), priv);
    SchemaUntouched(g, fold, schema, priv);
  }

  method TableState(g: Grants, fold: char -> char, schema: string, table: string, priv: Privilege,
                    memo: SchemaScanMemo) returns (state: GrantState)
    requires memo.AgreesWith(g, fold, schema, priv)
    modifies memo
    ensures memo.AgreesWith(g, fold, schema, priv)
    ensures state == Answer(g, fold, OfTable(schema, table), priv)
  {
    var ofTable := At(g.table, TableKey(schema, table, priv));
    var ofSchema := At(g.schema, SchemaKey(schema, priv));
    state := Resolve(g, priv, [ofTable, ofSchema], At(g.global, priv));
    state := DowngradeForSchemaPattern(g, fold, state, schema, priv, memo);
    state := DowngradeForColumnGrant(g, state, schema, table, priv);
    state := DowngradeForTableCaseVariant(g, fold, state, schema, table, priv, memo);
    assert ofTable in [ofTable, ofSchema] && ofSchema in [ofTable, ofSchema];
    ProvenRows(g, OfTable(schema, table), priv);
    TableUntouched(g, fold, schema, table, priv);
  }

  method Table(g: Grants, fold: char -> char, schema: string, table: string, priv: Privilege)
    returns (state: GrantState)
    ensures state == Answer(g, fold, OfTable(schema, table), priv)
  {
    var memo := new SchemaScanMemo();
    state := TableState(g, fold, schema, table, priv, memo);
  }

  // ---------------------------------------------------------------------------
  // Properties of the answers.

  /** Seeing other accounts' rows takes a proof of SELECT on the schema that holds them. */
  lemma VisibilityIsProvenSelect(g: Grants)
    ensures BroadVisibility(g) <==> Proven(g, OfSchema("mysql"), Select)
  {
    ProvenRows(g, OfSchema("mysql"), Select);
  }

  /** The answers are about the declared privileges, once the fact is read. */
  lemma UnknownExactly(g: Grants, fold: char -> char, scope: Scope, priv: Privilege)
    ensures Answer(g, fold, scope, priv) == Unknown <==>
            !g.populated || priv !in {Select, Insert, Update, Delete, Create, Trigger}
  {
  }

  /**
  Absent means exactly: a populated fact, a declared privilege, a pinned role-free session
  that is proven to see other accounts' rows, and no recorded row that touches the object.
  */
  lemma AbsentExactly(g: Grants, fold: char -> char, scope: Scope, priv: Privilege)
    ensures Answer(g, fold, scope, priv) == Absent <==>
            && g.populated && priv in {Select, Insert, Update, Delete, Create, Trigger}
            && g.affinity == Pinned && g.roleGrantees == {} && Proven(g, OfSchema("mysql"), Select)
            && forall row :: Touches(g, fold, row, scope) ==> !Stored(g, row, priv).Nonzero()
  {
    hide Stored;
    VisibilityIsProvenSelect(g);
    if Proven(g, scope, priv) {
      var row :| Establishes(g, row, scope) && Stored(g, row, priv).account;
      EstablishingTouches(g, fold, row, scope);
    }
  }

  /** What proves an object, read off the three maps that can. */
  lemma PresentExactly(g: Grants, fold: char -> char, scope: Scope, priv: Privilege)
    ensures Answer(g, fold, scope, priv) == Present <==>
            && g.populated && priv in {Select, Insert, Update, Delete, Create, Trigger}
            && (g.affinity == Pinned || g.affinity == Pool)
            && (|| (!g.partialRevokes && priv in g.global && g.global[priv].account)
                || (!scope.Everywhere? && var key := SchemaKey(scope.schema, priv);
                    key in g.schema && g.schema[key].account)
                || (scope.OfTable? && var key := TableKey(scope.schema, scope.table, priv);
                    key in g.table && g.table[key].account))
  {
    ProvenRows(g, scope, priv);
  }

  /** The same letters up to case, at every position. */
  predicate SameLetters(fold: char -> char, x: string, y: string) {
    |x| == |y| && forall i :: 0 <= i < |x| ==> fold(x[i]) == fold(y[i])
  }

  /** Which recorded rows keep a table's answer from being absent, read off the four maps. */
  lemma UntouchedByMaps(g: Grants, fold: char -> char, schema: string, table: string, priv: Privilege)
    ensures (forall row :: Touches(g, fold, row, OfTable(schema, table)) ==> !Stored(g, row, priv).Nonzero()) <==>
            && (priv in g.global ==> g.global[priv] == Sources(false, false, false))
            && (forall s :: SchemaKey(s, priv) in g.schema ==>
                  SameLetters(fold, s, schema) || (!g.partialRevokes && Wildcards.Covers(s, schema)) ==>
                  g.schema[SchemaKey(s, priv)] == Sources(false, false, false))
            && (forall s, t :: TableKey(s, t, priv) in g.table ==>
                  SameLetters(fold, s, schema) && SameLetters(fold, t, table) ==>
                  g.table[TableKey(s, t, priv)] == Sources(false, false, false))
            && (forall s, t :: TableKey(s, t, priv) in g.column ==>
                  SameLetters(fold, s, schema) && SameLetters(fold, t, table) ==>
                  g.column[TableKey(s, t, priv)] == Sources(false, false, false))
  {
    hide Wildcards.Covers;
    var scope := OfTable(schema, table);
    if forall row :: Touches(g, fold, row, scope) ==> !Stored(g, row, priv).Nonzero() {
      assert Touches(g, fold, GlobalRow, scope);
      forall s | SchemaKey(s, priv) in g.schema &&
                 (SameLetters(fold, s, schema) || (!g.partialRevokes && Wildcards.Covers(s, schema)))
        ensures g.schema[SchemaKey(s, priv)] == Sources(false, false, false)
      {
        assert Touches(g, fold, SchemaRow(s), scope);
      }
      forall s, t | SameLetters(fold, s, schema) && SameLetters(fold, t, table)
        ensures TableKey(s, t, priv) in g.table ==> g.table[TableKey(s, t, priv)] == Sources(false, false, false)
        ensures TableKey(s, t, priv) in g.column ==> g.column[TableKey(s, t, priv)] == Sources(false, false, false)
      {
        assert Touches(g, fold, TableRow(s, t), scope) && Touches(g, fold, ColumnRow(s, t), scope);
      }
    }
  }

  /** Under partial revokes a global row proves no object, and a pattern row weakens none. */
  lemma PartialRevokesNarrowEvidence(g: Grants, fold: char -> char, scope: Scope, priv: Privilege)
    requires g.partialRevokes
    ensures Answer(g, fold, scope, priv) == Present ==>
              !scope.Everywhere? &&
              (At(g.schema, SchemaKey(scope.schema, priv)).account ||
               (scope.OfTable? && At(g.table, TableKey(scope.schema, scope.table, priv)).account))
    ensures forall s :: Touches(g, fold, SchemaRow(s), scope) ==> EqualFold(fold, s, scope.schema)
  {
    ProvenRows(g, scope, priv);
  }

  /**
  `more` is `g` with role or anonymous evidence added to some entries (possibly new
  ones): no account bit changes and no bit is lost.
  */
  ghost predicate AddsForeignEvidence(g: Grants, more: Grants) {
    && more == g.(global := more.global, schema := more.schema, table := more.table, column := more.column)
    && forall row, priv ::
      Stored(g, row, priv).Within(Stored(more, row, priv)) &&
      (Stored(more, row, priv).account ==> Stored(g, row, priv).account)
  }

  /** Evidence that is not the account's own leaves an answer alone or turns absent into unconfirmed. */
  lemma ForeignEvidenceOnlyWeakens(g: Grants, more: Grants, fold: char -> char, scope: Scope, priv: Privilege)
    requires AddsForeignEvidence(g, more)
    ensures var before, after := Answer(g, fold, scope, priv), Answer(more, fold, scope, priv);
            after == before || (before == Absent && after == Unconfirmed)
    ensures Answer(more, fold, scope, priv) == Absent <==>
            Answer(g, fold, scope, priv) == Absent && Untouched(more, fold, scope, priv)
  {
    ForeignEvidenceProvesNothing(g, more, scope, priv);
    ForeignEvidenceLendsNoVisibility(g, more);
    ForeignEvidenceTouches(g, more, fold, scope, priv);
  }

  lemma ForeignEvidenceProvesNothing(g: Grants, more: Grants, scope: Scope, priv: Privilege)
    requires AddsForeignEvidence(g, more)
    ensures Proven(g, scope, priv) <==> Proven(more, scope, priv)
  {
    if Proven(g, scope, priv) {
      var row :| Establishes(g, row, scope) && Stored(g, row, priv).account;
      assert Establishes(more, row, scope) && Stored(more, row, priv).account;
    }
    if Proven(more, scope, priv) {
      var row :| Establishes(more, row, scope) && Stored(more, row, priv).account;
      assert Establishes(g, row, scope) && Stored(g, row, priv).account;
    }
  }

  lemma ForeignEvidenceLendsNoVisibility(g: Grants, more: Grants)
    requires AddsForeignEvidence(g, more)
    ensures BroadVisibility(g) == BroadVisibility(more)
  {
    var schemaRow := SchemaRow(MYSQL_SCHEMA);
    assert Stored(g, schemaRow, Select).account == Stored(more, schemaRow, Select).account;
    assert Stored(g, GlobalRow, Select).account == Stored(more, GlobalRow, Select).account;
  }

  lemma ForeignEvidenceTouches(g: Grants, more: Grants, fold: char -> char, scope: Scope, priv: Privilege)
    requires AddsForeignEvidence(g, more)
    ensures Untouched(more, fold, scope, priv) ==> Untouched(g, fold, scope, priv)
  {
    if Untouched(more, fold, scope, priv) {
      forall row | Touches(g, fold, row, scope)
        ensures !Stored(g, row, priv).Nonzero()
      {
        assert Touches(more, fold, row, scope);
        assert Stored(g, row, priv).Within(Stored(more, row, priv));
      }
    }
  }

  /** `inner` lies inside `outer`. */
  predicate Inside(inner: Scope, outer: Scope) {
    || outer.Everywhere?
    || (outer.OfSchema? && !inner.Everywhere? && inner.schema == outer.schema)
    || inner == outer
  }

  /** A proof carries down to narrower scopes, an absence carries up to wider ones. */
  lemma AnswersNest(g: Grants, fold: char -> char, inner: Scope, outer: Scope, priv: Privilege)
    requires Inside(inner, outer)
    ensures Answer(g, fold, outer, priv) == Present ==> Answer(g, fold, inner, priv) == Present
    ensures Answer(g, fold, inner, priv) == Absent ==> Answer(g, fold, outer, priv) == Absent
  {
    if Proven(g, outer, priv) {
      var row :| Establishes(g, row, outer) && Stored(g, row, priv).account;
      assert Establishes(g, row, inner);
    }
    if Untouched(g, fold, inner, priv) {
      forall row | Touches(g, fold, row, outer)
        ensures !Stored(g, row, priv).Nonzero()
      {
        assert Touches(g, fold, row, inner);
      }
      if Proven(g, outer, priv) {
        var row :| Establishes(g, row, outer) && Stored(g, row, priv).account;
        EstablishingTouches(g, fold, row, outer);
      }
    }
  }

  lemma EstablishingTouches(g: Grants, fold: char -> char, row: StoredRow, scope: Scope)
    requires Establishes(g, row, scope)
    ensures Touches(g, fold, row, scope)
  {
  }

  /** A pool confirms what a pinned session confirms and denies nothing; an opaque querier decides nothing. */
  lemma AffinityLimitsAnswers(g: Grants, fold: char -> char, scope: Scope, priv: Privilege)
    ensures Answer(g.(affinity := Pool), fold, scope, priv) == Present <==>
            Answer(g.(affinity := Pinned), fold, scope, priv) == Present
    ensures Answer(g.(affinity := Pool), fold, scope, priv) != Absent
    ensures Answer(g.(affinity := Opaque), fold, scope, priv) in {Unknown, Unconfirmed}
  {
    ProvenRows(g, scope, priv);
    ProvenRows(g.(affinity := Pool), scope, priv);
    ProvenRows(g.(affinity := Pinned), scope, priv);
  }
}
