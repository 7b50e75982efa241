/** The checks that ask one privilege question per requested object. */
module GrantChecks {
  import opened Grants

  const ID_TABLE_PRIVILEGES := "TABLE_PRIVILEGES"
  const ID_SCHEMA_PRIVILEGES := "SCHEMA_PRIVILEGES"
  const ID_TRIGGER_METADATA_VISIBILITY := "TRIGGER_METADATA_VISIBILITY"

  /** The typed payload; `table` is empty for a schema-scoped answer. */
  datatype PrivilegeFact = PrivilegeFact(schema: string, table: string, privilege: Privilege, state: GrantState)

  datatype Finding = Finding(check: string, tables: seq<string>, fact: PrivilegeFact)

  /** The memo-free answers, one finding for each that is not present, in request order. */
  ghost function TableFindings(g: Grants, fold: char -> char, check: string, schema: string,
                               tables: seq<string>, priv: Privilege): seq<Finding> {
    if tables == [] then
      []
    else
      var state := Answer(g, fold, OfTable(schema, tables[0]), priv);
      var rest := TableFindings(g, fold, check, schema, tables[1..], priv);
      if state == Present then rest
      else [Finding(check, [tables[0]], PrivilegeFact(schema, tables[0], priv, state))] + rest
  }

  ghost function SchemaFindings(g: Grants, fold: char -> char, schema: string, privs: seq<Privilege>): seq<Finding> {
    if privs == [] then
      []
    else
      var state := Answer(g, fold, OfSchema(schema), privs[0]);
      var rest := SchemaFindings(g, fold, schema, privs[1..]);
      if state == Present then rest
      else [Finding(ID_SCHEMA_PRIVILEGES, [], PrivilegeFact(schema, "", privs[0], state))] + rest
  }

  /** Splitting a request anywhere splits the findings: no table's answer depends on its neighbours. */
  lemma {:induction false} FindingsSplit(g: Grants, fold: char -> char, check: string, schema: string,
                                         left: seq<string>, right: seq<string>, priv: Privilege)
    ensures TableFindings(g, fold, check, schema, left + right, priv) ==
            TableFindings(g, fold, check, schema, left, priv) + TableFindings(g, fold, check, schema, right, priv)
  {
    if left == [] {
      assert left + right == right;
    } else {
      assert (left + right)[1..] == left[1..] + right;
      FindingsSplit(g, fold, check, schema, left[1..], right, priv);
    }
  }

  /** How often a table is reported: once per request if its answer is not present, else never. */
  lemma {:induction false} FindingMultiplicity(g: Grants, fold: char -> char, check: string, schema: string,
                                               tables: seq<string>, priv: Privilege, finding: Finding)
    ensures multiset(TableFindings(g, fold, check, schema, tables, priv))[finding] ==
            var table := finding.fact.table;
            var state := Answer(g, fold, OfTable(schema, table), priv);
            if state != Present && finding == Finding(check, [table], PrivilegeFact(schema, table, priv, state))
            then multiset(tables)[table]
            else 0
  {
    hide Answer;
    if tables == [] {
    } else {
      FindingMultiplicity(g, fold, check, schema, tables[1..], priv, finding);
      assert tables == [tables[0]] + tables[1..];
    }
  }

  /** A check passes exactly when every requested table is proven. */
  lemma {:induction false} PassesExactlyWhenAllPresent(g: Grants, fold: char -> char, check: string,
                                                       schema: string, tables: seq<string>, priv: Privilege)
    ensures TableFindings(g, fold, check, schema, tables, priv) == [] <==>
            forall table :: table in tables ==> Answer(g, fold, OfTable(schema, table), priv) == Present
  {
    if tables == [] {
    } else {
      PassesExactlyWhenAllPresent(g, fold, check, schema, tables[1..], priv);
      assert tables == [tables[0]] + tables[1..];
      assert tables[0] in tables;
    }
  }

  method CheckTablePrivileges(g: Grants, fold: char -> char, schema: string, tables: seq<string>, priv: Privilege)
    returns (findings: seq<Finding>)
    ensures findings == TableFindings(g, fold, "TABLE_PRIVILEGES", schema, tables, priv)
  {
    var memo := new SchemaScanMemo();
    findings := [];
    for i := 0 to |tables|
      invariant memo.AgreesWith(g, fold, schema, priv)
      invariant findings == TableFindings(g, fold, ID_TABLE_PRIVILEGES, schema, tables[..i], priv)
    {
      var table := tables[i];
      var state := TableState(g, fold, schema, table, priv, memo);
      FindingsSplit(g, fold, ID_TABLE_PRIVILEGES, schema, tables[..i], [table], priv);
      assert tables[..i + 1] == tables[..i] + [table];
      if state == Present {
        continue;
      }
      findings := findings + [Finding(ID_TABLE_PRIVILEGES, [table], PrivilegeFact(schema, table, priv, state))];
    }
    assert tables[..|tables|] == tables;
  }

  method CheckTriggerVisibility(g: Grants, fold: char -> char, schema: string, tables: seq<string>)
    returns (findings: seq<Finding>)
    ensures findings == TableFindings(g, fold, "TRIGGER_METADATA_VISIBILITY", schema, tables, Trigger)
  {
    var memo := new SchemaScanMemo();
    findings := [];
    for i := 0 to |tables|
      invariant memo.AgreesWith(g, fold, schema, Trigger)
      invariant findings == TableFindings(g, fold, ID_TRIGGER_METADATA_VISIBILITY, schema, tables[..i], Trigger)
    {
      var table := tables[i];
      var state := TableState(g, fold, schema, table, Trigger, memo);
      FindingsSplit(g, fold, ID_TRIGGER_METADATA_VISIBILITY, schema, tables[..i], [table], Trigger);
      assert tables[..i + 1] == tables[..i] + [table];
      if state == Present {
        continue;
      }
      findings := findings +
        [Finding(ID_TRIGGER_METADATA_VISIBILITY, [table], PrivilegeFact(schema, table, Trigger, state))];
    }
    assert tables[..|tables|] == tables;
  }

  method CheckSchemaPrivileges(g: Grants, fold: char -> char, schema: string, privs: seq<Privilege>)
    returns (findings: seq<Finding>)
    ensures findings == SchemaFindings(g, fold, schema, privs)
  {
    findings := [];
    for i := 0 to |privs|
      invariant findings == SchemaFindings(g, fold, schema, privs[..i])
    {
      var priv := privs[i];
      var state := Schema(g, fold, schema, priv);
      SchemaFindingsSplit(g, fold, schema, privs[..i], [priv]);
      assert privs[..i + 1] == privs[..i] + [priv];
      if state == Present {
        continue;
      }
      findings := findings + [Finding(ID_SCHEMA_PRIVILEGES, [], PrivilegeFact(schema, "", priv, state))];
    }
    assert privs[..|privs|] == privs;
  }

  /** How often a schema-scoped answer is reported: once per request of its privilege if it is not present. */
  lemma {:induction false} SchemaFindingMultiplicity(g: Grants, fold: char -> char, schema: string,
                                                     privs: seq<Privilege>, finding: Finding)
    ensures multiset(SchemaFindings(g, fold, schema, privs))[finding] ==
            var priv := finding.fact.privilege;
            var state := Answer(g, fold, OfSchema(schema), priv);
            if state != Present && finding == Finding("SCHEMA_PRIVILEGES", [], PrivilegeFact(schema, "", priv, state))
            then multiset(privs)[priv]
            else 0
  {
    hide Answer;
    if privs == [] {
    } else {
      SchemaFindingMultiplicity(g, fold, schema, privs[1..], finding);
      assert privs == [privs[0]] + privs[1..];
    }
  }

  /** The schema check passes exactly when every requested privilege is proven. */
  lemma {:induction false} SchemaPassesExactlyWhenAllPresent(g: Grants, fold: char -> char, schema: string,
                                                             privs: seq<Privilege>)
    ensures SchemaFindings(g, fold, schema, privs) == [] <==>
            forall priv :: priv in privs ==> Answer(g, fold, OfSchema(schema), priv) == Present
  {
    hide Answer;
    if privs == [] {
    } else {
      SchemaPassesExactlyWhenAllPresent(g, fold, schema, privs[1..]);
      assert privs == [privs[0]] + privs[1..];
      assert privs[0] in privs;
    }
  }

  /** Splitting the requested privileges anywhere splits the findings. */
  lemma {:induction false} SchemaFindingsSplit(g: Grants, fold: char -> char, schema: string,
                                               left: seq<Privilege>, right: seq<Privilege>)
    ensures SchemaFindings(g, fold, schema, left + right) ==
            SchemaFindings(g, fold, schema, left) + SchemaFindings(g, fold, schema, right)
  {
    if left == [] {
      assert left + right == right;
    } else {
      assert (left + right)[1..] == left[1..] + right;
      SchemaFindingsSplit(g, fold, schema, left[1..], right);
    }
  }
}
