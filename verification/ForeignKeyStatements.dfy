/** Which metadata rows the foreign-key statements ask for, and that none a selector needs is left out. */
module ForeignKeyStatements {
  import opened ForeignKeys
  import opened Selection
  import opened Statements
  import InnoDBScan
  import StandardScan

  /**
  The registry statement returns a row when it is unnarrowed, or when the column its IN list
  compares holds one of the arguments.
  */
  predicate RegistryReturns(statement: Statement, query: string, order: string, row: InnoDBScan.Row) {
    var marks := SqlPlaceholders(|statement.args|);
    || statement == Statement(query + order, [])
    || (statement.text == query + ("\n\t\tWHERE " + "f.REF_NAME" + " IN (") + marks + ")" + order &&
        row.refName in statement.args)
    || (statement.text == query + ("\n\t\tWHERE " + "f.FOR_NAME" + " IN (") + marks + ")" + order &&
        row.forName in statement.args)
  }

  /** One of the constraint's rows, as the registry keeps them. */
  predicate RegistryRow(key: ForeignKey, row: InnoDBScan.Row) {
    |key.childColumns| == |key.parentColumns| && row in InnoDBScan.RowsOf(key)
  }

  /** The registry statement of a selector asks for every row of every constraint that answers it. */
  method RegistryStatement(query: string, order: string, schema: string, selector: Selector,
                           representable: string -> bool) returns (statement: Statement)
    requires '?' !in query && '?' !in order
    ensures Bound(statement)
    ensures forall key, table, row :: table in selector.tables && Answers(key, schema, selector, table) ==>
              RegistryRow(key, row) ==> RegistryReturns(statement, query, order, row)
    ensures statement == Statement(query + order, []) ||
            forall name :: name in statement.args <==>
              exists table :: table in selector.tables && name == schema + "/" + table
  {
    statement := InnoDBStatement(query, order, schema, selector, representable);
    ghost var names := Composed(schema, selector.tables);
    forall key, table, row |
      table in selector.tables && Answers(key, schema, selector, table) && RegistryRow(key, row)
      ensures RegistryReturns(statement, query, order, row)
    {
      ComposedHas(schema, selector.tables, table);
      AnsweringRow(key, schema, selector, table, row);
      NarrowedRegistry(statement, query, order, schema, selector, row, representable);
    }
    forall name
      ensures name in names <==> exists table :: table in selector.tables && name == schema + "/" + table
    {
      if table :| table in selector.tables && name == schema + "/" + table {
        ComposedHas(schema, selector.tables, table);
      }
    }
  }

  lemma ComposedHas(schema: string, tables: seq<string>, table: string)
    requires table in tables
    ensures schema + "/" + table in Composed(schema, tables)
  {
    var i :| 0 <= i < |tables| && tables[i] == table;
    assert Composed(schema, tables)[i] == schema + "/" + table;
  }

  lemma AnsweringRow(key: ForeignKey, schema: string, selector: Selector, table: string, row: InnoDBScan.Row)
    requires Answers(key, schema, selector, table) && RegistryRow(key, row)
    ensures selector.kind == Incoming ==> row.refName == schema + "/" + table
    ensures selector.kind != Incoming ==> row.forName == schema + "/" + table
  {
    var c :| 0 <= c < |InnoDBScan.RowsOf(key)| && InnoDBScan.RowsOf(key)[c] == row;
  }

  lemma NarrowedRegistry(statement: Statement, query: string, order: string, schema: string, selector: Selector,
                         row: InnoDBScan.Row, representable: string -> bool)
    requires var names := Composed(schema, selector.tables);
             statement == if Fits(names, 0, representable)
                          then Statement(InList(query, InnoDBFrame(selector.kind), |Distinct(names)|) + order,
                                         Distinct(names))
                          else Statement(query + order, [])
    requires (if selector.kind == Incoming then row.refName else row.forName) in Composed(schema, selector.tables)
    ensures RegistryReturns(statement, query, order, row)
  {
    hide Fits, Distinct, SqlPlaceholders, Composed;
  }

  /**
  The standard statement returns a row when its schema equality holds, and its IN list, if it
  has one, compares a column that holds one of the later arguments.
  */
  predicate StandardReturns(statement: Statement, query: string, order: string, row: StandardScan.Row) {
    |statement.args| > 0 &&
    var tables := statement.args[1..];
    var marks := SqlPlaceholders(|tables|);
    var parent := query + ("\n\t\t  AND " + "kcu.REFERENCED_" + "TABLE_SCHEMA = " + "?" + "");
    var child := query + ("\n\t\t  AND " + "kcu." + "TABLE_SCHEMA = " + "?" + "");
    || (statement.text == parent + order && row.parentSchema == statement.args[0])
    || (statement.text == child + order && row.childSchema == statement.args[0])
    || (statement.text == parent + ("\n\t\t  AND " + "kcu.REFERENCED_" + "TABLE_NAME IN (") + marks + ")" + order &&
        row.parentSchema == statement.args[0] && row.parentTable in tables)
    || (statement.text == child + ("\n\t\t  AND " + "kcu." + "TABLE_NAME IN (") + marks + ")" + order &&
        row.childSchema == statement.args[0] && row.childTable in tables)
  }

  /** One of the constraint's rows, as the standard tables keep them. */
  predicate StandardRow(key: ForeignKey, row: StandardScan.Row) {
    |key.childColumns| == |key.parentColumns| && row in StandardScan.RowsOf(key)
  }

  /** The standard statement of a selector asks for every row of every constraint that answers it. */
  method StandardTablesStatement(query: string, order: string, schema: string, selector: Selector,
                                 representable: string -> bool) returns (statement: Statement)
    requires '?' !in query && '?' !in order
    ensures Bound(statement)
    ensures forall key, table, row :: table in selector.tables && Answers(key, schema, selector, table) ==>
              StandardRow(key, row) ==> StandardReturns(statement, query, order, row)
    ensures statement.args == [schema] ||
            (|statement.args| > 0 && statement.args[0] == schema &&
             forall table :: table in statement.args[1..] <==> table in selector.tables)
  {
    statement := StandardStatement(query, order, schema, selector, representable);
    forall key, table, row |
      table in selector.tables && Answers(key, schema, selector, table) && StandardRow(key, row)
      ensures StandardReturns(statement, query, order, row)
    {
      AnsweringStandardRow(key, schema, selector, table, row);
      NarrowedStandard(statement, query, order, schema, selector, row, representable);
    }
    assert ([schema] + Distinct(selector.tables))[1..] == Distinct(selector.tables);
  }

  lemma AnsweringStandardRow(key: ForeignKey, schema: string, selector: Selector, table: string,
                             row: StandardScan.Row)
    requires Answers(key, schema, selector, table) && StandardRow(key, row)
    ensures selector.kind == Incoming ==> row.parentSchema == schema && row.parentTable == table
    ensures selector.kind != Incoming ==> row.childSchema == schema && row.childTable == table
  {
    var c :| 0 <= c < |StandardScan.RowsOf(key)| && StandardScan.RowsOf(key)[c] == row;
  }

  lemma NarrowedStandard(statement: Statement, query: string, order: string, schema: string, selector: Selector,
                         row: StandardScan.Row, representable: string -> bool)
    requires var names, asked := selector.tables, query + SchemaEquality(selector.kind);
             statement == if Fits(names, 1, representable)
                          then Statement(InList(asked, StandardFrame(selector.kind), |Distinct(names)|) + order,
                                         [schema] + Distinct(names))
                          else Statement(asked + order, [schema])
    requires if selector.kind == Incoming then row.parentSchema == schema && row.parentTable in selector.tables
             else row.childSchema == schema && row.childTable in selector.tables
    ensures StandardReturns(statement, query, order, row)
  {
    hide Fits, SqlPlaceholders;
    assert ([schema] + Distinct(selector.tables))[1..] == Distinct(selector.tables);
    assert [schema][1..] == [];
  }
}
