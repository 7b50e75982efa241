/**
Dynamically built statements: which names are bound, and how many placeholders the
text carries. The SELECT lists and orderings in front and behind enter as parameters
without a placeholder; the text built between them is spelled out.
*/
module Statements {
  import opened Lists
  import Selection

  /** The largest number of parameters a prepared statement can report back (two bytes). */
  const MAX_STATEMENT_PARAMETERS := 65535

  /** A performance bound on the derived table used for point lookups. */
  const MAX_POINT_LOOKUP_TABLES := 2048

  // ---------------------------------------------------------------------------
  // Distinct names, in order of first occurrence.

  function Distinct<T(==,!new)>(names: seq<T>): (params: seq<T>)
    ensures forall name :: name in params <==> name in names
  {
    if names == [] then
      []
    else
      var before, last := names[..|names| - 1], names[|names| - 1];
      assert names == before + [last];
      if last in before then Distinct(before) else Distinct(before) + [last]
  }

  /** No name is repeated, and names keep the order in which they first occur. */
  lemma {:induction false} DistinctOrder<T(!new)>(names: seq<T>, i: nat, j: nat)
    requires i < j < |Distinct(names)|
    ensures First(names, Distinct(names)[i]) < First(names, Distinct(names)[j])
    ensures Distinct(names)[i] != Distinct(names)[j]
  {
    var before, last := names[..|names| - 1], names[|names| - 1];
    assert names == before + [last];
    var params := Distinct(names);
    FirstAppend(before, last, params[i]);
    FirstAppend(before, last, params[j]);
    if last in before || j < |params| - 1 {
      DistinctOrder(before, i, j);
    } else {
      assert params == Distinct(before) + [last];
      assert params[i] == Distinct(before)[i];
      assert params[i] in Distinct(before);
    }
  }

  // ---------------------------------------------------------------------------
  // Placeholders.

  /** Number of `?` in a text. */
  function Marks(text: string): nat {
    if text == "" then 0 else (if text[0] == '?' then 1 else 0) + Marks(text[1..])
  }

  lemma {:induction false} MarksAppend(left: string, right: string)
    ensures Marks(left + right) == Marks(left) + Marks(right)
  {
    if left == "" {
      assert left + right == right;
    } else {
      assert (left + right)[1..] == left[1..] + right;
      MarksAppend(left[1..], right);
    }
  }

  lemma {:induction false} Unmarked(text: string)
    requires '?' !in text
    ensures Marks(text) == 0
  {
    if text == "" {
      assert Marks(text) == 0;
    } else {
      Unmarked(text[1..]);
    }
  }

  lemma UnmarkedParts(a: string, b: string, c: string)
    requires '?' !in a && '?' !in b && '?' !in c
    ensures Marks(a + b + c) == 0
  {
    Unmarked(a + b + c);
  }

  /** Texts around one placeholder, and around two. */
  function Around(a: string, b: string): string {
    a + "?" + b
  }

  function AroundTwo(a: string, b: string, c: string): string {
    a + "?" + Around(b, c)
  }

  lemma AroundMarks(a: string, b: string)
    requires '?' !in a
    ensures Marks(Around(a, b)) == 1 + Marks(b)
  {
    Unmarked(a);
    MarksAppend(a, "?");
    MarksAppend(a + "?", b);
  }

  lemma AroundTwoMarks(a: string, b: string, c: string)
    requires '?' !in a && '?' !in b && '?' !in c
    ensures Marks(AroundTwo(a, b, c)) == 2
  {
    Unmarked(c);
    AroundMarks(b, c);
    AroundMarks(a, Around(b, c));
  }

  /** Marks are counted by occurrence, in any place. */
  lemma {:induction false} MarksAreOccurrences(text: string)
    ensures Marks(text) == multiset(text)['?']
  {
    if text == "" {
    } else {
      MarksAreOccurrences(text[1..]);
      assert text == [text[0]] + text[1..];
    }
  }

  function Repeat(text: string, count: nat): string {
    if count == 0 then "" else text + Repeat(text, count - 1)
  }

  function TrimSuffix(text: string, suffix: string): string {
    if |suffix| <= |text| && text[|text| - |suffix|..] == suffix then text[..|text| - |suffix|] else text
  }

  function SqlPlaceholders(count: nat): string {
    TrimSuffix(Repeat("?,", count), ",")
  }

  lemma {:induction false} RepeatShape(count: nat)
    ensures var text := Repeat("?,", count);
            && |text| == 2 * count
            && forall i :: 0 <= i < |text| ==> text[i] == if i % 2 == 0 then '?' else ','
  {
    if count == 0 {
    } else {
      RepeatShape(count - 1);
      var rest := Repeat("?,", count - 1);
      forall i | 0 <= i < 2 * count
        ensures ("?," + rest)[i] == if i % 2 == 0 then '?' else ','
      {
        if i >= 2 {
          assert ("?," + rest)[i] == rest[i - 2];
        }
      }
    }
  }

  lemma {:induction false} RepeatMarks(text: string, count: nat)
    ensures Marks(Repeat(text, count)) == Marks(text) * count
  {
    if count == 0 {
    } else {
      RepeatMarks(text, count - 1);
      MarksAppend(text, Repeat(text, count - 1));
    }
  }

  /** `count` marks, single commas between them, and nothing else. */
  lemma PlaceholdersShape(count: nat)
    ensures var text := SqlPlaceholders(count);
            && |text| == (if count == 0 then 0 else 2 * count - 1)
            && (forall i :: 0 <= i < |text| ==> text[i] == if i % 2 == 0 then '?' else ',')
            && Marks(text) == count
  {
    RepeatShape(count);
    var repeated := Repeat("?,", count);
    if count > 0 {
      var cut := repeated[..|repeated| - 1];
      assert repeated[|repeated| - 1..] == ",";
      assert repeated == cut + ",";
      MarksAppend(cut, ",");
    }
    RepeatMarks("?,", count);
    MarksAppend("?", ",");
    assert "?" + "," == "?,";
  }

  // ---------------------------------------------------------------------------
  // Narrowing.

  /** The names can be bound next to some fixed arguments, each name once. */
  predicate Fits(names: seq<string>, fixedArgs: nat, representable: string -> bool) {
    && (forall name :: name in names ==> representable(name))
    && |Distinct(names)| + fixedArgs <= MAX_STATEMENT_PARAMETERS
  }

  /** The parameters of an `IN (...)` predicate over `names`, when it may be used at all. */
  method NarrowNames(names: seq<string>, fixedArgs: nat, representable: string -> bool)
    returns (params: seq<string>, ok: bool)
    ensures ok <==> Fits(names, fixedArgs, representable)
    ensures ok <==> (forall name :: name in names ==> representable(name)) && |Distinct(names)| + fixedArgs <= 65535
    ensures params == if ok then Distinct(names) else []
  {
    for i := 0 to |names|
      invariant forall name :: name in names[..i] ==> representable(name)
    {
      if !representable(names[i]) {
        return [], false;
      }
      assert names[..i + 1] == names[..i] + [names[i]];
    }
    assert names[..|names|] == names;

    params := [];
    var seen: set<string> := {};
    for i := 0 to |names|
      invariant params == Distinct(names[..i])
      invariant forall name :: name in seen <==> name in names[..i]
    {
      var name := names[i];
      assert names[..i + 1] == names[..i] + [name];
      assert names[..i + 1][..i] == names[..i];
      if name in seen {
        continue;
      }
      seen := seen + {name};
      params := params + [name];
    }
    if |params| + fixedArgs > MAX_STATEMENT_PARAMETERS {
      return [], false;
    }
    return params, true;
  }

  // ---------------------------------------------------------------------------
  // The statements.

  datatype Statement = Statement(text: string, args: seq<string>)

  /** As many placeholders as arguments, and no more than can be prepared. */
  predicate Bound(statement: Statement) {
    Marks(statement.text) == |statement.args| <= MAX_STATEMENT_PARAMETERS
  }

  /** The two bounds in numbers. */
  lemma BoundMeans(statement: Statement)
    ensures Bound(statement) <==> multiset(statement.text)['?'] == |statement.args| && |statement.args| <= 65535
  {
    MarksAreOccurrences(statement.text);
  }

  /** Fixed text before and after a placeholder list. */
  datatype Frame = Frame(before: string, after: string)

  /** `query`, then a placeholder list in its frame. */
  function InList(query: string, frame: Frame, count: nat): string {
    query + frame.before + SqlPlaceholders(count) + frame.after
  }

  lemma InListMarks(query: string, frame: Frame, count: nat)
    ensures Marks(InList(query, frame, count)) == Marks(query) + Marks(frame.before) + count + Marks(frame.after)
  {
    PlaceholdersShape(count);
    MarksAppend(query, frame.before);
    MarksAppend(query + frame.before, SqlPlaceholders(count));
    MarksAppend(query + frame.before + SqlPlaceholders(count), frame.after);
  }

  const GRANTEE_FRAME := Frame("\n\t\tWHERE GRANTEE IN (", ")")

  lemma GranteeFrameMarks()
    ensures Marks(GRANTEE_FRAME.before) == 0 && Marks(GRANTEE_FRAME.after) == 0
  {
    hide Marks;
    Unmarked(GRANTEE_FRAME.before);
    Unmarked(GRANTEE_FRAME.after);
  }

  /** The grantee narrowing of a privilege-table query, or the query unnarrowed. */
  method GranteePredicate(query: string, grantees: seq<string>, representable: string -> bool)
    returns (statement: Statement)
    requires '?' !in query
    ensures Bound(statement)
    ensures statement == if Fits(grantees, 0, representable)
                         then Statement(InList(query, GRANTEE_FRAME, |Distinct(grantees)|), Distinct(grantees))
                         else Statement(query, [])
  {
    hide Marks;
    var params, ok := NarrowNames(grantees, 0, representable);
    Unmarked(query);
    if !ok {
      return Statement(query, []);
    }
    GranteeFrameMarks();
    InListMarks(query, GRANTEE_FRAME, |params|);
    return Statement(InList(query, GRANTEE_FRAME, |params|), params);
  }

  /** The same, or any grantee that a pattern covers. */
  const GRANTEE_OR_PATTERN_FRAME := Frame("\n\t\tWHERE GRANTEE IN (", Around(")\n\t\t\tOR GRANTEE LIKE ", ""))

  lemma GranteeOrPatternFrameMarks()
    ensures Marks(GRANTEE_OR_PATTERN_FRAME.before) == 0 && Marks(GRANTEE_OR_PATTERN_FRAME.after) == 1
  {
    hide Marks, Around;
    Unmarked(GRANTEE_OR_PATTERN_FRAME.before);
    Unmarked("");
    AroundMarks(")\n\t\t\tOR GRANTEE LIKE ", "");
  }

  const ANONYMOUS_PATTERN := "''@%"

  method GranteePredicateWithAnonymous(query: string, grantees: seq<string>, representable: string -> bool)
    returns (statement: Statement)
    requires '?' !in query
    ensures Bound(statement)
    ensures statement == if Fits(grantees, 1, representable)
                         then Statement(InList(query, GRANTEE_OR_PATTERN_FRAME, |Distinct(grantees)|),
                                        Distinct(grantees) + [ANONYMOUS_PATTERN])
                         else Statement(query, [])
  {
    hide Marks, Around;
    var params, ok := NarrowNames(grantees, 1, representable);
    Unmarked(query);
    if !ok {
      return Statement(query, []);
    }
    GranteeOrPatternFrameMarks();
    InListMarks(query, GRANTEE_OR_PATTERN_FRAME, |params|);
    return Statement(InList(query, GRANTEE_OR_PATTERN_FRAME, |params|), params + [ANONYMOUS_PATTERN]);
  }

  /** The composed `schema/table` names the InnoDB registry is asked for. */
  function Composed(schema: string, tables: seq<string>): (names: seq<string>)
    ensures |names| == |tables|
    ensures forall i :: 0 <= i < |names| ==> names[i] == schema + "/" + tables[i]
  {
    seq(|tables|, i requires 0 <= i < |tables| => schema + "/" + tables[i])
  }

  /** The registry names children and parents in different columns. */
  function InnoDBFrame(kind: Selection.Kind): Frame {
    Frame("\n\t\tWHERE " + (if kind == Selection.Incoming then "f.REF_NAME" else "f.FOR_NAME") + " IN (", ")")
  }

  lemma InnoDBFrameMarks(kind: Selection.Kind)
    ensures Marks(InnoDBFrame(kind).before) == 0 && Marks(InnoDBFrame(kind).after) == 0
  {
    hide Marks;
    UnmarkedParts("\n\t\tWHERE ", if kind == Selection.Incoming then "f.REF_NAME" else "f.FOR_NAME", " IN (");
    Unmarked(")");
  }

  /** The InnoDB registry query; without the predicate it reads the whole server. */
  method InnoDBStatement(query: string, order: string, schema: string, selector: Selection.Selector,
                         representable: string -> bool) returns (statement: Statement)
    requires '?' !in query && '?' !in order
    ensures Bound(statement)
    ensures var names := Composed(schema, selector.tables);
            statement == if Fits(names, 0, representable)
                         then Statement(InList(query, InnoDBFrame(selector.kind), |Distinct(names)|) + order,
                                        Distinct(names))
                         else Statement(query + order, [])
  {
    var params, ok := NarrowNames(Composed(schema, selector.tables), 0, representable);
    Unmarked(query);
    Unmarked(order);
    if !ok {
      MarksAppend(query, order);
      return Statement(query + order, []);
    }
    var narrowed := InList(query, InnoDBFrame(selector.kind), |params|);
    InnoDBFrameMarks(selector.kind);
    InListMarks(query, InnoDBFrame(selector.kind), |params|);
    MarksAppend(narrowed, order);
    return Statement(narrowed + order, params);
  }

  /** Incoming requests compare the referenced side, all others the side of the constraint itself. */
  function Side(kind: Selection.Kind): string {
    if kind == Selection.Incoming then "kcu.REFERENCED_" else "kcu."
  }

  /** The schema equality that both shapes of the standard query keep. */
  function SchemaEquality(kind: Selection.Kind): string {
    Around("\n\t\t  AND " + Side(kind) + "TABLE_SCHEMA = ", "")
  }

  function StandardFrame(kind: Selection.Kind): Frame {
    Frame("\n\t\t  AND " + Side(kind) + "TABLE_NAME IN (", ")")
  }

  lemma StandardMarks(kind: Selection.Kind)
    ensures Marks(SchemaEquality(kind)) == 1
    ensures Marks(StandardFrame(kind).before) == 0 && Marks(StandardFrame(kind).after) == 0
  {
    hide Marks, Around;
    assert '?' !in Side(kind);
    Unmarked("");
    Unmarked(")");
    AroundMarks("\n\t\t  AND " + Side(kind) + "TABLE_SCHEMA = ", "");
    UnmarkedParts("\n\t\t  AND ", Side(kind), "TABLE_NAME IN (");
  }

  /** The standard query keeps its schema equality, one placeholder, in both shapes. */
  method StandardStatement(query: string, order: string, schema: string, selector: Selection.Selector,
                           representable: string -> bool) returns (statement: Statement)
    requires '?' !in query && '?' !in order
    ensures Bound(statement)
    ensures var names, asked := selector.tables, query + SchemaEquality(selector.kind);
            statement == if Fits(names, 1, representable)
                         then Statement(InList(asked, StandardFrame(selector.kind), |Distinct(names)|) + order,
                                        [schema] + Distinct(names))
                         else Statement(asked + order, [schema])
  {
    var asked := query + SchemaEquality(selector.kind);
    StandardMarks(selector.kind);
    Unmarked(query);
    Unmarked(order);
    MarksAppend(query, SchemaEquality(selector.kind));
    var params, ok := NarrowNames(selector.tables, 1, representable);
    if !ok {
      MarksAppend(asked, order);
      return Statement(asked + order, [schema]);
    }
    var narrowed := InList(asked, StandardFrame(selector.kind), |params|);
    InListMarks(asked, StandardFrame(selector.kind), |params|);
    MarksAppend(narrowed, order);
    return Statement(narrowed + order, [schema] + params);
  }

  lemma {:induction false} JoinMarks(parts: seq<string>, separator: string, each: nat)
    requires Marks(separator) == 0
    requires forall part :: part in parts ==> Marks(part) == each
    ensures Marks(Join(parts, separator)) == each * |parts|
  {
    hide Marks;
    if parts == [] {
      Unmarked("");
    } else if |parts| == 1 {
      assert parts[0] in parts;
    } else {
      var rest := parts[1..];
      assert parts[0] in parts && forall part :: part in rest ==> part in parts;
      JoinMarks(rest, separator, each);
      MarksAppend(parts[0], separator);
      MarksAppend(parts[0] + separator, Join(rest, separator));
      assert each * |parts| == each + each * |rest|;
    }
  }

  /** Arguments that alternate between the two halves of each pair. */
  function PairArgs(pairs: seq<(string, string)>): (args: seq<string>)
    ensures |args| == 2 * |pairs|
  {
    if pairs == [] then
      []
    else
      var last := pairs[|pairs| - 1];
      PairArgs(pairs[..|pairs| - 1]) + [last.0, last.1]
  }

  lemma {:induction false} PairArgsAt(pairs: seq<(string, string)>, i: nat)
    requires i < |pairs|
    ensures PairArgs(pairs)[2 * i] == pairs[i].0 && PairArgs(pairs)[2 * i + 1] == pairs[i].1
  {
    if i < |pairs| - 1 {
      PairArgsAt(pairs[..|pairs| - 1], i);
    }
  }

  /** One pair of a batch. */
  const PAIR_CLAUSE := AroundTwo("(TABLE_SCHEMA = ", " AND TABLE_NAME = ", ")")

  lemma PairClauseMarks()
    ensures Marks(PAIR_CLAUSE) == 2 && Marks(" OR ") == 0
  {
    hide Marks, Around, AroundTwo;
    Unmarked(" OR ");
    AroundTwoMarks("(TABLE_SCHEMA = ", " AND TABLE_NAME = ", ")");
  }

  /** Two placeholders per pair; a batch is at most half the ceiling. */
  method FallbackIndexStatement(query: string, order: string, pairs: seq<(string, string)>)
    returns (statement: Statement)
    requires '?' !in query && '?' !in order
    requires |pairs| <= MAX_STATEMENT_PARAMETERS / 2
    ensures Bound(statement)
    ensures statement == Statement(query + Join(seq(|pairs|, _ => PAIR_CLAUSE), " OR ") + order, PairArgs(pairs))
  {
    var clauses: seq<string>, args: seq<string> := [], [];
    for i := 0 to |pairs|
      invariant clauses == seq(i, _ => PAIR_CLAUSE)
      invariant args == PairArgs(pairs[..i])
    {
      clauses := clauses + [PAIR_CLAUSE];
      args := args + [pairs[i].0, pairs[i].1];
      assert pairs[..i + 1][..i] == pairs[..i];
    }
    assert pairs[..|pairs|] == pairs;
    PairClauseMarks();
    Unmarked(query);
    Unmarked(order);
    JoinMarks(clauses, " OR ", 2);
    MarksAppend(query, Join(clauses, " OR "));
    MarksAppend(query + Join(clauses, " OR "), order);
    return Statement(query + Join(clauses, " OR ") + order, args);
  }

  function InSchema(schema: string, tables: seq<string>): (pairs: seq<(string, string)>)
    ensures |pairs| == |tables|
    ensures forall i :: 0 <= i < |pairs| ==> pairs[i] == (schema, tables[i])
  {
    seq(|tables|, i requires 0 <= i < |tables| => (schema, tables[i]))
  }

  const FIRST_OBJECT := AroundTwo("(SELECT ", " AS TABLE_SCHEMA, ", " AS TABLE_NAME")
  const NEXT_OBJECT := AroundTwo("\n\tUNION ALL SELECT ", ", ", "")
  const OBJECTS_END := ") AS requested"

  lemma ObjectMarks()
    ensures Marks(FIRST_OBJECT) == Marks(NEXT_OBJECT) == 2 && Marks(OBJECTS_END) == 0
  {
    hide Marks, Around, AroundTwo;
    AroundTwoMarks("(SELECT ", " AS TABLE_SCHEMA, ", " AS TABLE_NAME");
    AroundTwoMarks("\n\tUNION ALL SELECT ", ", ", "");
    Unmarked(OBJECTS_END);
  }

  /** The derived table of `count` pairs. */
  function DerivedTable(count: nat): string
    requires count > 0
  {
    FIRST_OBJECT + Repeat(NEXT_OBJECT, count - 1) + OBJECTS_END
  }

  lemma DerivedTableMarks(count: nat)
    requires count > 0
    ensures Marks(DerivedTable(count)) == 2 * count
  {
    hide Marks, AroundTwo;
    ObjectMarks();
    RepeatMarks(NEXT_OBJECT, count - 1);
    MarksAppend(FIRST_OBJECT, Repeat(NEXT_OBJECT, count - 1));
    MarksAppend(FIRST_OBJECT + Repeat(NEXT_OBJECT, count - 1), OBJECTS_END);
  }

  /** Repeating at the end is repeating at the front. */
  lemma {:induction false} RepeatEnd(text: string, count: nat)
    ensures Repeat(text, count) + text == Repeat(text, count + 1)
  {
    if count == 0 {
      assert Repeat(text, 0) + text == text + Repeat(text, 0);
    } else {
      RepeatEnd(text, count - 1);
      assert Repeat(text, count) + text == text + (Repeat(text, count - 1) + text);
    }
  }

  /** A derived table of exact schema/table pairs, refused when it cannot or should not be formed. */
  method RequestedObjects(schema: string, tables: seq<string>, representable: string -> bool)
    returns (statement: Statement, ok: bool)
    ensures ok <==> && representable(schema) && tables != []
                    && (forall table :: table in tables ==> representable(table))
                    && |Distinct(tables)| <= 2048
    ensures Bound(statement)
    ensures ok ==> |Distinct(tables)| > 0 &&
                   statement == Statement(DerivedTable(|Distinct(tables)|),
                                          PairArgs(InSchema(schema, Distinct(tables))))
    ensures !ok ==> statement == Statement("", [])
  {
    hide Marks, AroundTwo, DerivedTable;
    Unmarked("");
    statement := Statement("", []);
    if !representable(schema) || |tables| == 0 {
      return statement, false;
    }
    var params, narrowed := NarrowNames(tables, 0, representable);
    if !narrowed || |params| > MAX_POINT_LOOKUP_TABLES {
      return statement, false;
    }
    assert tables[0] in params;
    DerivedTableMarks(|params|);
    var text := WriteDerivedTable(|params|);
    var args := WritePairs(schema, params);
    return Statement(text, args), true;
  }

  method WriteDerivedTable(count: nat) returns (text: string)
    requires count > 0
    ensures text == DerivedTable(count)
  {
    text := FIRST_OBJECT;
    for i := 0 to count - 1
      invariant text == FIRST_OBJECT + Repeat(NEXT_OBJECT, i)
    {
      AppendRepeated(FIRST_OBJECT, NEXT_OBJECT, i);
      text := text + NEXT_OBJECT;
    }
    text := text + OBJECTS_END;
  }

  lemma AppendRepeated(first: string, next: string, i: nat)
    ensures first + Repeat(next, i) + next == first + Repeat(next, i + 1)
  {
    RepeatEnd(next, i);
    assert first + Repeat(next, i) + next == first + (Repeat(next, i) + next);
  }

  method WritePairs(schema: string, tables: seq<string>) returns (args: seq<string>)
    ensures args == PairArgs(InSchema(schema, tables))
  {
    ghost var pairs := InSchema(schema, tables);
    args := [];
    for i := 0 to |tables|
      invariant args == PairArgs(pairs[..i])
    {
      args := args + [schema, tables[i]];
      assert pairs[..i + 1][..i] == pairs[..i];
    }
    assert pairs[..|tables|] == pairs;
  }

  /** The derived table, one requested object and one more at a time. */
  lemma DerivedTableText(count: nat)
    requires count > 0
    ensures DerivedTable(1) == "(SELECT " + "?" + " AS TABLE_SCHEMA, " + "?" + " AS TABLE_NAME" + ") AS requested"
    ensures var (before, more) := ("(SELECT " + "?" + " AS TABLE_SCHEMA, " + "?" + " AS TABLE_NAME",
                                   "\n\tUNION ALL SELECT " + "?" + ", " + "?");
            DerivedTable(count) == before + Repeat(more, count - 1) + ") AS requested"
  {
    hide Repeat;
    var before, more := "(SELECT " + "?" + " AS TABLE_SCHEMA, " + "?" + " AS TABLE_NAME",
                        "\n\tUNION ALL SELECT " + "?" + ", " + "?";
    TextsAround("(SELECT ", " AS TABLE_SCHEMA, ", " AS TABLE_NAME");
    TextsAround("\n\tUNION ALL SELECT ", ", ", "");
    assert FIRST_OBJECT == before && more + "" == more && NEXT_OBJECT == more;
    RepeatNothing(NEXT_OBJECT);
    assert before + "" == before;
  }

  lemma TextsAround(a: string, b: string, c: string)
    ensures AroundTwo(a, b, c) == a + "?" + b + "?" + c
  {
  }

  lemma RepeatNothing(text: string)
    ensures Repeat(text, 0) == ""
  {
  }
}
