/** Comparing two table specifications, section by section. */
module SpecDiff {
  import opened Outcomes
  import opened Lists
  import opened FoldedNames
  import Ordering
  import Sorting

  // ---------------------------------------------------------------------------
  // Specifications.

  datatype GeneratedKind =
    | GeneratedUnknown | GeneratedNone | GeneratedVirtual | GeneratedStored
    | OtherGenerated(code: nat)

  datatype ConstraintKind = ConstraintUnknown | Check | ForeignKey | OtherKind(code: nat)

  datatype ColumnSpec = ColumnSpec(
    name: string,
    ordinal: int,
    columnType: string,
    normalizedType: string,
    nullable: bool,
    charset: string,
    collation: string,
    default_: Option<string>,
    defaultIsExpression: bool,
    extra: string,
    invisible: bool,
    generated: GeneratedKind,
    generationExpr: string,
    autoIncrement: bool,
    onUpdate: bool
  )

  datatype IndexPart = IndexPart(column: string, expression: string, subPart: int, descending: bool)

  datatype IndexSpec = IndexSpec(name: string, parts: seq<IndexPart>, unique: bool, indexType: string, visible: bool)

  datatype ConstraintSpec = ConstraintSpec(
    name: string,
    kind: ConstraintKind,
    checkClause: string,
    enforced: bool,
    columns: seq<string>,
    refSchema: string,
    refTable: string,
    refColumns: seq<string>,
    updateRule: string,
    deleteRule: string
  )

  datatype Section = Indexes | Constraints | Comment

  datatype TableSpec = TableSpec(
    schema: string,
    table: string,
    engine: string,
    charset: string,
    collation: string,
    comment: string,
    columns: seq<ColumnSpec>,
    indexes: seq<IndexSpec>,
    constraints: seq<ConstraintSpec>,
    captured: set<Section>
  )

  // ---------------------------------------------------------------------------
  // Differences. Values are kept as they are compared; rendering them is not modelled.

  datatype Side = NoSide | SideA | SideB | SideBoth

  datatype Kind =
    | EngineMismatch | CharsetMismatch | CollationMismatch | CommentMismatch | CommentUnconfirmed
    | ColumnAbsent | ColumnTypeMismatch | ColumnNullabilityMismatch | ColumnCharsetMismatch | ColumnCollationMismatch
    | ColumnDefaultMismatch | ColumnOrderMismatch | ColumnVisibilityMismatch | ColumnGeneratedMismatch
    | ColumnGenerationExprMismatch | ColumnAutoIncrementMismatch | ColumnOnUpdateMismatch
    | IndexUnconfirmed | IndexAbsent | IndexPartsMismatch | IndexUniquenessMismatch
    | IndexTypeMismatch | IndexVisibilityMismatch
    | ConstraintUnconfirmed | ConstraintAbsent | ConstraintKindMismatch | CheckClauseMismatch | CheckEnforcementMismatch
    | ForeignKeyColumnsMismatch | ForeignKeyReferenceMismatch | ForeignKeyRuleMismatch
    | ColumnNameCaseMismatch | IndexNameCaseMismatch | ConstraintKindUnconfirmed

  datatype Value =
    | Nothing
    | Text(text: string)
    | Number(number: int)
    | Flag(flag: bool)
    | Generation(generated: GeneratedKind)
    | Parts(parts: seq<IndexPart>)
    | OfKind(kind: ConstraintKind)
    | Names(names: seq<string>)
    | Reference(refSchema: string, refTable: string, refColumns: seq<string>)
    | Rules(updateRule: string, deleteRule: string)

  datatype Diff = Diff(kind: Kind, side: Side, column: string, index: string, a: Value, b: Value,
                       aIsExpression: bool, bIsExpression: bool)

  function TableDiff(kind: Kind, side: Side, a: Value, b: Value): Diff {
    Diff(kind, side, "", "", a, b, false, false)
  }

  function ColumnDiff(kind: Kind, side: Side, column: string, a: Value, b: Value): Diff {
    Diff(kind, side, column, "", a, b, false, false)
  }

  /** Indexes and constraints share one name field. */
  function ObjectDiff(kind: Kind, side: Side, name: string, a: Value, b: Value): Diff {
    Diff(kind, side, "", name, a, b, false, false)
  }

  function When(condition: bool, diff: Diff): seq<Diff> {
    if condition then [diff] else []
  }

  /** The differences whose condition holds, in order. */
  function Chosen(candidates: seq<(bool, Diff)>): seq<Diff> {
    if candidates == [] then
      []
    else
      var last := candidates[|candidates| - 1];
      Chosen(candidates[..|candidates| - 1]) + When(last.0, last.1)
  }

  lemma {:induction false} ChosenHolds(candidates: seq<(bool, Diff)>)
    ensures forall d :: d in Chosen(candidates) <==>
            exists i :: 0 <= i < |candidates| && candidates[i].0 && candidates[i].1 == d
    ensures Chosen(candidates) == [] <==> forall i :: 0 <= i < |candidates| ==> !candidates[i].0
  {
    if candidates == [] {
    } else {
      var before, last := candidates[..|candidates| - 1], candidates[|candidates| - 1];
      ChosenHolds(before);
      forall d
        ensures d in Chosen(candidates) <==>
                exists i :: 0 <= i < |candidates| && candidates[i].0 && candidates[i].1 == d
      {
        if exists i :: 0 <= i < |candidates| && candidates[i].0 && candidates[i].1 == d {
          var i :| 0 <= i < |candidates| && candidates[i].0 && candidates[i].1 == d;
          assert i < |before| ==> before[i] == candidates[i];
        }
        if d in Chosen(before) {
          var i :| 0 <= i < |before| && before[i].0 && before[i].1 == d;
          assert candidates[i] == before[i];
        }
      }
      assert forall i :: 0 <= i < |before| ==> before[i] == candidates[i];
    }
  }

  // ---------------------------------------------------------------------------
  // Table level.

  /** Whether both captured a section; otherwise the side that did not, if only one did. */
  function SectionAgreement(a: TableSpec, b: TableSpec, section: Section): (r: (Side, bool))
    ensures r.1 <==> section in a.captured && section in b.captured
    ensures !r.1 && r.0 == NoSide <==> section !in a.captured && section !in b.captured
    ensures r.0 == SideA ==> section !in a.captured
    ensures r.0 == SideB ==> section !in b.captured
  {
    if section in a.captured && section in b.captured then (NoSide, true)
    else if section in a.captured then (SideB, false)
    else if section in b.captured then (SideA, false)
    else (NoSide, false)
  }

  function TableLevelDiffs(a: TableSpec, b: TableSpec): seq<Diff> {
    var (side, both) := SectionAgreement(a, b, Comment);
    When(a.engine != b.engine, TableDiff(EngineMismatch, SideBoth, Text(a.engine), Text(b.engine))) +
    When(a.charset != b.charset, TableDiff(CharsetMismatch, SideBoth, Text(a.charset), Text(b.charset))) +
    When(a.collation != b.collation, TableDiff(CollationMismatch, SideBoth, Text(a.collation), Text(b.collation))) +
    if both && a.comment != b.comment then
      [TableDiff(CommentMismatch, SideBoth, Text(a.comment), Text(b.comment))]
    else
      When(side != NoSide, TableDiff(CommentUnconfirmed, side, Nothing, Nothing))
  }

  method DiffTableLevel(a: TableSpec, b: TableSpec) returns (diffs: seq<Diff>)
    ensures diffs == TableLevelDiffs(a, b)
  {
    diffs := [];
    if a.engine != b.engine {
      diffs := diffs + [TableDiff(EngineMismatch, SideBoth, Text(a.engine), Text(b.engine))];
    }
    if a.charset != b.charset {
      diffs := diffs + [TableDiff(CharsetMismatch, SideBoth, Text(a.charset), Text(b.charset))];
    }
    if a.collation != b.collation {
      diffs := diffs + [TableDiff(CollationMismatch, SideBoth, Text(a.collation), Text(b.collation))];
    }
    var (side, both) := SectionAgreement(a, b, Comment);
    if both && a.comment != b.comment {
      diffs := diffs + [TableDiff(CommentMismatch, SideBoth, Text(a.comment), Text(b.comment))];
    } else if side != NoSide {
      diffs := diffs + [TableDiff(CommentUnconfirmed, side, Nothing, Nothing)];
    }
  }

  // ---------------------------------------------------------------------------
  // Columns.

  predicate SameDefault(a: ColumnSpec, b: ColumnSpec) {
    if a.default_.None? && b.default_.None? then true
    else if a.default_.None? || b.default_.None? then false
    else a.default_.value == b.default_.value && a.defaultIsExpression == b.defaultIsExpression
  }

  /** The side named is the one without a default. */
  function DefaultSide(a: ColumnSpec, b: ColumnSpec): (side: Side)
    ensures !SameDefault(a, b) ==> (side == SideA <==> a.default_.None?) && (side == SideB <==> b.default_.None?)
    ensures side != NoSide
  {
    if a.default_.None? && b.default_.Some? then SideA
    else if a.default_.Some? && b.default_.None? then SideB
    else SideBoth
  }

  function DefaultValue(c: ColumnSpec): Value {
    if c.default_.None? then Text("") else Text(c.default_.value)
  }

  /** The attributes compared for a matched pair, by the kind that reports them, in report order. */
  const COLUMN_KINDS := [
    ColumnTypeMismatch, ColumnNullabilityMismatch, ColumnCharsetMismatch, ColumnCollationMismatch,
    ColumnDefaultMismatch, ColumnOrderMismatch, ColumnVisibilityMismatch, ColumnGeneratedMismatch,
    ColumnGenerationExprMismatch, ColumnAutoIncrementMismatch, ColumnOnUpdateMismatch
  ]

  /** Types are compared normalized; what is shown is what the servers said. */
  predicate ColumnDiffers(kind: Kind, a: ColumnSpec, b: ColumnSpec) {
    match kind
    case ColumnTypeMismatch => a.normalizedType != b.normalizedType
    case ColumnNullabilityMismatch => a.nullable != b.nullable
    case ColumnCharsetMismatch => a.charset != b.charset
    case ColumnCollationMismatch => a.collation != b.collation
    case ColumnDefaultMismatch => !SameDefault(a, b)
    case ColumnOrderMismatch => a.ordinal != b.ordinal
    case ColumnVisibilityMismatch => a.invisible != b.invisible
    case ColumnGeneratedMismatch => a.generated != b.generated
    case ColumnGenerationExprMismatch => a.generationExpr != b.generationExpr
    case ColumnAutoIncrementMismatch => a.autoIncrement != b.autoIncrement
    case ColumnOnUpdateMismatch => a.onUpdate != b.onUpdate
    case _ => false
  }

  function ColumnShown(kind: Kind, c: ColumnSpec): Value {
    match kind
    case ColumnTypeMismatch => Text(c.columnType)
    case ColumnNullabilityMismatch => Flag(c.nullable)
    case ColumnCharsetMismatch => Text(c.charset)
    case ColumnCollationMismatch => Text(c.collation)
    case ColumnDefaultMismatch => DefaultValue(c)
    case ColumnOrderMismatch => Number(c.ordinal)
    case ColumnVisibilityMismatch => Flag(c.invisible)
    case ColumnGeneratedMismatch => Generation(c.generated)
    case ColumnGenerationExprMismatch => Text(c.generationExpr)
    case ColumnAutoIncrementMismatch => Flag(c.autoIncrement)
    case ColumnOnUpdateMismatch => Flag(c.onUpdate)
    case _ => Nothing
  }

  function ColumnDifference(kind: Kind, a: ColumnSpec, b: ColumnSpec): (d: Diff)
    ensures d.kind == kind && d.column == a.name
  {
    if kind == ColumnDefaultMismatch then
      Diff(kind, DefaultSide(a, b), a.name, "", ColumnShown(kind, a), ColumnShown(kind, b),
           a.default_.Some? && a.defaultIsExpression, b.default_.Some? && b.defaultIsExpression)
    else
      ColumnDiff(kind, SideBoth, a.name, ColumnShown(kind, a), ColumnShown(kind, b))
  }

  function DifferingColumns(kinds: seq<Kind>, a: ColumnSpec, b: ColumnSpec): seq<Diff> {
    if kinds == [] then
      []
    else
      When(ColumnDiffers(kinds[0], a, b), ColumnDifference(kinds[0], a, b)) + DifferingColumns(kinds[1..], a, b)
  }

  function ColumnPairDiffs(a: ColumnSpec, b: ColumnSpec): seq<Diff> {
    DifferingColumns(COLUMN_KINDS, a, b)
  }

  /** The kinds by position. */
  lemma KindsInOrder()
    ensures |COLUMN_KINDS| == 11
    ensures COLUMN_KINDS[0] == ColumnTypeMismatch && COLUMN_KINDS[1] == ColumnNullabilityMismatch
    ensures COLUMN_KINDS[2] == ColumnCharsetMismatch && COLUMN_KINDS[3] == ColumnCollationMismatch
    ensures COLUMN_KINDS[4] == ColumnDefaultMismatch && COLUMN_KINDS[5] == ColumnOrderMismatch
    ensures COLUMN_KINDS[6] == ColumnVisibilityMismatch && COLUMN_KINDS[7] == ColumnGeneratedMismatch
    ensures COLUMN_KINDS[8] == ColumnGenerationExprMismatch && COLUMN_KINDS[9] == ColumnAutoIncrementMismatch
    ensures COLUMN_KINDS[10] == ColumnOnUpdateMismatch
  {
  }

  /** Which attribute each kind compares. */
  lemma AttributesByKind(a: ColumnSpec, b: ColumnSpec)
    ensures ColumnDiffers(ColumnTypeMismatch, a, b) <==> a.normalizedType != b.normalizedType
    ensures ColumnDiffers(ColumnNullabilityMismatch, a, b) <==> a.nullable != b.nullable
    ensures ColumnDiffers(ColumnCharsetMismatch, a, b) <==> a.charset != b.charset
    ensures ColumnDiffers(ColumnCollationMismatch, a, b) <==> a.collation != b.collation
    ensures ColumnDiffers(ColumnDefaultMismatch, a, b) <==> !SameDefault(a, b)
    ensures ColumnDiffers(ColumnOrderMismatch, a, b) <==> a.ordinal != b.ordinal
    ensures ColumnDiffers(ColumnVisibilityMismatch, a, b) <==> a.invisible != b.invisible
    ensures ColumnDiffers(ColumnGeneratedMismatch, a, b) <==> a.generated != b.generated
    ensures ColumnDiffers(ColumnGenerationExprMismatch, a, b) <==> a.generationExpr != b.generationExpr
    ensures ColumnDiffers(ColumnAutoIncrementMismatch, a, b) <==> a.autoIncrement != b.autoIncrement
    ensures ColumnDiffers(ColumnOnUpdateMismatch, a, b) <==> a.onUpdate != b.onUpdate
  {
    hide SameDefault;
  }

  /** And what each kind shows of a column. */
  lemma ShownByKind(c: ColumnSpec)
    ensures ColumnShown(ColumnTypeMismatch, c) == Text(c.columnType)
    ensures ColumnShown(ColumnNullabilityMismatch, c) == Flag(c.nullable)
    ensures ColumnShown(ColumnCharsetMismatch, c) == Text(c.charset)
    ensures ColumnShown(ColumnCollationMismatch, c) == Text(c.collation)
    ensures ColumnShown(ColumnDefaultMismatch, c) == DefaultValue(c)
    ensures ColumnShown(ColumnOrderMismatch, c) == Number(c.ordinal)
    ensures ColumnShown(ColumnVisibilityMismatch, c) == Flag(c.invisible)
    ensures ColumnShown(ColumnGeneratedMismatch, c) == Generation(c.generated)
    ensures ColumnShown(ColumnGenerationExprMismatch, c) == Text(c.generationExpr)
    ensures ColumnShown(ColumnAutoIncrementMismatch, c) == Flag(c.autoIncrement)
    ensures ColumnShown(ColumnOnUpdateMismatch, c) == Flag(c.onUpdate)
  {
    hide DefaultValue;
  }

  lemma {:induction false} DifferingColumnsAppend(kinds: seq<Kind>, last: Kind, a: ColumnSpec, b: ColumnSpec)
    ensures DifferingColumns(kinds + [last], a, b) ==
            DifferingColumns(kinds, a, b) + When(ColumnDiffers(last, a, b), ColumnDifference(last, a, b))
  {
    hide ColumnDiffers, ColumnDifference, When;
    if kinds == [] {
      assert DifferingColumns([last], a, b) == When(ColumnDiffers(last, a, b), ColumnDifference(last, a, b)) + [];
    } else {
      DifferingColumnsAppend(kinds[1..], last, a, b);
      assert (kinds + [last])[1..] == kinds[1..] + [last];
    }
  }

  /** What the first `n` comparisons of a pair have emitted. */
  ghost predicate EmittedColumns(diffs: seq<Diff>, a: ColumnSpec, b: ColumnSpec, n: nat) {
    n <= |COLUMN_KINDS| && diffs == DifferingColumns(COLUMN_KINDS[..n], a, b)
  }

  /** One more comparison, whether it emits or not. */
  lemma EmitsNextColumn(diffs: seq<Diff>, a: ColumnSpec, b: ColumnSpec, n: nat, differs: bool, d: Diff)
    requires n < |COLUMN_KINDS| && EmittedColumns(diffs, a, b, n)
    requires differs == ColumnDiffers(COLUMN_KINDS[n], a, b) && d == ColumnDifference(COLUMN_KINDS[n], a, b)
    ensures EmittedColumns(if differs then diffs + [d] else diffs, a, b, n + 1)
  {
    hide ColumnDiffers, ColumnDifference;
    assert COLUMN_KINDS[..n + 1] == COLUMN_KINDS[..n] + [COLUMN_KINDS[n]];
    DifferingColumnsAppend(COLUMN_KINDS[..n], COLUMN_KINDS[n], a, b);
  }

  lemma {:induction false} DifferingColumnsHold(kinds: seq<Kind>, a: ColumnSpec, b: ColumnSpec)
    ensures forall d :: d in DifferingColumns(kinds, a, b) <==>
              d.kind in kinds && ColumnDiffers(d.kind, a, b) && d == ColumnDifference(d.kind, a, b)
    ensures DifferingColumns(kinds, a, b) == [] <==> forall kind :: kind in kinds ==> !ColumnDiffers(kind, a, b)
  {
    hide ColumnDiffers, ColumnDifference;
    if kinds == [] {
    } else {
      DifferingColumnsHold(kinds[1..], a, b);
      assert kinds == [kinds[0]] + kinds[1..];
    }
  }

  function ColumnNames(columns: seq<ColumnSpec>): (names: seq<string>)
    ensures |names| == |columns|
    ensures forall i :: 0 <= i < |names| ==> names[i] == columns[i].name
  {
    seq(|columns|, i requires 0 <= i < |columns| => columns[i].name)
  }

  /** Where the columns of `a` are matched in `b`. */
  function ColumnMatches(a: seq<ColumnSpec>, b: seq<ColumnSpec>): (founds: seq<Option<nat>>)
    ensures |founds| == |a|
    ensures forall i :: 0 <= i < |a| && founds[i].Some? ==> founds[i].value < |b|
  {
    Founds(ColumnNames(a), ColumnNames(b))
  }

  /** Everything reported for one column of `a`. */
  function ColumnReport(b: seq<ColumnSpec>, column: ColumnSpec, found: Option<nat>): seq<Diff>
    requires found.Some? ==> found.value < |b|
  {
    match found
    case None => [ColumnDiff(ColumnAbsent, SideB, column.name, Text(column.columnType), Nothing)]
    case Some(j) =>
      When(column.name != b[j].name,
           ColumnDiff(ColumnNameCaseMismatch, SideBoth, column.name, Text(column.name), Text(b[j].name))) +
      ColumnPairDiffs(column, b[j])
  }

  /** The reports of the first `n` columns, given where they are matched. */
  function ColumnReports(a: seq<ColumnSpec>, b: seq<ColumnSpec>, founds: seq<Option<nat>>, n: nat): seq<Diff>
    requires n <= |a| == |founds|
    requires forall i :: 0 <= i < |a| && founds[i].Some? ==> founds[i].value < |b|
  {
    if n == 0 then [] else ColumnReports(a, b, founds, n - 1) + ColumnReport(b, a[n - 1], founds[n - 1])
  }

  /** Positions of `b` that no column of `a` is matched to, in order. */
  function OnlyInB(a: seq<ColumnSpec>, b: seq<ColumnSpec>): seq<nat> {
    Outside(|b|, Taken(ColumnMatches(a, b)))
  }

  /** By folded name, then by exact name. */
  predicate NameLess(x: string, y: string) {
    var left, right := FoldKey(x), FoldKey(y);
    if left != right then Ordering.Less(left, right) else Ordering.Less(x, y)
  }

  function ByFoldedName(b: seq<ColumnSpec>): Sorting.Order<nat> {
    (i: nat, j: nat) => i < |b| && j < |b| && NameLess(b[i].name, b[j].name)
  }

  lemma NameLessTotal(x: string, y: string)
    ensures NameLess(x, y) || NameLess(y, x) || x == y
    ensures NameLess(x, y) ==> !NameLess(y, x)
  {
    Ordering.LessTotal(FoldKey(x), FoldKey(y));
    Ordering.LessTotal(x, y);
    if NameLess(x, y) && NameLess(y, x) {
      if FoldKey(x) != FoldKey(y) {
        Ordering.LessTransitive(FoldKey(x), FoldKey(y), FoldKey(x));
        Ordering.LessIrreflexive(FoldKey(x));
      } else {
        Ordering.LessTransitive(x, y, x);
        Ordering.LessIrreflexive(x);
      }
    }
  }

  lemma NameLessTransitive(x: string, y: string, z: string)
    requires NameLess(x, y) && NameLess(y, z)
    ensures NameLess(x, z)
  {
    var kx, ky, kz := FoldKey(x), FoldKey(y), FoldKey(z);
    if kx == ky == kz {
      Ordering.LessTransitive(x, y, z);
    } else if kx != ky && ky != kz {
      Ordering.LessTransitive(kx, ky, kz);
      Ordering.LessIrreflexive(kx);
    }
  }

  lemma ByFoldedNameIsStrict(b: seq<ColumnSpec>)
    ensures Sorting.Strict(ByFoldedName(b), |b|)
  {
    var less := ByFoldedName(b);
    forall i: nat, j: nat | i < |b| && j < |b| && less(i, j)
      ensures !less(j, i)
    {
      NameLessTotal(b[i].name, b[j].name);
    }
    forall i: nat, j: nat, k: nat | i < |b| && j < |b| && k < |b| && !less(j, i) && !less(k, j)
      ensures !less(k, i)
    {
      NameLessTotal(b[i].name, b[j].name);
      NameLessTotal(b[j].name, b[k].name);
      NameLessTotal(b[i].name, b[k].name);
      if less(i, j) && less(j, k) {
        NameLessTransitive(b[i].name, b[j].name, b[k].name);
      }
    }
  }

  function AbsentFromA(b: seq<ColumnSpec>, positions: seq<nat>): (diffs: seq<Diff>)
    requires forall k :: 0 <= k < |positions| ==> positions[k] < |b|
    ensures |diffs| == |positions|
    ensures forall k :: 0 <= k < |diffs| ==>
      diffs[k] == ColumnDiff(ColumnAbsent, SideA, b[positions[k]].name, Nothing, Text(b[positions[k]].columnType))
  {
    seq(|positions|, k requires 0 <= k < |positions| && positions[k] < |b| =>
      ColumnDiff(ColumnAbsent, SideA, b[positions[k]].name, Nothing, Text(b[positions[k]].columnType)))
  }

  /** The columns only `b` has, sorted. */
  ghost predicate IsTail(a: seq<ColumnSpec>, b: seq<ColumnSpec>, positions: seq<nat>) {
    && multiset(positions) == multiset(OnlyInB(a, b))
    && Sorting.Sorted(positions, ByFoldedName(b))
    && (forall k :: 0 <= k < |positions| ==> positions[k] < |b|)
  }

  /** The column section of a comparison: every column of `a` in order, then what only `b` has. */
  ghost predicate IsColumnSection(a: seq<ColumnSpec>, b: seq<ColumnSpec>, diffs: seq<Diff>) {
    exists positions: seq<nat> ::
      IsTail(a, b, positions) && diffs == ColumnReports(a, b, ColumnMatches(a, b), |a|) + AbsentFromA(b, positions)
  }

  /** With distinct names the section is fully determined, tail order included. */
  lemma ColumnSectionIsDetermined(a: seq<ColumnSpec>, b: seq<ColumnSpec>, diffs: seq<Diff>, diffs': seq<Diff>)
    requires Unrepeated(ColumnNames(b))
    requires IsColumnSection(a, b, diffs) && IsColumnSection(a, b, diffs')
    ensures diffs == diffs'
  {
    var p: seq<nat> :| IsTail(a, b, p) && diffs == ColumnReports(a, b, ColumnMatches(a, b), |a|) + AbsentFromA(b, p);
    var p': seq<nat> :| IsTail(a, b, p') &&
      diffs' == ColumnReports(a, b, ColumnMatches(a, b), |a|) + AbsentFromA(b, p');
    var less := ByFoldedName(b);
    forall i, j | i in multiset(p) && j in multiset(p) && i != j
      ensures less(i, j) || less(j, i)
    {
      assert i in p && j in p;
      NameLessTotal(b[i].name, b[j].name);
      var names := ColumnNames(b);
      assert names[i] == b[i].name && names[j] == b[j].name;
    }
    Sorting.SortedPermutationsAgree(p, p', less);
  }

  /** What the pass over `a` has established before column `i`. */
  ghost predicate ColumnsReported(a: seq<ColumnSpec>, b: seq<ColumnSpec>, i: nat, diffs: seq<Diff>, matched: set<nat>) {
    && i <= |a|
    && diffs == ColumnReports(a, b, ColumnMatches(a, b), i)
    && matched == Taken(ColumnMatches(a, b)[..i])
  }

  lemma ColumnsReportedNext(a: seq<ColumnSpec>, b: seq<ColumnSpec>, i: nat, diffs: seq<Diff>, matched: set<nat>,
                            found: Option<nat>, report: seq<Diff>)
    requires ColumnsReported(a, b, i, diffs, matched) && i < |a|
    requires found == ColumnMatches(a, b)[i] && report == ColumnReport(b, a[i], found)
    ensures ColumnsReported(a, b, i + 1, diffs + report, if found.Some? then matched + {found.value} else matched)
  {
    hide ColumnReport;
    TakenPrefixNext(ColumnMatches(a, b), i);
  }

  /** The pass over `a`: reports each column and collects the positions of `b` that are matched. */
  method ReportColumns(a: seq<ColumnSpec>, b: seq<ColumnSpec>) returns (diffs: seq<Diff>, matched: set<nat>)
    ensures ColumnsReported(a, b, |a|, diffs, matched)
  {
    var namesA, namesB := ColumnNames(a), ColumnNames(b);
    var byNameB := IndexFor(namesA, namesB);
    diffs, matched := [], {};
    for i := 0 to |a|
      invariant ColumnsReported(a, b, i, diffs, matched)
    {
      var found := LookUp(byNameB, namesA, namesB, i);
      var report := ReportColumn(b, a[i], found);
      ColumnsReportedNext(a, b, i, diffs, matched, found, report);
      diffs := diffs + report;
      if found.Some? {
        matched := matched + {found.value};
      }
    }
  }

  method ReportColumn(b: seq<ColumnSpec>, column: ColumnSpec, found: Option<nat>) returns (report: seq<Diff>)
    requires found.Some? ==> found.value < |b|
    ensures report == ColumnReport(b, column, found)
  {
    if found.None? {
      report := [ColumnDiff(ColumnAbsent, SideB, column.name, Text(column.columnType), Nothing)];
    } else {
      report := ReportPair(column, b[found.value]);
    }
  }

  method ReportPair(column: ColumnSpec, other: ColumnSpec) returns (report: seq<Diff>)
    ensures report == When(column.name != other.name,
                           ColumnDiff(ColumnNameCaseMismatch, SideBoth, column.name, Text(column.name),
                                      Text(other.name))) +
                      ColumnPairDiffs(column, other)
  {
    report := [];
    if column.name != other.name {
      report := [ColumnDiff(ColumnNameCaseMismatch, SideBoth, column.name, Text(column.name), Text(other.name))];
    }
    var pair := DiffColumnPair(column, other);
    report := report + pair;
  }

  /** The eleven comparisons of a matched pair, in turn. */
  method DiffColumnPair(a: ColumnSpec, b: ColumnSpec) returns (diffs: seq<Diff>)
    ensures diffs == ColumnPairDiffs(a, b)
  {
    hide EmittedColumns, ColumnDiffers, ColumnShown, DefaultValue;
    KindsInOrder();
    AttributesByKind(a, b);
    ShownByKind(a);
    ShownByKind(b);
    NothingEmitted(a, b);
    diffs := [];
    diffs := Compare(diffs, a, b, 0, a.normalizedType != b.normalizedType, ColumnTypeMismatch, Text(a.columnType),
                     Text(b.columnType));
    diffs := Compare(diffs, a, b, 1, a.nullable != b.nullable, ColumnNullabilityMismatch, Flag(a.nullable),
                     Flag(b.nullable));
    diffs := Compare(diffs, a, b, 2, a.charset != b.charset, ColumnCharsetMismatch, Text(a.charset), Text(b.charset));
    diffs := Compare(diffs, a, b, 3, a.collation != b.collation, ColumnCollationMismatch, Text(a.collation),
                     Text(b.collation));
    diffs := CompareDefaults(diffs, a, b);
    diffs := Compare(diffs, a, b, 5, a.ordinal != b.ordinal, ColumnOrderMismatch, Number(a.ordinal), Number(b.ordinal));
    diffs := Compare(diffs, a, b, 6, a.invisible != b.invisible, ColumnVisibilityMismatch, Flag(a.invisible),
                     Flag(b.invisible));
    diffs := Compare(diffs, a, b, 7, a.generated != b.generated, ColumnGeneratedMismatch, Generation(a.generated),
                     Generation(b.generated));
    diffs := Compare(diffs, a, b, 8, a.generationExpr != b.generationExpr, ColumnGenerationExprMismatch,
                     Text(a.generationExpr), Text(b.generationExpr));
    diffs := Compare(diffs, a, b, 9, a.autoIncrement != b.autoIncrement, ColumnAutoIncrementMismatch,
                     Flag(a.autoIncrement), Flag(b.autoIncrement));
    diffs := Compare(diffs, a, b, 10, a.onUpdate != b.onUpdate, ColumnOnUpdateMismatch, Flag(a.onUpdate),
                     Flag(b.onUpdate));
    AllEmitted(diffs, a, b);
  }

  /** Emits one difference that names both sides, if there is one. */
  method Compare(before: seq<Diff>, a: ColumnSpec, b: ColumnSpec, ghost n: nat, differs: bool, kind: Kind,
                 valueA: Value, valueB: Value) returns (diffs: seq<Diff>)
    requires n < |COLUMN_KINDS| && COLUMN_KINDS[n] == kind != ColumnDefaultMismatch
    requires EmittedColumns(before, a, b, n)
    requires differs == ColumnDiffers(kind, a, b)
    requires valueA == ColumnShown(kind, a) && valueB == ColumnShown(kind, b)
    ensures EmittedColumns(diffs, a, b, n + 1)
  {
    hide EmittedColumns, ColumnDiffers, ColumnShown;
    EmitsNextColumn(before, a, b, n, differs, ColumnDifference(kind, a, b));
    diffs := before;
    if differs {
      diffs := diffs + [ColumnDiff(kind, SideBoth, a.name, valueA, valueB)];
    }
  }

  /** A difference of defaults names the side that has none, and says which text is an expression. */
  method CompareDefaults(before: seq<Diff>, a: ColumnSpec, b: ColumnSpec) returns (diffs: seq<Diff>)
    requires EmittedColumns(before, a, b, 4)
    ensures EmittedColumns(diffs, a, b, 5)
  {
    hide EmittedColumns, DefaultValue, SameDefault, DefaultSide;
    KindsInOrder();
    EmitsNextColumn(before, a, b, 4, !SameDefault(a, b), ColumnDifference(ColumnDefaultMismatch, a, b));
    diffs := before;
    if !SameDefault(a, b) {
      diffs := diffs + [Diff(ColumnDefaultMismatch, DefaultSide(a, b), a.name, "", DefaultValue(a), DefaultValue(b),
                             a.default_.Some? && a.defaultIsExpression, b.default_.Some? && b.defaultIsExpression)];
    }
  }

  lemma NothingEmitted(a: ColumnSpec, b: ColumnSpec)
    ensures EmittedColumns([], a, b, 0)
  {
  }

  lemma AllEmitted(diffs: seq<Diff>, a: ColumnSpec, b: ColumnSpec)
    requires EmittedColumns(diffs, a, b, |COLUMN_KINDS|)
    ensures diffs == ColumnPairDiffs(a, b)
  {
    assert COLUMN_KINDS[..|COLUMN_KINDS|] == COLUMN_KINDS;
  }

  method Unmatched(n: nat, matched: set<nat>) returns (positions: seq<nat>)
    ensures positions == Outside(n, matched)
  {
    positions := [];
    for j := 0 to n
      invariant positions == Outside(j, matched)
    {
      if j !in matched {
        positions := positions + [j];
      }
    }
  }

  method AppendAbsent(before: seq<Diff>, b: seq<ColumnSpec>, positions: seq<nat>) returns (diffs: seq<Diff>)
    requires forall k :: 0 <= k < |positions| ==> positions[k] < |b|
    ensures diffs == before + AbsentFromA(b, positions)
  {
    diffs := before;
    for k := 0 to |positions|
      invariant diffs == before + AbsentFromA(b, positions)[..k]
    {
      var column := b[positions[k]];
      diffs := diffs + [ColumnDiff(ColumnAbsent, SideA, column.name, Nothing, Text(column.columnType))];
    }
  }

  method DiffColumns(a: seq<ColumnSpec>, b: seq<ColumnSpec>) returns (diffs: seq<Diff>)
    ensures IsColumnSection(a, b, diffs)
  {
    var matched: set<nat>;
    diffs, matched := ReportColumns(a, b);
    assert ColumnMatches(a, b)[..|a|] == ColumnMatches(a, b);
    var positions := Unmatched(|b|, matched);
    ByFoldedNameIsStrict(b);
    positions := Sorting.Sort(positions, ByFoldedName(b), |b|);
    assert IsTail(a, b, positions);
    diffs := AppendAbsent(diffs, b, positions);
  }

  // ---------------------------------------------------------------------------
  // Indexes.

  function IndexNames(indexes: seq<IndexSpec>): (names: seq<string>)
    ensures |names| == |indexes|
    ensures forall i :: 0 <= i < |names| ==> names[i] == indexes[i].name
  {
    seq(|indexes|, i requires 0 <= i < |indexes| => indexes[i].name)
  }

  predicate SamePart(left: IndexPart, right: IndexPart) {
    && FoldKey(left.column) == FoldKey(right.column) && left.expression == right.expression
    && left.subPart == right.subPart && left.descending == right.descending
  }

  predicate SameParts(a: seq<IndexPart>, b: seq<IndexPart>) {
    |a| == |b| && forall i :: 0 <= i < |a| ==> SamePart(a[i], b[i])
  }

  method PartsEqual(a: seq<IndexPart>, b: seq<IndexPart>) returns (equal: bool)
    ensures equal <==> SameParts(a, b)
  {
    if |a| != |b| {
      return false;
    }
    for i := 0 to |a|
      invariant forall k :: 0 <= k < i ==> SamePart(a[k], b[k])
    {
      var columns := AsciiFoldEqual(a[i].column, b[i].column);
      if !(columns && a[i].expression == b[i].expression && a[i].subPart == b[i].subPart &&
           a[i].descending == b[i].descending)
      {
        assert !SamePart(a[i], b[i]);
        return false;
      }
    }
    return true;
  }

  function IndexMatches(a: seq<IndexSpec>, b: seq<IndexSpec>): (founds: seq<Option<nat>>)
    ensures |founds| == |a|
    ensures forall i :: 0 <= i < |a| && founds[i].Some? ==> founds[i].value < |b|
  {
    Founds(IndexNames(a), IndexNames(b))
  }

  function IndexPairDiffs(a: IndexSpec, b: IndexSpec): seq<Diff> {
    Chosen(IndexPairCandidates(a, b))
  }

  function IndexPairCandidates(a: IndexSpec, b: IndexSpec): seq<(bool, Diff)> {
    [
      (a.name != b.name, ObjectDiff(IndexNameCaseMismatch, SideBoth, a.name, Text(a.name), Text(b.name))),
      (!SameParts(a.parts, b.parts), ObjectDiff(IndexPartsMismatch, SideBoth, a.name, Parts(a.parts), Parts(b.parts))),
      (a.unique != b.unique, ObjectDiff(IndexUniquenessMismatch, SideBoth, a.name, Flag(a.unique), Flag(b.unique))),
      (a.indexType != b.indexType,
       ObjectDiff(IndexTypeMismatch, SideBoth, a.name, Text(a.indexType), Text(b.indexType))),
      (a.visible != b.visible, ObjectDiff(IndexVisibilityMismatch, SideBoth, a.name, Flag(a.visible), Flag(b.visible)))
    ]
  }

  function IndexReport(b: seq<IndexSpec>, index: IndexSpec, found: Option<nat>): seq<Diff>
    requires found.Some? ==> found.value < |b|
  {
    match found
    case None => [ObjectDiff(IndexAbsent, SideB, index.name, Nothing, Nothing)]
    case Some(j) => IndexPairDiffs(index, b[j])
  }

  function IndexReports(a: seq<IndexSpec>, b: seq<IndexSpec>, founds: seq<Option<nat>>, n: nat): seq<Diff>
    requires n <= |a| == |founds|
    requires forall i :: 0 <= i < |a| && founds[i].Some? ==> founds[i].value < |b|
  {
    if n == 0 then [] else IndexReports(a, b, founds, n - 1) + IndexReport(b, a[n - 1], founds[n - 1])
  }

  /** The indexes among the first `n` of `b` that were not matched. */
  function AbsentIndexes(b: seq<IndexSpec>, taken: set<nat>, n: nat): seq<Diff>
    requires n <= |b|
  {
    if n == 0 then
      []
    else
      AbsentIndexes(b, taken, n - 1) +
        When(n - 1 !in taken, ObjectDiff(IndexAbsent, SideA, b[n - 1].name, Nothing, Nothing))
  }

  /** Every index of `a` in order, then what only `b` has, in `b`'s order. */
  function IndexListDiffs(a: seq<IndexSpec>, b: seq<IndexSpec>): seq<Diff> {
    var founds := IndexMatches(a, b);
    IndexReports(a, b, founds, |a|) + AbsentIndexes(b, Taken(founds), |b|)
  }

  function IndexSection(a: TableSpec, b: TableSpec): seq<Diff> {
    var (side, both) := SectionAgreement(a, b, Indexes);
    if both then IndexListDiffs(a.indexes, b.indexes)
    else When(side != NoSide, TableDiff(IndexUnconfirmed, side, Nothing, Nothing))
  }

  /** The five attributes in turn, comparing parts by folded column names. */
  method ReportIndexPair(indexA: IndexSpec, indexB: IndexSpec) returns (report: seq<Diff>)
    ensures report == IndexPairDiffs(indexA, indexB)
  {
    hide ObjectDiff, Chosen, SameParts, IndexPairDiffs;
    report := [];
    if indexA.name != indexB.name {
      report := report +
        [ObjectDiff(IndexNameCaseMismatch, SideBoth, indexA.name, Text(indexA.name), Text(indexB.name))];
    }
    var sameParts := PartsEqual(indexA.parts, indexB.parts);
    if !sameParts {
      report := report +
        [ObjectDiff(IndexPartsMismatch, SideBoth, indexA.name, Parts(indexA.parts), Parts(indexB.parts))];
    }
    if indexA.unique != indexB.unique {
      report := report +
        [ObjectDiff(IndexUniquenessMismatch, SideBoth, indexA.name, Flag(indexA.unique), Flag(indexB.unique))];
    }
    if indexA.indexType != indexB.indexType {
      report := report +
        [ObjectDiff(IndexTypeMismatch, SideBoth, indexA.name, Text(indexA.indexType), Text(indexB.indexType))];
    }
    if indexA.visible != indexB.visible {
      report := report +
        [ObjectDiff(IndexVisibilityMismatch, SideBoth, indexA.name, Flag(indexA.visible), Flag(indexB.visible))];
    }
    IndexPairInOrder(indexA, indexB);
  }

  lemma IndexPairInOrder(a: IndexSpec, b: IndexSpec)
    ensures IndexPairDiffs(a, b) ==
            When(a.name != b.name,
                 ObjectDiff(IndexNameCaseMismatch, SideBoth, a.name, Text(a.name), Text(b.name))) +
            When(!SameParts(a.parts, b.parts),
                 ObjectDiff(IndexPartsMismatch, SideBoth, a.name, Parts(a.parts), Parts(b.parts))) +
            When(a.unique != b.unique,
                 ObjectDiff(IndexUniquenessMismatch, SideBoth, a.name, Flag(a.unique), Flag(b.unique))) +
            When(a.indexType != b.indexType,
                 ObjectDiff(IndexTypeMismatch, SideBoth, a.name, Text(a.indexType), Text(b.indexType))) +
            When(a.visible != b.visible,
                 ObjectDiff(IndexVisibilityMismatch, SideBoth, a.name, Flag(a.visible), Flag(b.visible)))
  {
    hide When, SameParts, ObjectDiff, Chosen;
    ChosenOfFive(IndexPairCandidates(a, b));
  }

  lemma ChosenOfFive(c: seq<(bool, Diff)>)
    requires |c| == 5
    ensures Chosen(c) ==
            When(c[0].0, c[0].1) + When(c[1].0, c[1].1) + When(c[2].0, c[2].1) + When(c[3].0, c[3].1) +
            When(c[4].0, c[4].1)
  {
    hide When;
    assert c[..4][..3] == c[..3] && c[..3][..2] == c[..2] && c[..2][..1] == c[..1] && c[..1][..0] == [];
    assert c[..4][3] == c[3] && c[..3][2] == c[2] && c[..2][1] == c[1] && c[..1][0] == c[0];
    assert Chosen(c[..1]) == [] + When(c[0].0, c[0].1) == When(c[0].0, c[0].1);
    assert Chosen(c[..2]) == Chosen(c[..1]) + When(c[1].0, c[1].1);
    assert Chosen(c[..3]) == Chosen(c[..2]) + When(c[2].0, c[2].1);
    assert Chosen(c[..4]) == Chosen(c[..3]) + When(c[3].0, c[3].1);
  }

  ghost predicate IndexesReported(a: seq<IndexSpec>, b: seq<IndexSpec>, i: nat, diffs: seq<Diff>, matched: set<nat>) {
    && i <= |a|
    && diffs == IndexReports(a, b, IndexMatches(a, b), i)
    && matched == Taken(IndexMatches(a, b)[..i])
  }

  lemma IndexesReportedNext(a: seq<IndexSpec>, b: seq<IndexSpec>, i: nat, diffs: seq<Diff>, matched: set<nat>,
                            found: Option<nat>, report: seq<Diff>)
    requires IndexesReported(a, b, i, diffs, matched) && i < |a|
    requires found == IndexMatches(a, b)[i] && report == IndexReport(b, a[i], found)
    ensures IndexesReported(a, b, i + 1, diffs + report, if found.Some? then matched + {found.value} else matched)
  {
    hide IndexReport;
    TakenPrefixNext(IndexMatches(a, b), i);
  }

  method ReportIndex(b: seq<IndexSpec>, index: IndexSpec, found: Option<nat>) returns (report: seq<Diff>)
    requires found.Some? ==> found.value < |b|
    ensures report == IndexReport(b, index, found)
  {
    if found.None? {
      report := [ObjectDiff(IndexAbsent, SideB, index.name, Nothing, Nothing)];
    } else {
      report := ReportIndexPair(index, b[found.value]);
    }
  }

  method ReportIndexes(a: seq<IndexSpec>, b: seq<IndexSpec>) returns (diffs: seq<Diff>, matched: set<nat>)
    ensures IndexesReported(a, b, |a|, diffs, matched)
  {
    var namesA, namesB := IndexNames(a), IndexNames(b);
    var byNameB := IndexFor(namesA, namesB);
    diffs, matched := [], {};
    for i := 0 to |a|
      invariant IndexesReported(a, b, i, diffs, matched)
    {
      var found := LookUp(byNameB, namesA, namesB, i);
      var report := ReportIndex(b, a[i], found);
      IndexesReportedNext(a, b, i, diffs, matched, found, report);
      diffs := diffs + report;
      if found.Some? {
        matched := matched + {found.value};
      }
    }
  }

  method AppendAbsentIndexes(before: seq<Diff>, b: seq<IndexSpec>, matched: set<nat>) returns (diffs: seq<Diff>)
    ensures diffs == before + AbsentIndexes(b, matched, |b|)
  {
    diffs := before;
    for j := 0 to |b|
      invariant diffs == before + AbsentIndexes(b, matched, j)
    {
      if j !in matched {
        diffs := diffs + [ObjectDiff(IndexAbsent, SideA, b[j].name, Nothing, Nothing)];
      }
    }
  }

  method DiffIndexes(a: TableSpec, b: TableSpec) returns (diffs: seq<Diff>)
    ensures diffs == IndexSection(a, b)
  {
    var (side, both) := SectionAgreement(a, b, Indexes);
    if !both {
      if side == NoSide {
        return [];
      }
      return [TableDiff(IndexUnconfirmed, side, Nothing, Nothing)];
    }
    var matched: set<nat>;
    diffs, matched := ReportIndexes(a.indexes, b.indexes);
    ghost var founds := IndexMatches(a.indexes, b.indexes);
    assert founds[..|a.indexes|] == founds;
    diffs := AppendAbsentIndexes(diffs, b.indexes, matched);
  }

  // ---------------------------------------------------------------------------
  // Constraints, matched by exact name.

  function ConstraintNames(constraints: seq<ConstraintSpec>): (names: seq<string>)
    ensures |names| == |constraints|
    ensures forall i :: 0 <= i < |names| ==> names[i] == constraints[i].name
  {
    seq(|constraints|, i requires 0 <= i < |constraints| => constraints[i].name)
  }

  /** A change of kind is reported alone; an unknown kind cannot be compared at all. */
  function ConstraintPairDiffs(a: ConstraintSpec, b: ConstraintSpec): seq<Diff> {
    if a.kind != b.kind then
      [ObjectDiff(ConstraintKindMismatch, SideBoth, a.name, OfKind(a.kind), OfKind(b.kind))]
    else
      match a.kind
      case ConstraintUnknown =>
        [ObjectDiff(ConstraintKindUnconfirmed, SideBoth, a.name, Nothing, Nothing)]
      case Check =>
        When(a.checkClause != b.checkClause,
             ObjectDiff(CheckClauseMismatch, SideBoth, a.name, Text(a.checkClause), Text(b.checkClause))) +
        When(a.enforced != b.enforced,
             ObjectDiff(CheckEnforcementMismatch, SideBoth, a.name, Flag(a.enforced), Flag(b.enforced)))
      case ForeignKey =>
        When(a.columns != b.columns,
             ObjectDiff(ForeignKeyColumnsMismatch, SideBoth, a.name, Names(a.columns), Names(b.columns))) +
        When(a.refSchema != b.refSchema || a.refTable != b.refTable || a.refColumns != b.refColumns,
             ObjectDiff(ForeignKeyReferenceMismatch, SideBoth, a.name,
                        Reference(a.refSchema, a.refTable, a.refColumns),
                        Reference(b.refSchema, b.refTable, b.refColumns))) +
        When(a.updateRule != b.updateRule || a.deleteRule != b.deleteRule,
             ObjectDiff(ForeignKeyRuleMismatch, SideBoth, a.name,
                        Rules(a.updateRule, a.deleteRule), Rules(b.updateRule, b.deleteRule)))
      case OtherKind(_) => []
  }

  function ConstraintReport(a: seq<ConstraintSpec>, b: seq<ConstraintSpec>, i: nat): seq<Diff>
    requires i < |a|
  {
    if a[i].name in ConstraintNames(b) then
      ConstraintPairDiffs(a[i], b[Last(ConstraintNames(b), a[i].name)])
    else
      [ObjectDiff(ConstraintAbsent, SideB, a[i].name, Nothing, Nothing)]
  }

  function ConstraintReports(a: seq<ConstraintSpec>, b: seq<ConstraintSpec>, n: nat): seq<Diff>
    requires n <= |a|
  {
    if n == 0 then [] else ConstraintReports(a, b, n - 1) + ConstraintReport(a, b, n - 1)
  }

  function ConstraintsAbsentFromA(a: seq<ConstraintSpec>, b: seq<ConstraintSpec>, n: nat): seq<Diff>
    requires n <= |b|
  {
    if n == 0 then
      []
    else
      ConstraintsAbsentFromA(a, b, n - 1) +
      When(b[n - 1].name !in ConstraintNames(a), ObjectDiff(ConstraintAbsent, SideA, b[n - 1].name, Nothing, Nothing))
  }

  function ConstraintListDiffs(a: seq<ConstraintSpec>, b: seq<ConstraintSpec>): seq<Diff> {
    ConstraintReports(a, b, |a|) + ConstraintsAbsentFromA(a, b, |b|)
  }

  function ConstraintSection(a: TableSpec, b: TableSpec): seq<Diff> {
    var (side, both) := SectionAgreement(a, b, Constraints);
    if both then ConstraintListDiffs(a.constraints, b.constraints)
    else When(side != NoSide, TableDiff(ConstraintUnconfirmed, side, Nothing, Nothing))
  }

  /** Later constraints of the same name replace earlier ones. */
  method ConstraintsByName(b: seq<ConstraintSpec>) returns (byName: map<string, nat>)
    ensures forall name :: name in byName <==> name in ConstraintNames(b)
    ensures forall name :: name in byName ==> byName[name] == Last(ConstraintNames(b), name)
  {
    byName := map[];
    for index := 0 to |b|
      invariant forall name :: name in byName <==> name in ConstraintNames(b[..index])
      invariant forall name :: name in byName ==> byName[name] == Last(ConstraintNames(b[..index]), name)
    {
      assert ConstraintNames(b[..index + 1]) == ConstraintNames(b[..index]) + [b[index].name];
      LastNext(ConstraintNames(b[..index]), b[index].name);
      byName := byName[b[index].name := index];
    }
    assert b[..|b|] == b;
  }

  /** What the pass over `a` has established before constraint `i`. */
  ghost predicate ConstraintsReported(a: seq<ConstraintSpec>, b: seq<ConstraintSpec>, i: nat, diffs: seq<Diff>,
                                      matched: set<string>) {
    && i <= |a|
    && diffs == ConstraintReports(a, b, i)
    && (forall name :: name in matched <==> name in ConstraintNames(a)[..i] && name in ConstraintNames(b))
  }

  lemma ConstraintsReportedStart(a: seq<ConstraintSpec>, b: seq<ConstraintSpec>)
    ensures ConstraintsReported(a, b, 0, [], {})
  {
  }

  lemma ConstraintsReportedNext(a: seq<ConstraintSpec>, b: seq<ConstraintSpec>, i: nat, diffs: seq<Diff>,
                                matched: set<string>)
    requires ConstraintsReported(a, b, i, diffs, matched) && i < |a|
    ensures ConstraintsReported(a, b, i + 1, diffs + ConstraintReport(a, b, i),
                                if a[i].name in ConstraintNames(b) then matched + {a[i].name} else matched)
  {
    hide ConstraintReport;
    assert ConstraintNames(a)[..i + 1] == ConstraintNames(a)[..i] + [a[i].name];
  }

  method ReportConstraint(a: seq<ConstraintSpec>, b: seq<ConstraintSpec>, byNameB: map<string, nat>, i: nat)
    returns (report: seq<Diff>)
    requires i < |a|
    requires forall name :: name in byNameB <==> name in ConstraintNames(b)
    requires forall name :: name in byNameB ==> byNameB[name] == Last(ConstraintNames(b), name)
    ensures report == ConstraintReport(a, b, i)
  {
    if a[i].name !in byNameB {
      return [ObjectDiff(ConstraintAbsent, SideB, a[i].name, Nothing, Nothing)];
    }
    report := DiffConstraintPair(a[i], b[byNameB[a[i].name]]);
  }

  /** Compares the fields of the common kind in turn; a change of kind is reported alone. */
  method DiffConstraintPair(a: ConstraintSpec, b: ConstraintSpec) returns (diffs: seq<Diff>)
    ensures diffs == ConstraintPairDiffs(a, b)
  {
    if a.kind != b.kind {
      return [ObjectDiff(ConstraintKindMismatch, SideBoth, a.name, OfKind(a.kind), OfKind(b.kind))];
    }
    if a.kind == ConstraintUnknown {
      return [ObjectDiff(ConstraintKindUnconfirmed, SideBoth, a.name, Nothing, Nothing)];
    }
    diffs := [];
    match a.kind {
      case Check =>
        if a.checkClause != b.checkClause {
          diffs := diffs +
            [ObjectDiff(CheckClauseMismatch, SideBoth, a.name, Text(a.checkClause), Text(b.checkClause))];
        }
        if a.enforced != b.enforced {
          diffs := diffs + [ObjectDiff(CheckEnforcementMismatch, SideBoth, a.name, Flag(a.enforced), Flag(b.enforced))];
        }
      case ForeignKey =>
        if a.columns != b.columns {
          diffs := diffs +
            [ObjectDiff(ForeignKeyColumnsMismatch, SideBoth, a.name, Names(a.columns), Names(b.columns))];
        }
        if a.refSchema != b.refSchema || a.refTable != b.refTable || a.refColumns != b.refColumns {
          diffs := diffs + [ObjectDiff(ForeignKeyReferenceMismatch, SideBoth, a.name,
                                       Reference(a.refSchema, a.refTable, a.refColumns),
                                       Reference(b.refSchema, b.refTable, b.refColumns))];
        }
        if a.updateRule != b.updateRule || a.deleteRule != b.deleteRule {
          diffs := diffs + [ObjectDiff(ForeignKeyRuleMismatch, SideBoth, a.name,
                                       Rules(a.updateRule, a.deleteRule), Rules(b.updateRule, b.deleteRule))];
        }
      case _ =>
    }
  }

  method ReportConstraints(a: seq<ConstraintSpec>, b: seq<ConstraintSpec>)
    returns (diffs: seq<Diff>, matched: set<string>)
    ensures ConstraintsReported(a, b, |a|, diffs, matched)
  {
    hide ConstraintReport, ConstraintReports;
    var byNameB := ConstraintsByName(b);
    diffs, matched := [], {};
    ConstraintsReportedStart(a, b);
    for i := 0 to |a|
      invariant ConstraintsReported(a, b, i, diffs, matched)
    {
      var report := ReportConstraint(a, b, byNameB, i);
      ConstraintsReportedNext(a, b, i, diffs, matched);
      diffs := diffs + report;
      if a[i].name in byNameB {
        matched := matched + {a[i].name};
      }
    }
  }

  method DiffConstraints(a: TableSpec, b: TableSpec) returns (diffs: seq<Diff>)
    ensures diffs == ConstraintSection(a, b)
  {
    var (side, both) := SectionAgreement(a, b, Constraints);
    if !both {
      if side == NoSide {
        return [];
      }
      return [TableDiff(ConstraintUnconfirmed, side, Nothing, Nothing)];
    }
    var matched: set<string>;
    diffs, matched := ReportConstraints(a.constraints, b.constraints);
    assert ConstraintNames(a.constraints)[..|a.constraints|] == ConstraintNames(a.constraints);
    diffs := AppendAbsentConstraints(diffs, a.constraints, b.constraints, matched);
  }

  method AppendAbsentConstraints(before: seq<Diff>, a: seq<ConstraintSpec>, b: seq<ConstraintSpec>,
                                 matched: set<string>)
    returns (diffs: seq<Diff>)
    requires forall name :: name in matched <==> name in ConstraintNames(a) && name in ConstraintNames(b)
    ensures diffs == before + ConstraintsAbsentFromA(a, b, |b|)
  {
    diffs := before;
    for j := 0 to |b|
      invariant diffs == before + ConstraintsAbsentFromA(a, b, j)
    {
      assert ConstraintNames(b)[j] == b[j].name;
      if b[j].name !in matched {
        diffs := diffs + [ObjectDiff(ConstraintAbsent, SideA, b[j].name, Nothing, Nothing)];
      }
    }
  }

  // ---------------------------------------------------------------------------
  // The whole comparison.

  /** Table level, then columns, then indexes, then constraints. */
  ghost predicate IsComparison(a: TableSpec, b: TableSpec, diffs: seq<Diff>) {
    exists columns: seq<Diff> ::
      && IsColumnSection(a.columns, b.columns, columns)
      && diffs == TableLevelDiffs(a, b) + columns + IndexSection(a, b) + ConstraintSection(a, b)
  }

  method DiffSpecs(a: TableSpec, b: TableSpec) returns (diffs: seq<Diff>)
    ensures IsComparison(a, b, diffs)
  {
    diffs := DiffTableLevel(a, b);
    var columns := DiffColumns(a.columns, b.columns);
    var indexes := DiffIndexes(a, b);
    var constraints := DiffConstraints(a, b);
    diffs := diffs + columns + indexes + constraints;
  }
}
