/**
Which differences a comparison holds, section by section: every kind with its condition, its
side, the object it names and the values it shows, in terms of the two specifications alone.
*/
module SpecContents {
  import opened Outcomes
  import opened Lists
  import opened FoldedNames
  import opened SpecDiff
  import opened SpecMirror
  import Grouping
  import Ordering
  import Sorting

  // ---------------------------------------------------------------------------
  // The three forms of a difference.

  function AboutTable(kind: Kind, side: Side, a: Value, b: Value): Diff {
    Diff(kind, side, "", "", a, b, false, false)
  }

  function AboutColumn(kind: Kind, column: string, a: Value, b: Value): Diff {
    Diff(kind, SideBoth, column, "", a, b, false, false)
  }

  function AboutObject(kind: Kind, side: Side, name: string, a: Value, b: Value): Diff {
    Diff(kind, side, "", name, a, b, false, false)
  }

  lemma WhenHolds(condition: bool, diff: Diff, d: Diff)
    ensures d in When(condition, diff) <==> condition && d == diff
  {
  }

  lemma EitherHolds<T>(left: seq<T>, right: seq<T>, x: T)
    ensures x in left + right <==> x in left || x in right
  {
  }

  // ---------------------------------------------------------------------------
  // Table level.

  predicate TableLevelHas(a: TableSpec, b: TableSpec, d: Diff) {
    || (a.engine != b.engine && d == AboutTable(EngineMismatch, SideBoth, Text(a.engine), Text(b.engine)))
    || (a.charset != b.charset && d == AboutTable(CharsetMismatch, SideBoth, Text(a.charset), Text(b.charset)))
    || (a.collation != b.collation &&
        d == AboutTable(CollationMismatch, SideBoth, Text(a.collation), Text(b.collation)))
    || (Comment in a.captured && Comment in b.captured && a.comment != b.comment &&
        d == AboutTable(CommentMismatch, SideBoth, Text(a.comment), Text(b.comment)))
    || OneSided(a, b, Comment, CommentUnconfirmed, d)
  }

  /** Only one side captured the section, and the other side is named. */
  predicate OneSided(a: TableSpec, b: TableSpec, section: Section, kind: Kind, d: Diff) {
    || (section in a.captured && section !in b.captured && d == AboutTable(kind, SideB, Nothing, Nothing))
    || (section !in a.captured && section in b.captured && d == AboutTable(kind, SideA, Nothing, Nothing))
  }

  lemma OneSidedHolds(a: TableSpec, b: TableSpec, section: Section, kind: Kind, d: Diff)
    ensures var (side, both) := SectionAgreement(a, b, section);
            !both && d in When(side != NoSide, TableDiff(kind, side, Nothing, Nothing)) <==>
            OneSided(a, b, section, kind, d)
  {
    var (side, both) := SectionAgreement(a, b, section);
    WhenHolds(side != NoSide, TableDiff(kind, side, Nothing, Nothing), d);
  }

  lemma TableLevelHolds(a: TableSpec, b: TableSpec, d: Diff)
    ensures d in TableLevelDiffs(a, b) <==> TableLevelHas(a, b, d)
  {
    hide When, OneSided;
    var (side, both) := SectionAgreement(a, b, Comment);
    WhenHolds(a.engine != b.engine, TableDiff(EngineMismatch, SideBoth, Text(a.engine), Text(b.engine)), d);
    WhenHolds(a.charset != b.charset, TableDiff(CharsetMismatch, SideBoth, Text(a.charset), Text(b.charset)), d);
    WhenHolds(a.collation != b.collation,
              TableDiff(CollationMismatch, SideBoth, Text(a.collation), Text(b.collation)), d);
    OneSidedHolds(a, b, Comment, CommentUnconfirmed, d);
    WhenHolds(side != NoSide, TableDiff(CommentUnconfirmed, side, Nothing, Nothing), d);
  }

  // ---------------------------------------------------------------------------
  // Columns.

  /** What a matched pair of columns is reported for, kind by kind. */
  predicate ColumnPairHas(a: ColumnSpec, b: ColumnSpec, d: Diff) {
    match d.kind
    case ColumnNameCaseMismatch =>
      && a.name != b.name
      && d == AboutColumn(ColumnNameCaseMismatch, a.name, Text(a.name), Text(b.name))
    case ColumnTypeMismatch =>
      && a.normalizedType != b.normalizedType
      && d == AboutColumn(ColumnTypeMismatch, a.name, Text(a.columnType), Text(b.columnType))
    case ColumnNullabilityMismatch =>
      && a.nullable != b.nullable
      && d == AboutColumn(ColumnNullabilityMismatch, a.name, Flag(a.nullable), Flag(b.nullable))
    case ColumnCharsetMismatch =>
      && a.charset != b.charset
      && d == AboutColumn(ColumnCharsetMismatch, a.name, Text(a.charset), Text(b.charset))
    case ColumnCollationMismatch =>
      && a.collation != b.collation
      && d == AboutColumn(ColumnCollationMismatch, a.name, Text(a.collation), Text(b.collation))
    case ColumnDefaultMismatch => DefaultHas(a, b, d)
    case ColumnOrderMismatch =>
      && a.ordinal != b.ordinal
      && d == AboutColumn(ColumnOrderMismatch, a.name, Number(a.ordinal), Number(b.ordinal))
    case ColumnVisibilityMismatch =>
      && a.invisible != b.invisible
      && d == AboutColumn(ColumnVisibilityMismatch, a.name, Flag(a.invisible), Flag(b.invisible))
    case ColumnGeneratedMismatch =>
      && a.generated != b.generated
      && d == AboutColumn(ColumnGeneratedMismatch, a.name, Generation(a.generated), Generation(b.generated))
    case ColumnGenerationExprMismatch =>
      && a.generationExpr != b.generationExpr
      && d == AboutColumn(ColumnGenerationExprMismatch, a.name, Text(a.generationExpr), Text(b.generationExpr))
    case ColumnAutoIncrementMismatch =>
      && a.autoIncrement != b.autoIncrement
      && d == AboutColumn(ColumnAutoIncrementMismatch, a.name, Flag(a.autoIncrement), Flag(b.autoIncrement))
    case ColumnOnUpdateMismatch =>
      && a.onUpdate != b.onUpdate
      && d == AboutColumn(ColumnOnUpdateMismatch, a.name, Flag(a.onUpdate), Flag(b.onUpdate))
    case _ => false
  }

  /** A default on one side only names the other side; two defaults differ by text or by being an expression. */
  predicate DefaultHas(a: ColumnSpec, b: ColumnSpec, d: Diff) {
    match (a.default_, b.default_)
    case (None, None) => false
    case (None, Some(y)) =>
      d == Diff(ColumnDefaultMismatch, SideA, a.name, "", Text(""), Text(y), false, b.defaultIsExpression)
    case (Some(x), None) =>
      d == Diff(ColumnDefaultMismatch, SideB, a.name, "", Text(x), Text(""), a.defaultIsExpression, false)
    case (Some(x), Some(y)) =>
      && (x != y || a.defaultIsExpression != b.defaultIsExpression)
      && d == Diff(ColumnDefaultMismatch, SideBoth, a.name, "", Text(x), Text(y),
                   a.defaultIsExpression, b.defaultIsExpression)
  }

  lemma DefaultHolds(a: ColumnSpec, b: ColumnSpec, d: Diff)
    ensures ColumnDiffers(ColumnDefaultMismatch, a, b) && d == ColumnDifference(ColumnDefaultMismatch, a, b) <==>
            DefaultHas(a, b, d)
  {
  }

  lemma ColumnKindHolds(a: ColumnSpec, b: ColumnSpec, d: Diff)
    requires d.kind != ColumnNameCaseMismatch
    ensures ColumnDiffers(d.kind, a, b) && d == ColumnDifference(d.kind, a, b) <==> ColumnPairHas(a, b, d)
  {
    hide DefaultHas;
    if d.kind == ColumnDefaultMismatch {
      DefaultHolds(a, b, d);
    }
  }

  lemma OtherKindsAreEqual(a: ColumnSpec, b: ColumnSpec, kind: Kind)
    ensures ColumnDiffers(kind, a, b) ==> kind in COLUMN_KINDS && kind != ColumnNameCaseMismatch
  {
    hide SameDefault;
    KindsInOrder();
  }

  lemma ColumnPairHolds(a: ColumnSpec, b: ColumnSpec, d: Diff)
    ensures d in PairReport(a, b) <==> ColumnPairHas(a, b, d)
  {
    hide ColumnDiffers, ColumnDifference, DifferingColumns, When;
    WhenHolds(a.name != b.name,
              ColumnDiff(ColumnNameCaseMismatch, SideBoth, a.name, Text(a.name), Text(b.name)), d);
    DifferingColumnsHold(COLUMN_KINDS, a, b);
    OtherKindsAreEqual(a, b, d.kind);
    if d.kind != ColumnNameCaseMismatch {
      hide ColumnPairHas;
      ColumnKindHolds(a, b, d);
    }
  }

  /** Matched pairs, columns without a match in `b`, and columns of `b` without one in `a`. */
  ghost predicate ColumnsHave(a: seq<ColumnSpec>, b: seq<ColumnSpec>, d: Diff) {
    || (exists i, j :: 0 <= i < |a| && 0 <= j < |b| && Related(ColumnNames(a), ColumnNames(b), i, j) &&
          ColumnPairHas(a[i], b[j], d))
    || (exists i :: 0 <= i < |a| && (forall j: nat :: !Related(ColumnNames(a), ColumnNames(b), i, j)) &&
          d == Diff(ColumnAbsent, SideB, a[i].name, "", Text(a[i].columnType), Nothing, false, false))
    || (exists j :: 0 <= j < |b| && (forall i: nat :: !Related(ColumnNames(a), ColumnNames(b), i, j)) &&
          d == Diff(ColumnAbsent, SideA, b[j].name, "", Nothing, Text(b[j].columnType), false, false))
  }

  lemma ColumnsHold(a: seq<ColumnSpec>, b: seq<ColumnSpec>, diffs: seq<Diff>, d: Diff)
    requires Unrepeated(ColumnNames(a)) && Unrepeated(ColumnNames(b)) && IsColumnSection(a, b, diffs)
    ensures d in diffs <==> ColumnsHave(a, b, d)
  {
    hide PairReport, ColumnPairHas, Related, IsColumnSection;
    SectionHolds(a, b, diffs, d);
    forall i, j | 0 <= i < |a| && 0 <= j < |b|
      ensures d in PairReport(a[i], b[j]) <==> ColumnPairHas(a[i], b[j], d)
    {
      ColumnPairHolds(a[i], b[j], d);
    }
    forall i: nat
      ensures Alone(a, b, i) <==> forall j: nat :: !Related(ColumnNames(a), ColumnNames(b), i, j)
    {
      assert forall j: nat :: Pairs(a, b, i, j) == Related(ColumnNames(a), ColumnNames(b), i, j);
    }
    forall j: nat
      ensures Alone(b, a, j) <==> forall i: nat :: !Related(ColumnNames(a), ColumnNames(b), i, j)
    {
      forall i: nat
        ensures Pairs(b, a, j, i) == Related(ColumnNames(a), ColumnNames(b), i, j)
      {
        PairsEitherWay(a, b, i, j);
      }
    }
  }

  /** What only `b` has comes by folded name, then by exact name, each compared by its first difference. */
  lemma TailIsSorted(a: seq<ColumnSpec>, b: seq<ColumnSpec>, positions: seq<nat>, k: nat, l: nat)
    requires Unrepeated(ColumnNames(b)) && IsTail(a, b, positions) && k < l < |positions|
    ensures var x, y := b[positions[k]].name, b[positions[l]].name;
            || Ordering.SmallerFirst(FoldKey(x), FoldKey(y))
            || (FoldKey(x) == FoldKey(y) && Ordering.SmallerFirst(x, y))
  {
    hide OnlyInB, Ordering.SmallerFirst, Ordering.Less;
    OutsideUnrepeated(|b|, Taken(ColumnMatches(a, b)));
    PositionsDiffer(a, b, positions, k, l);
    var x, y := b[positions[k]].name, b[positions[l]].name;
    assert ColumnNames(b)[positions[k]] != ColumnNames(b)[positions[l]];
    assert !ByFoldedName(b)(positions[l], positions[k]);
    NameLessTotal(x, y);
    Ordering.LessByFirstDifference(FoldKey(x), FoldKey(y));
    Ordering.LessByFirstDifference(x, y);
  }

  lemma PositionsDiffer(a: seq<ColumnSpec>, b: seq<ColumnSpec>, positions: seq<nat>, k: nat, l: nat)
    requires IsTail(a, b, positions) && k < l < |positions|
    ensures positions[k] != positions[l]
  {
    OutsideUnrepeated(|b|, Taken(ColumnMatches(a, b)));
    PermutedUnrepeated(OnlyInB(a, b), positions);
  }

  /** The columns of `a` are reported one after the other. */
  lemma {:induction false} ColumnsInOrder(a: seq<ColumnSpec>, b: seq<ColumnSpec>, founds: seq<Option<nat>>, n: nat)
    requires n <= |a| == |founds|
    requires forall i :: 0 <= i < |a| && founds[i].Some? ==> founds[i].value < |b|
    ensures ColumnReports(a, b, founds, n) ==
            Grouping.Concat(seq(n, i requires 0 <= i < n => ColumnReport(b, a[i], founds[i])))
  {
    hide ColumnReport;
    var reports := seq(n, i requires 0 <= i < n => ColumnReport(b, a[i], founds[i]));
    if n == 0 {
      assert reports == [];
    } else {
      ColumnsInOrder(a, b, founds, n - 1);
      var before := seq(n - 1, i requires 0 <= i < n - 1 => ColumnReport(b, a[i], founds[i]));
      Grouping.ConcatOne(before, ColumnReport(b, a[n - 1], founds[n - 1]));
      assert reports == before + [ColumnReport(b, a[n - 1], founds[n - 1])];
    }
  }

  // ---------------------------------------------------------------------------
  // Indexes.

  /** The same key parts in the same order, column names up to the case of A-Z. */
  predicate PartsMatch(a: seq<IndexPart>, b: seq<IndexPart>) {
    |a| == |b| && forall i :: 0 <= i < |a| ==>
      && FoldKey(a[i].column) == FoldKey(b[i].column) && a[i].expression == b[i].expression
      && a[i].subPart == b[i].subPart && a[i].descending == b[i].descending
  }

  predicate IndexPairHas(a: IndexSpec, b: IndexSpec, d: Diff) {
    || (a.name != b.name &&
        d == AboutObject(IndexNameCaseMismatch, SideBoth, a.name, Text(a.name), Text(b.name)))
    || (!PartsMatch(a.parts, b.parts) &&
        d == AboutObject(IndexPartsMismatch, SideBoth, a.name, Parts(a.parts), Parts(b.parts)))
    || (a.unique != b.unique &&
        d == AboutObject(IndexUniquenessMismatch, SideBoth, a.name, Flag(a.unique), Flag(b.unique)))
    || (a.indexType != b.indexType &&
        d == AboutObject(IndexTypeMismatch, SideBoth, a.name, Text(a.indexType), Text(b.indexType)))
    || (a.visible != b.visible &&
        d == AboutObject(IndexVisibilityMismatch, SideBoth, a.name, Flag(a.visible), Flag(b.visible)))
  }

  lemma PartsMatchIs(a: seq<IndexPart>, b: seq<IndexPart>)
    ensures SameParts(a, b) <==> PartsMatch(a, b)
  {
    if PartsMatch(a, b) {
      forall i | 0 <= i < |a|
        ensures SamePart(a[i], b[i])
      {
      }
    }
    if SameParts(a, b) {
      forall i | 0 <= i < |a|
        ensures SamePart(a[i], b[i])
      {
      }
    }
  }

  lemma ObjectIs(kind: Kind, side: Side, name: string, x: Value, y: Value)
    ensures ObjectDiff(kind, side, name, x, y) == AboutObject(kind, side, name, x, y)
  {
  }

  lemma IndexPairHolds(a: IndexSpec, b: IndexSpec, d: Diff)
    ensures d in IndexPairDiffs(a, b) <==> IndexPairHas(a, b, d)
  {
    hide When, SameParts, PartsMatch, IndexPairDiffs, ObjectDiff, AboutObject;
    IndexPairInOrder(a, b);
    PartsMatchIs(a.parts, b.parts);
    forall kind: Kind, x: Value, y: Value
      ensures ObjectDiff(kind, SideBoth, a.name, x, y) == AboutObject(kind, SideBoth, a.name, x, y)
    {
      ObjectIs(kind, SideBoth, a.name, x, y);
    }
    WhenHolds(a.name != b.name,
              ObjectDiff(IndexNameCaseMismatch, SideBoth, a.name, Text(a.name), Text(b.name)), d);
    WhenHolds(!SameParts(a.parts, b.parts),
              ObjectDiff(IndexPartsMismatch, SideBoth, a.name, Parts(a.parts), Parts(b.parts)), d);
    WhenHolds(a.unique != b.unique,
              ObjectDiff(IndexUniquenessMismatch, SideBoth, a.name, Flag(a.unique), Flag(b.unique)), d);
    WhenHolds(a.indexType != b.indexType,
              ObjectDiff(IndexTypeMismatch, SideBoth, a.name, Text(a.indexType), Text(b.indexType)), d);
    WhenHolds(a.visible != b.visible,
              ObjectDiff(IndexVisibilityMismatch, SideBoth, a.name, Flag(a.visible), Flag(b.visible)), d);
  }

  ghost predicate IndexesHave(a: seq<IndexSpec>, b: seq<IndexSpec>, d: Diff) {
    || (exists i, j :: 0 <= i < |a| && 0 <= j < |b| && Related(IndexNames(a), IndexNames(b), i, j) &&
          IndexPairHas(a[i], b[j], d))
    || (exists i :: 0 <= i < |a| && (forall j: nat :: !Related(IndexNames(a), IndexNames(b), i, j)) &&
          d == AboutObject(IndexAbsent, SideB, a[i].name, Nothing, Nothing))
    || (exists j :: 0 <= j < |b| && (forall i: nat :: !Related(IndexNames(a), IndexNames(b), i, j)) &&
          d == AboutObject(IndexAbsent, SideA, b[j].name, Nothing, Nothing))
  }

  lemma {:induction false} IndexReportsHold(a: seq<IndexSpec>, b: seq<IndexSpec>, founds: seq<Option<nat>>, n: nat,
                                            d: Diff)
    requires n <= |a| == |founds|
    requires forall i :: 0 <= i < |a| && founds[i].Some? ==> founds[i].value < |b|
    ensures d in IndexReports(a, b, founds, n) <==> exists i :: 0 <= i < n && d in IndexReport(b, a[i], founds[i])
  {
    hide IndexReport;
    if n == 0 {
      assert IndexReports(a, b, founds, n) == [];
    } else {
      IndexReportsHold(a, b, founds, n - 1, d);
    }
  }

  lemma {:induction false} AbsentIndexesHold(b: seq<IndexSpec>, taken: set<nat>, n: nat, d: Diff)
    requires n <= |b|
    ensures d in AbsentIndexes(b, taken, n) <==>
            exists j: nat :: j < n && j !in taken && d == AboutObject(IndexAbsent, SideA, b[j].name, Nothing, Nothing)
  {
    hide When, AboutObject, ObjectDiff;
    if n == 0 {
      assert AbsentIndexes(b, taken, n) == [];
    } else {
      AbsentIndexesHold(b, taken, n - 1, d);
      ObjectIs(IndexAbsent, SideA, b[n - 1].name, Nothing, Nothing);
      WhenHolds(n - 1 !in taken, ObjectDiff(IndexAbsent, SideA, b[n - 1].name, Nothing, Nothing), d);
    }
  }

  /** A position is found, and reached, exactly by the names it is related to. */
  lemma FoundsAreRelated(a: seq<string>, b: seq<string>)
    requires Unrepeated(a) && Unrepeated(b)
    ensures forall i, j: nat :: 0 <= i < |a| ==> (Founds(a, b)[i] == Some(j) <==> Related(a, b, i, j))
    ensures forall i :: 0 <= i < |a| ==> (Founds(a, b)[i].None? <==> forall j: nat :: !Related(a, b, i, j))
    ensures forall j: nat :: j in Taken(Founds(a, b)) <==> exists i: nat :: Related(a, b, i, j)
  {
    hide Find, Related;
    forall i, j: nat | 0 <= i < |a|
      ensures Founds(a, b)[i] == Some(j) <==> Related(a, b, i, j)
    {
      FindsExactlyTheRelated(a, b, i, j);
    }
    forall i: nat, j: nat | Related(a, b, i, j)
      ensures i < |a|
    {
      RelatedWithin(a, b, i, j);
    }
    forall j: nat
      ensures j in Taken(Founds(a, b)) <==> exists i: nat :: Related(a, b, i, j)
    {
      if i: nat :| Related(a, b, i, j) {
        assert Founds(a, b)[i] == Some(j);
      }
    }
  }

  lemma RelatedWithin(a: seq<string>, b: seq<string>, i: nat, j: nat)
    requires Related(a, b, i, j)
    ensures i < |a| && j < |b|
  {
  }

  lemma IndexesHold(a: seq<IndexSpec>, b: seq<IndexSpec>, d: Diff)
    requires Unrepeated(IndexNames(a)) && Unrepeated(IndexNames(b))
    ensures d in IndexListDiffs(a, b) <==> IndexesHave(a, b, d)
  {
    hide IndexReport, IndexReports, AbsentIndexes, IndexPairHas, Related, Find, AboutObject, Taken;
    var founds := IndexMatches(a, b);
    IndexReportsHold(a, b, founds, |a|, d);
    AbsentIndexesHold(b, Taken(founds), |b|, d);
    EitherHolds(IndexReports(a, b, founds, |a|), AbsentIndexes(b, Taken(founds), |b|), d);
    FoundsAreRelated(IndexNames(a), IndexNames(b));
    forall i: nat, j: nat | Related(IndexNames(a), IndexNames(b), i, j)
      ensures i < |a| && j < |b|
    {
      RelatedWithin(IndexNames(a), IndexNames(b), i, j);
    }
    forall i | 0 <= i < |a|
      ensures d in IndexReport(b, a[i], founds[i]) <==>
              if founds[i].None? then d == AboutObject(IndexAbsent, SideB, a[i].name, Nothing, Nothing)
              else IndexPairHas(a[i], b[founds[i].value], d)
    {
      IndexReportHolds(b, a[i], founds[i], d);
    }
  }

  lemma IndexReportHolds(b: seq<IndexSpec>, index: IndexSpec, found: Option<nat>, d: Diff)
    requires found.Some? ==> found.value < |b|
    ensures d in IndexReport(b, index, found) <==>
            if found.None? then d == AboutObject(IndexAbsent, SideB, index.name, Nothing, Nothing)
            else IndexPairHas(index, b[found.value], d)
  {
    hide IndexPairDiffs, IndexPairHas;
    if found.Some? {
      IndexPairHolds(index, b[found.value], d);
    }
  }

  /** The indexes of `a` are reported one after the other. */
  lemma {:induction false} IndexesInOrder(a: seq<IndexSpec>, b: seq<IndexSpec>, founds: seq<Option<nat>>, n: nat)
    requires n <= |a| == |founds|
    requires forall i :: 0 <= i < |a| && founds[i].Some? ==> founds[i].value < |b|
    ensures IndexReports(a, b, founds, n) ==
            Grouping.Concat(seq(n, i requires 0 <= i < n => IndexReport(b, a[i], founds[i])))
  {
    hide IndexReport;
    var reports := seq(n, i requires 0 <= i < n => IndexReport(b, a[i], founds[i]));
    if n == 0 {
      assert reports == [];
    } else {
      IndexesInOrder(a, b, founds, n - 1);
      var before := seq(n - 1, i requires 0 <= i < n - 1 => IndexReport(b, a[i], founds[i]));
      Grouping.ConcatOne(before, IndexReport(b, a[n - 1], founds[n - 1]));
      assert reports == before + [IndexReport(b, a[n - 1], founds[n - 1])];
    }
  }

  ghost predicate IndexSectionHas(a: TableSpec, b: TableSpec, d: Diff) {
    || (Indexes in a.captured && Indexes in b.captured && IndexesHave(a.indexes, b.indexes, d))
    || OneSided(a, b, Indexes, IndexUnconfirmed, d)
  }

  lemma IndexSectionHolds(a: TableSpec, b: TableSpec, d: Diff)
    requires Indexes in a.captured ==> Unrepeated(IndexNames(a.indexes))
    requires Indexes in b.captured ==> Unrepeated(IndexNames(b.indexes))
    ensures d in IndexSection(a, b) <==> IndexSectionHas(a, b, d)
  {
    hide IndexListDiffs, IndexesHave, When, OneSided;
    OneSidedHolds(a, b, Indexes, IndexUnconfirmed, d);
    if Indexes in a.captured && Indexes in b.captured {
      IndexesHold(a.indexes, b.indexes, d);
    }
  }

  // ---------------------------------------------------------------------------
  // Constraints, distinct names or not.

  predicate ConstraintPairHas(a: ConstraintSpec, b: ConstraintSpec, d: Diff) {
    || (a.kind != b.kind &&
        d == AboutObject(ConstraintKindMismatch, SideBoth, a.name, OfKind(a.kind), OfKind(b.kind)))
    || (a.kind == b.kind == ConstraintUnknown &&
        d == AboutObject(ConstraintKindUnconfirmed, SideBoth, a.name, Nothing, Nothing))
    || (a.kind == b.kind == Check && a.checkClause != b.checkClause &&
        d == AboutObject(CheckClauseMismatch, SideBoth, a.name, Text(a.checkClause), Text(b.checkClause)))
    || (a.kind == b.kind == Check && a.enforced != b.enforced &&
        d == AboutObject(CheckEnforcementMismatch, SideBoth, a.name, Flag(a.enforced), Flag(b.enforced)))
    || (a.kind == b.kind == ForeignKey && ForeignKeyPairHas(a, b, d))
  }

  predicate ForeignKeyPairHas(a: ConstraintSpec, b: ConstraintSpec, d: Diff) {
    || (a.columns != b.columns &&
        d == AboutObject(ForeignKeyColumnsMismatch, SideBoth, a.name, Names(a.columns), Names(b.columns)))
    || ((a.refSchema != b.refSchema || a.refTable != b.refTable || a.refColumns != b.refColumns) &&
        d == AboutObject(ForeignKeyReferenceMismatch, SideBoth, a.name,
                         Reference(a.refSchema, a.refTable, a.refColumns),
                         Reference(b.refSchema, b.refTable, b.refColumns)))
    || ((a.updateRule != b.updateRule || a.deleteRule != b.deleteRule) &&
        d == AboutObject(ForeignKeyRuleMismatch, SideBoth, a.name,
                         Rules(a.updateRule, a.deleteRule), Rules(b.updateRule, b.deleteRule)))
  }

  lemma ForeignKeyPairHolds(a: ConstraintSpec, b: ConstraintSpec, d: Diff)
    requires a.kind == b.kind == ForeignKey
    ensures d in ConstraintPairDiffs(a, b) <==> ForeignKeyPairHas(a, b, d)
  {
    hide When;
    WhenHolds(a.columns != b.columns,
              ObjectDiff(ForeignKeyColumnsMismatch, SideBoth, a.name, Names(a.columns), Names(b.columns)), d);
    WhenHolds(a.refSchema != b.refSchema || a.refTable != b.refTable || a.refColumns != b.refColumns,
              ObjectDiff(ForeignKeyReferenceMismatch, SideBoth, a.name,
                         Reference(a.refSchema, a.refTable, a.refColumns),
                         Reference(b.refSchema, b.refTable, b.refColumns)), d);
    WhenHolds(a.updateRule != b.updateRule || a.deleteRule != b.deleteRule,
              ObjectDiff(ForeignKeyRuleMismatch, SideBoth, a.name,
                         Rules(a.updateRule, a.deleteRule), Rules(b.updateRule, b.deleteRule)), d);
  }

  lemma CheckPairHolds(a: ConstraintSpec, b: ConstraintSpec, d: Diff)
    requires a.kind == b.kind == Check
    ensures d in ConstraintPairDiffs(a, b) <==> ConstraintPairHas(a, b, d)
  {
    hide When;
    WhenHolds(a.checkClause != b.checkClause,
              ObjectDiff(CheckClauseMismatch, SideBoth, a.name, Text(a.checkClause), Text(b.checkClause)), d);
    WhenHolds(a.enforced != b.enforced,
              ObjectDiff(CheckEnforcementMismatch, SideBoth, a.name, Flag(a.enforced), Flag(b.enforced)), d);
  }

  lemma ConstraintPairHolds(a: ConstraintSpec, b: ConstraintSpec, d: Diff)
    ensures d in ConstraintPairDiffs(a, b) <==> ConstraintPairHas(a, b, d)
  {
    hide When, ForeignKeyPairHas;
    if a.kind == b.kind == ForeignKey {
      ForeignKeyPairHolds(a, b, d);
    } else if a.kind == b.kind == Check {
      CheckPairHolds(a, b, d);
    }
  }

  /** The last constraint of `b` with the name stands for all of them. */
  ghost predicate ConstraintHas(a: seq<ConstraintSpec>, b: seq<ConstraintSpec>, i: nat, d: Diff)
    requires i < |a|
  {
    || (exists j :: 0 <= j < |b| && a[i].name == b[j].name &&
          (forall k :: j < k < |b| ==> b[k].name != b[j].name) && ConstraintPairHas(a[i], b[j], d))
    || ((forall j :: 0 <= j < |b| ==> b[j].name != a[i].name) &&
        d == AboutObject(ConstraintAbsent, SideB, a[i].name, Nothing, Nothing))
  }

  ghost predicate OnlyInSecond(a: seq<ConstraintSpec>, b: seq<ConstraintSpec>, j: nat, d: Diff)
    requires j < |b|
  {
    && (forall i :: 0 <= i < |a| ==> a[i].name != b[j].name)
    && d == AboutObject(ConstraintAbsent, SideA, b[j].name, Nothing, Nothing)
  }

  ghost predicate ConstraintsHave(a: seq<ConstraintSpec>, b: seq<ConstraintSpec>, d: Diff) {
    || (exists i: nat :: i < |a| && ConstraintHas(a, b, i, d))
    || (exists j: nat :: j < |b| && OnlyInSecond(a, b, j, d))
  }

  lemma {:induction false} ConstraintReportsHold(a: seq<ConstraintSpec>, b: seq<ConstraintSpec>, n: nat, d: Diff)
    requires n <= |a|
    ensures d in ConstraintReports(a, b, n) <==> exists i: nat :: i < n && d in ConstraintReport(a, b, i)
  {
    hide ConstraintReport;
    if n == 0 {
      assert ConstraintReports(a, b, n) == [];
    } else {
      ConstraintReportsHold(a, b, n - 1, d);
    }
  }

  lemma {:induction false} AbsentConstraintsHold(a: seq<ConstraintSpec>, b: seq<ConstraintSpec>, n: nat, d: Diff)
    requires n <= |b|
    ensures d in ConstraintsAbsentFromA(a, b, n) <==> exists j: nat :: j < n && OnlyInSecond(a, b, j, d)
  {
    hide When, AboutObject, ObjectDiff, OnlyInSecond;
    if n == 0 {
      assert ConstraintsAbsentFromA(a, b, n) == [];
    } else {
      AbsentConstraintsHold(a, b, n - 1, d);
      OnlyInSecondHolds(a, b, n - 1, d);
    }
  }

  lemma OnlyInSecondHolds(a: seq<ConstraintSpec>, b: seq<ConstraintSpec>, j: nat, d: Diff)
    requires j < |b|
    ensures var absent := ObjectDiff(ConstraintAbsent, SideA, b[j].name, Nothing, Nothing);
            d in When(b[j].name !in ConstraintNames(a), absent) <==> OnlyInSecond(a, b, j, d)
  {
    WhenHolds(b[j].name !in ConstraintNames(a), ObjectDiff(ConstraintAbsent, SideA, b[j].name, Nothing, Nothing), d);
    assert forall i :: 0 <= i < |a| ==> ConstraintNames(a)[i] == a[i].name;
  }

  lemma ConstraintReportHolds(a: seq<ConstraintSpec>, b: seq<ConstraintSpec>, i: nat, d: Diff)
    requires i < |a|
    ensures d in ConstraintReport(a, b, i) <==> ConstraintHas(a, b, i, d)
  {
    hide ConstraintPairDiffs, ConstraintPairHas, ObjectDiff, AboutObject;
    var names := ConstraintNames(b);
    if a[i].name in names {
      var last := Last(names, a[i].name);
      ConstraintPairHolds(a[i], b[last], d);
      assert forall k :: last < k < |b| ==> names[k] == b[k].name;
      forall j | 0 <= j < |b| && a[i].name == b[j].name && (forall k :: j < k < |b| ==> b[k].name != b[j].name)
        ensures j == last
      {
        assert names[j] == a[i].name && names[last] == b[last].name;
      }
    } else {
      ObjectIs(ConstraintAbsent, SideB, a[i].name, Nothing, Nothing);
      assert forall j :: 0 <= j < |b| ==> names[j] == b[j].name;
    }
  }

  lemma ConstraintsHold(a: seq<ConstraintSpec>, b: seq<ConstraintSpec>, d: Diff)
    ensures d in ConstraintListDiffs(a, b) <==> ConstraintsHave(a, b, d)
  {
    hide ConstraintReport, ConstraintReports, ConstraintsAbsentFromA, ConstraintHas, OnlyInSecond;
    ConstraintReportsHold(a, b, |a|, d);
    AbsentConstraintsHold(a, b, |b|, d);
    EitherHolds(ConstraintReports(a, b, |a|), ConstraintsAbsentFromA(a, b, |b|), d);
    forall i: nat | i < |a|
      ensures d in ConstraintReport(a, b, i) <==> ConstraintHas(a, b, i, d)
    {
      ConstraintReportHolds(a, b, i, d);
    }
  }

  /** The constraints of `a` are reported one after the other. */
  lemma {:induction false} ConstraintsInOrder(a: seq<ConstraintSpec>, b: seq<ConstraintSpec>, n: nat)
    requires n <= |a|
    ensures ConstraintReports(a, b, n) ==
            Grouping.Concat(seq(n, i requires 0 <= i < n => ConstraintReport(a, b, i)))
  {
    hide ConstraintReport;
    var reports := seq(n, i requires 0 <= i < n => ConstraintReport(a, b, i));
    if n == 0 {
      assert reports == [];
    } else {
      ConstraintsInOrder(a, b, n - 1);
      var before := seq(n - 1, i requires 0 <= i < n - 1 => ConstraintReport(a, b, i));
      Grouping.ConcatOne(before, ConstraintReport(a, b, n - 1));
      assert reports == before + [ConstraintReport(a, b, n - 1)];
    }
  }

  ghost predicate ConstraintSectionHas(a: TableSpec, b: TableSpec, d: Diff) {
    || (Constraints in a.captured && Constraints in b.captured && ConstraintsHave(a.constraints, b.constraints, d))
    || OneSided(a, b, Constraints, ConstraintUnconfirmed, d)
  }

  lemma ConstraintSectionHolds(a: TableSpec, b: TableSpec, d: Diff)
    ensures d in ConstraintSection(a, b) <==> ConstraintSectionHas(a, b, d)
  {
    hide ConstraintListDiffs, ConstraintsHave, When, OneSided;
    OneSidedHolds(a, b, Constraints, ConstraintUnconfirmed, d);
    if Constraints in a.captured && Constraints in b.captured {
      ConstraintsHold(a.constraints, b.constraints, d);
    }
  }

  // ---------------------------------------------------------------------------
  // The whole comparison.

  /** A comparison holds exactly the differences described above. */
  lemma ComparisonHolds(a: TableSpec, b: TableSpec, diffs: seq<Diff>, d: Diff)
    requires IsComparison(a, b, diffs)
    requires Unrepeated(ColumnNames(a.columns)) && Unrepeated(ColumnNames(b.columns))
    requires Indexes in a.captured ==> Unrepeated(IndexNames(a.indexes))
    requires Indexes in b.captured ==> Unrepeated(IndexNames(b.indexes))
    ensures d in diffs <==>
            || TableLevelHas(a, b, d) || ColumnsHave(a.columns, b.columns, d)
            || IndexSectionHas(a, b, d) || ConstraintSectionHas(a, b, d)
  {
    hide TableLevelDiffs, IndexSection, ConstraintSection, IsColumnSection;
    hide TableLevelHas, ColumnsHave, IndexSectionHas, ConstraintSectionHas;
    var columns: seq<Diff> :| IsColumnSection(a.columns, b.columns, columns) &&
      diffs == TableLevelDiffs(a, b) + columns + IndexSection(a, b) + ConstraintSection(a, b);
    TableLevelHolds(a, b, d);
    ColumnsHold(a.columns, b.columns, columns, d);
    IndexSectionHolds(a, b, d);
    ConstraintSectionHolds(a, b, d);
    EitherHolds(TableLevelDiffs(a, b), columns, d);
    EitherHolds(TableLevelDiffs(a, b) + columns, IndexSection(a, b), d);
    EitherHolds(TableLevelDiffs(a, b) + columns + IndexSection(a, b), ConstraintSection(a, b), d);
  }

  /** What only `b` has is reported in `b`'s order. */
  lemma {:induction false} AbsentIndexesInOrder(b: seq<IndexSpec>, taken: set<nat>, n: nat, p: nat, q: nat)
    requires n <= |b| && p < q < |AbsentIndexes(b, taken, n)|
    ensures exists i, j :: 0 <= i < j < n && AbsentIndexes(b, taken, n)[p].index == b[i].name &&
              AbsentIndexes(b, taken, n)[q].index == b[j].name
  {
    var before := AbsentIndexes(b, taken, n - 1);
    if q < |before| {
      AbsentIndexesInOrder(b, taken, n - 1, p, q);
    } else {
      AbsentIndexesHold(b, taken, n - 1, before[p]);
    }
  }

  lemma {:induction false} AbsentConstraintsInOrder(a: seq<ConstraintSpec>, b: seq<ConstraintSpec>, n: nat, p: nat,
                                                    q: nat)
    requires n <= |b| && p < q < |ConstraintsAbsentFromA(a, b, n)|
    ensures exists i, j :: 0 <= i < j < n && ConstraintsAbsentFromA(a, b, n)[p].index == b[i].name &&
              ConstraintsAbsentFromA(a, b, n)[q].index == b[j].name
  {
    var before := ConstraintsAbsentFromA(a, b, n - 1);
    if q < |before| {
      AbsentConstraintsInOrder(a, b, n - 1, p, q);
    } else {
      AbsentConstraintsHold(a, b, n - 1, before[p]);
      assert ConstraintsAbsentFromA(a, b, n)[p] == before[p];
    }
  }

  // ---------------------------------------------------------------------------
  // Nothing is said twice.

  /** No difference is repeated, and all are of these kinds. */
  ghost predicate Emits(diffs: seq<Diff>, kinds: set<Kind>) {
    Unrepeated(diffs) && forall d :: d in diffs ==> d.kind in kinds
  }

  lemma EmitsWhen(condition: bool, diff: Diff, kind: Kind)
    requires diff.kind == kind
    ensures Emits(When(condition, diff), {kind})
  {
  }

  lemma EmitsBoth(left: seq<Diff>, kinds: set<Kind>, right: seq<Diff>, others: set<Kind>)
    requires Emits(left, kinds) && Emits(right, others) && kinds !! others
    ensures Emits(left + right, kinds + others)
  {
    UnrepeatedAppend(left, right);
  }

  const TABLE_KINDS := {EngineMismatch, CharsetMismatch, CollationMismatch, CommentMismatch, CommentUnconfirmed}

  lemma TableLevelUnrepeated(a: TableSpec, b: TableSpec)
    ensures Emits(TableLevelDiffs(a, b), TABLE_KINDS)
  {
    var (side, both) := SectionAgreement(a, b, Comment);
    var engine := When(a.engine != b.engine, TableDiff(EngineMismatch, SideBoth, Text(a.engine), Text(b.engine)));
    var charset := When(a.charset != b.charset,
                        TableDiff(CharsetMismatch, SideBoth, Text(a.charset), Text(b.charset)));
    var collation := When(a.collation != b.collation,
                          TableDiff(CollationMismatch, SideBoth, Text(a.collation), Text(b.collation)));
    var comment := if both && a.comment != b.comment
    then [TableDiff(CommentMismatch, SideBoth, Text(a.comment), Text(b.comment))]
    else When(side != NoSide, TableDiff(CommentUnconfirmed, side, Nothing, Nothing));
    assert TableLevelDiffs(a, b) == engine + charset + collation + comment;
    assert Emits(comment, {CommentMismatch, CommentUnconfirmed});
    EmitsWhen(a.engine != b.engine,
              TableDiff(EngineMismatch, SideBoth, Text(a.engine), Text(b.engine)), EngineMismatch);
    EmitsWhen(a.charset != b.charset,
              TableDiff(CharsetMismatch, SideBoth, Text(a.charset), Text(b.charset)), CharsetMismatch);
    EmitsWhen(a.collation != b.collation,
              TableDiff(CollationMismatch, SideBoth, Text(a.collation), Text(b.collation)), CollationMismatch);
    hide Emits, When;
    EmitsBoth(engine, {EngineMismatch}, charset, {CharsetMismatch});
    EmitsBoth(engine + charset, {EngineMismatch} + {CharsetMismatch}, collation, {CollationMismatch});
    EmitsBoth(engine + charset + collation, {EngineMismatch} + {CharsetMismatch} + {CollationMismatch},
              comment, {CommentMismatch, CommentUnconfirmed});
    assert {EngineMismatch} + {CharsetMismatch} + {CollationMismatch} + {CommentMismatch, CommentUnconfirmed} ==
           TABLE_KINDS;
  }

  lemma IndexPairUnrepeated(a: IndexSpec, b: IndexSpec)
    ensures Emits(IndexPairDiffs(a, b), INDEX_PAIR_KINDS)
    ensures forall d :: d in IndexPairDiffs(a, b) ==> d.index == a.name
  {
    hide SameParts, IndexPairDiffs, PartsMatch;
    var name := ObjectDiff(IndexNameCaseMismatch, SideBoth, a.name, Text(a.name), Text(b.name));
    var parts := ObjectDiff(IndexPartsMismatch, SideBoth, a.name, Parts(a.parts), Parts(b.parts));
    var unique := ObjectDiff(IndexUniquenessMismatch, SideBoth, a.name, Flag(a.unique), Flag(b.unique));
    var indexType := ObjectDiff(IndexTypeMismatch, SideBoth, a.name, Text(a.indexType), Text(b.indexType));
    var visible := ObjectDiff(IndexVisibilityMismatch, SideBoth, a.name, Flag(a.visible), Flag(b.visible));
    IndexPairInOrder(a, b);
    FiveEmitted(a.name != b.name, name, !SameParts(a.parts, b.parts), parts, a.unique != b.unique, unique,
                a.indexType != b.indexType, indexType, a.visible != b.visible, visible);
    forall d | d in IndexPairDiffs(a, b)
      ensures d.index == a.name
    {
      IndexPairHolds(a, b, d);
    }
  }

  lemma FiveEmitted(c: bool, d: Diff, c1: bool, d1: Diff, c2: bool, d2: Diff, c3: bool, d3: Diff, c4: bool, d4: Diff)
    requires d.kind == IndexNameCaseMismatch && d1.kind == IndexPartsMismatch && d2.kind == IndexUniquenessMismatch
    requires d3.kind == IndexTypeMismatch && d4.kind == IndexVisibilityMismatch
    ensures Emits(When(c, d) + When(c1, d1) + When(c2, d2) + When(c3, d3) + When(c4, d4), INDEX_PAIR_KINDS)
  {
    hide Emits, When;
    EmitsWhen(c, d, IndexNameCaseMismatch);
    EmitsWhen(c1, d1, IndexPartsMismatch);
    EmitsWhen(c2, d2, IndexUniquenessMismatch);
    EmitsWhen(c3, d3, IndexTypeMismatch);
    EmitsWhen(c4, d4, IndexVisibilityMismatch);
    var kinds := {IndexNameCaseMismatch} + {IndexPartsMismatch};
    EmitsBoth(When(c, d), {IndexNameCaseMismatch}, When(c1, d1), {IndexPartsMismatch});
    EmitsBoth(When(c, d) + When(c1, d1), kinds, When(c2, d2), {IndexUniquenessMismatch});
    kinds := kinds + {IndexUniquenessMismatch};
    EmitsBoth(When(c, d) + When(c1, d1) + When(c2, d2), kinds, When(c3, d3), {IndexTypeMismatch});
    kinds := kinds + {IndexTypeMismatch};
    EmitsBoth(When(c, d) + When(c1, d1) + When(c2, d2) + When(c3, d3), kinds, When(c4, d4),
              {IndexVisibilityMismatch});
    assert kinds + {IndexVisibilityMismatch} == INDEX_PAIR_KINDS;
  }

  const INDEX_PAIR_KINDS := {IndexNameCaseMismatch, IndexPartsMismatch, IndexUniquenessMismatch, IndexTypeMismatch,
                             IndexVisibilityMismatch}

  lemma {:induction false} IndexReportsUnrepeated(a: seq<IndexSpec>, b: seq<IndexSpec>, founds: seq<Option<nat>>,
                                                  n: nat)
    requires n <= |a| == |founds| && Unrepeated(IndexNames(a))
    requires forall i :: 0 <= i < |a| && founds[i].Some? ==> founds[i].value < |b|
    ensures Unrepeated(IndexReports(a, b, founds, n))
    ensures forall d :: d in IndexReports(a, b, founds, n) ==> d.index in IndexNames(a)[..n]
    ensures forall d :: d in IndexReports(a, b, founds, n) ==>
              d.kind in INDEX_PAIR_KINDS || (d.kind == IndexAbsent && d.side == SideB)
  {
    hide IndexReport;
    if n == 0 {
      assert IndexReports(a, b, founds, n) == [];
    } else {
      IndexReportsUnrepeated(a, b, founds, n - 1);
      IndexReportUnrepeated(b, a[n - 1], founds[n - 1]);
      var names := IndexNames(a);
      assert names[..n] == names[..n - 1] + [a[n - 1].name] && names[n - 1] !in names[..n - 1];
      UnrepeatedAppend(IndexReports(a, b, founds, n - 1), IndexReport(b, a[n - 1], founds[n - 1]));
    }
  }

  lemma IndexReportUnrepeated(b: seq<IndexSpec>, index: IndexSpec, found: Option<nat>)
    requires found.Some? ==> found.value < |b|
    ensures Unrepeated(IndexReport(b, index, found))
    ensures forall d :: d in IndexReport(b, index, found) ==>
              d.index == index.name && (d.kind in INDEX_PAIR_KINDS || (d.kind == IndexAbsent && d.side == SideB))
  {
    hide IndexPairDiffs;
    if found.Some? {
      IndexPairUnrepeated(index, b[found.value]);
    }
  }

  lemma {:induction false} AbsentIndexesUnrepeated(b: seq<IndexSpec>, taken: set<nat>, n: nat)
    requires n <= |b| && Unrepeated(IndexNames(b))
    ensures Unrepeated(AbsentIndexes(b, taken, n))
    ensures forall d :: d in AbsentIndexes(b, taken, n) ==>
              d.kind == IndexAbsent && d.side == SideA && d.index in IndexNames(b)[..n]
  {
    if n == 0 {
      assert AbsentIndexes(b, taken, n) == [];
    } else {
      AbsentIndexesUnrepeated(b, taken, n - 1);
      var names := IndexNames(b);
      assert names[..n] == names[..n - 1] + [b[n - 1].name] && names[n - 1] !in names[..n - 1];
    }
  }

  lemma IndexSectionUnrepeated(a: TableSpec, b: TableSpec)
    requires Indexes in a.captured ==> Unrepeated(IndexNames(a.indexes))
    requires Indexes in b.captured ==> Unrepeated(IndexNames(b.indexes))
    ensures Unrepeated(IndexSection(a, b))
    ensures forall d :: d in IndexSection(a, b) ==> d.kind in INDEX_PAIR_KINDS + {IndexAbsent, IndexUnconfirmed}
  {
    hide IndexReports, AbsentIndexes, Taken;
    if Indexes in a.captured && Indexes in b.captured {
      var founds := IndexMatches(a.indexes, b.indexes);
      IndexReportsUnrepeated(a.indexes, b.indexes, founds, |a.indexes|);
      AbsentIndexesUnrepeated(b.indexes, Taken(founds), |b.indexes|);
      UnrepeatedAppend(IndexReports(a.indexes, b.indexes, founds, |a.indexes|),
                       AbsentIndexes(b.indexes, Taken(founds), |b.indexes|));
    }
  }

  const CONSTRAINT_PAIR_KINDS := {ConstraintKindMismatch, ConstraintKindUnconfirmed, CheckClauseMismatch,
                                  CheckEnforcementMismatch, ForeignKeyColumnsMismatch, ForeignKeyReferenceMismatch,
                                  ForeignKeyRuleMismatch}

  lemma ConstraintPairUnrepeated(a: ConstraintSpec, b: ConstraintSpec)
    ensures Unrepeated(ConstraintPairDiffs(a, b))
    ensures forall d :: d in ConstraintPairDiffs(a, b) ==> d.index == a.name && d.kind in CONSTRAINT_PAIR_KINDS
  {
    forall d | d in ConstraintPairDiffs(a, b)
      ensures d.index == a.name && d.kind in CONSTRAINT_PAIR_KINDS
    {
      hide ConstraintPairDiffs;
      ConstraintPairHolds(a, b, d);
    }
    if a.kind == b.kind == ForeignKey {
      ForeignKeyPairUnrepeated(a, b);
    }
  }

  lemma ForeignKeyPairUnrepeated(a: ConstraintSpec, b: ConstraintSpec)
    requires a.kind == b.kind == ForeignKey
    ensures Unrepeated(ConstraintPairDiffs(a, b))
  {
    var columns := ObjectDiff(ForeignKeyColumnsMismatch, SideBoth, a.name, Names(a.columns), Names(b.columns));
    var reference := ObjectDiff(ForeignKeyReferenceMismatch, SideBoth, a.name,
                                Reference(a.refSchema, a.refTable, a.refColumns),
                                Reference(b.refSchema, b.refTable, b.refColumns));
    var rules := ObjectDiff(ForeignKeyRuleMismatch, SideBoth, a.name,
                            Rules(a.updateRule, a.deleteRule), Rules(b.updateRule, b.deleteRule));
    ThreeUnrepeated(a.columns != b.columns, columns,
                    a.refSchema != b.refSchema || a.refTable != b.refTable || a.refColumns != b.refColumns, reference,
                    a.updateRule != b.updateRule || a.deleteRule != b.deleteRule, rules);
  }

  lemma ThreeUnrepeated(p: bool, d: Diff, q: bool, e: Diff, r: bool, f: Diff)
    requires d.kind != e.kind && e.kind != f.kind && d.kind != f.kind
    ensures Unrepeated(When(p, d) + When(q, e) + When(r, f))
  {
    EmitsWhen(p, d, d.kind);
    EmitsWhen(q, e, e.kind);
    EmitsWhen(r, f, f.kind);
    EmitsBoth(When(p, d), {d.kind}, When(q, e), {e.kind});
    EmitsBoth(When(p, d) + When(q, e), {d.kind} + {e.kind}, When(r, f), {f.kind});
  }

  lemma ConstraintReportUnrepeated(a: seq<ConstraintSpec>, b: seq<ConstraintSpec>, i: nat)
    requires i < |a|
    ensures Unrepeated(ConstraintReport(a, b, i))
    ensures forall d :: d in ConstraintReport(a, b, i) ==>
              && d.index == a[i].name
              && (d.kind in CONSTRAINT_PAIR_KINDS || (d.kind == ConstraintAbsent && d.side == SideB))
  {
    hide ConstraintPairDiffs;
    if a[i].name in ConstraintNames(b) {
      ConstraintPairUnrepeated(a[i], b[Last(ConstraintNames(b), a[i].name)]);
    }
  }

  lemma {:induction false} ConstraintReportsUnrepeated(a: seq<ConstraintSpec>, b: seq<ConstraintSpec>, n: nat)
    requires n <= |a| && Unrepeated(ConstraintNames(a))
    ensures Unrepeated(ConstraintReports(a, b, n))
    ensures forall d :: d in ConstraintReports(a, b, n) ==> d.index in ConstraintNames(a)[..n]
    ensures forall d :: d in ConstraintReports(a, b, n) ==>
              d.kind in CONSTRAINT_PAIR_KINDS || (d.kind == ConstraintAbsent && d.side == SideB)
  {
    hide ConstraintReport;
    if n == 0 {
      assert ConstraintReports(a, b, n) == [];
    } else {
      ConstraintReportsUnrepeated(a, b, n - 1);
      ConstraintReportUnrepeated(a, b, n - 1);
      var names := ConstraintNames(a);
      assert names[..n] == names[..n - 1] + [a[n - 1].name] && names[n - 1] !in names[..n - 1];
      UnrepeatedAppend(ConstraintReports(a, b, n - 1), ConstraintReport(a, b, n - 1));
    }
  }

  lemma {:induction false} AbsentConstraintsUnrepeated(a: seq<ConstraintSpec>, b: seq<ConstraintSpec>, n: nat)
    requires n <= |b| && Unrepeated(ConstraintNames(b))
    ensures Unrepeated(ConstraintsAbsentFromA(a, b, n))
    ensures forall d :: d in ConstraintsAbsentFromA(a, b, n) ==>
              d.kind == ConstraintAbsent && d.side == SideA && d.index in ConstraintNames(b)[..n]
  {
    if n == 0 {
      assert ConstraintsAbsentFromA(a, b, n) == [];
    } else {
      AbsentConstraintsUnrepeated(a, b, n - 1);
      var names := ConstraintNames(b);
      assert names[..n] == names[..n - 1] + [b[n - 1].name] && names[n - 1] !in names[..n - 1];
    }
  }

  lemma ConstraintSectionUnrepeated(a: TableSpec, b: TableSpec)
    requires Constraints in a.captured ==> Unrepeated(ConstraintNames(a.constraints))
    requires Constraints in b.captured ==> Unrepeated(ConstraintNames(b.constraints))
    ensures Unrepeated(ConstraintSection(a, b))
    ensures forall d :: d in ConstraintSection(a, b) ==>
              d.kind in CONSTRAINT_PAIR_KINDS + {ConstraintAbsent, ConstraintUnconfirmed}
  {
    hide ConstraintReports, ConstraintsAbsentFromA;
    if Constraints in a.captured && Constraints in b.captured {
      ConstraintReportsUnrepeated(a.constraints, b.constraints, |a.constraints|);
      AbsentConstraintsUnrepeated(a.constraints, b.constraints, |b.constraints|);
      UnrepeatedAppend(ConstraintReports(a.constraints, b.constraints, |a.constraints|),
                       ConstraintsAbsentFromA(a.constraints, b.constraints, |b.constraints|));
    }
  }

  lemma PairKinds(a: ColumnSpec, b: ColumnSpec, d: Diff)
    requires d in PairReport(a, b)
    ensures d.kind in COLUMN_KINDS || d.kind == ColumnNameCaseMismatch
  {
    hide DifferingColumns, ColumnDiffers, ColumnDifference;
    DifferingColumnsHold(COLUMN_KINDS, a, b);
  }

  lemma ColumnSectionKinds(a: seq<ColumnSpec>, b: seq<ColumnSpec>, diffs: seq<Diff>)
    requires Unrepeated(ColumnNames(a)) && Unrepeated(ColumnNames(b)) && IsColumnSection(a, b, diffs)
    ensures forall d :: d in diffs ==> d.kind in COLUMN_KINDS || d.kind in {ColumnAbsent, ColumnNameCaseMismatch}
  {
    hide IsColumnSection, Pairs, Alone, PairReport, COLUMN_KINDS;
    forall d | d in diffs
      ensures d.kind in COLUMN_KINDS || d.kind in {ColumnAbsent, ColumnNameCaseMismatch}
    {
      SectionHolds(a, b, diffs, d);
      if i, j :| 0 <= i < |a| && 0 <= j < |b| && Pairs(a, b, i, j) && d in PairReport(a[i], b[j]) {
        PairKinds(a[i], b[j], d);
      }
    }
  }

  /** With distinct names, a comparison says nothing twice. */
  lemma ComparisonUnrepeated(a: TableSpec, b: TableSpec, diffs: seq<Diff>)
    requires IsComparison(a, b, diffs)
    requires Unrepeated(ColumnNames(a.columns)) && Unrepeated(ColumnNames(b.columns))
    requires Indexes in a.captured ==> Unrepeated(IndexNames(a.indexes))
    requires Indexes in b.captured ==> Unrepeated(IndexNames(b.indexes))
    requires Constraints in a.captured ==> Unrepeated(ConstraintNames(a.constraints))
    requires Constraints in b.captured ==> Unrepeated(ConstraintNames(b.constraints))
    ensures Unrepeated(diffs)
  {
    hide TableLevelDiffs, IndexSection, ConstraintSection, IsColumnSection;
    var columns: seq<Diff> :| IsColumnSection(a.columns, b.columns, columns) &&
      diffs == TableLevelDiffs(a, b) + columns + IndexSection(a, b) + ConstraintSection(a, b);
    var table, indexes, constraints := TableLevelDiffs(a, b), IndexSection(a, b), ConstraintSection(a, b);
    TableLevelUnrepeated(a, b);
    SectionUnrepeated(a.columns, b.columns, columns);
    ColumnSectionKinds(a.columns, b.columns, columns);
    IndexSectionUnrepeated(a, b);
    ConstraintSectionUnrepeated(a, b);
    KindsAreApart();
    var columnKinds := set kind | kind in COLUMN_KINDS + [ColumnAbsent, ColumnNameCaseMismatch];
    var indexKinds := INDEX_PAIR_KINDS + {IndexAbsent, IndexUnconfirmed};
    var constraintKinds := CONSTRAINT_PAIR_KINDS + {ConstraintAbsent, ConstraintUnconfirmed};
    assert Emits(columns, columnKinds) && Emits(indexes, indexKinds) && Emits(constraints, constraintKinds);
    hide Emits;
    EmitsBoth(table, TABLE_KINDS, columns, columnKinds);
    EmitsBoth(table + columns, TABLE_KINDS + columnKinds, indexes, indexKinds);
    EmitsBoth(table + columns + indexes, TABLE_KINDS + columnKinds + indexKinds, constraints, constraintKinds);
    EmittedOnce(diffs, TABLE_KINDS + columnKinds + indexKinds + constraintKinds);
  }

  lemma EmittedOnce(diffs: seq<Diff>, kinds: set<Kind>)
    requires Emits(diffs, kinds)
    ensures Unrepeated(diffs)
  {
  }

  /** Which part of a comparison a kind belongs to. */
  function PartOf(kind: Kind): nat {
    match kind
    case EngineMismatch | CharsetMismatch | CollationMismatch | CommentMismatch | CommentUnconfirmed => 0
    case IndexUnconfirmed | IndexAbsent | IndexPartsMismatch | IndexUniquenessMismatch => 2
    case IndexTypeMismatch | IndexVisibilityMismatch | IndexNameCaseMismatch => 2
    case ConstraintUnconfirmed | ConstraintAbsent | ConstraintKindMismatch | ConstraintKindUnconfirmed => 3
    case CheckClauseMismatch | CheckEnforcementMismatch => 3
    case ForeignKeyColumnsMismatch | ForeignKeyReferenceMismatch | ForeignKeyRuleMismatch => 3
    case _ => 1
  }

  lemma ColumnPart()
    ensures forall kind :: kind in COLUMN_KINDS + [ColumnAbsent, ColumnNameCaseMismatch] ==> PartOf(kind) == 1
  {
  }

  lemma IndexPart()
    ensures forall kind :: kind in INDEX_PAIR_KINDS + {IndexAbsent, IndexUnconfirmed} ==> PartOf(kind) == 2
  {
  }

  lemma ConstraintPart()
    ensures forall kind :: kind in CONSTRAINT_PAIR_KINDS + {ConstraintAbsent, ConstraintUnconfirmed} ==>
              PartOf(kind) == 3
  {
  }

  lemma TablePart()
    ensures forall kind :: kind in TABLE_KINDS ==> PartOf(kind) == 0
  {
  }

  lemma KindsAreApart()
    ensures var columnKinds := set kind | kind in COLUMN_KINDS + [ColumnAbsent, ColumnNameCaseMismatch];
            var indexKinds := INDEX_PAIR_KINDS + {IndexAbsent, IndexUnconfirmed};
            var constraintKinds := CONSTRAINT_PAIR_KINDS + {ConstraintAbsent, ConstraintUnconfirmed};
            && TABLE_KINDS !! columnKinds && TABLE_KINDS !! indexKinds && TABLE_KINDS !! constraintKinds
            && columnKinds !! indexKinds && columnKinds !! constraintKinds && indexKinds !! constraintKinds
  {
    hide PartOf, COLUMN_KINDS, TABLE_KINDS, INDEX_PAIR_KINDS, CONSTRAINT_PAIR_KINDS;
    TablePart();
    ColumnPart();
    IndexPart();
    ConstraintPart();
  }
}
