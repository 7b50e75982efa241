/** What an empty comparison means. */
module SpecEquivalence {
  import opened Outcomes
  import opened Lists
  import opened FoldedNames
  import opened SpecDiff

  // ---------------------------------------------------------------------------
  // The part of a specification a comparison can see.

  /** A default's expression flag counts only when there is a default. */
  datatype DefaultShape = NoDefault | DefaultShape(text: string, isExpression: bool)

  function ShapeOfDefault(c: ColumnSpec): DefaultShape {
    if c.default_.None? then NoDefault else DefaultShape(c.default_.value, c.defaultIsExpression)
  }

  datatype ColumnShape = ColumnShape(
    normalizedType: string, nullable: bool, charset: string, collation: string,
    default_: DefaultShape, ordinal: int, invisible: bool, generated: GeneratedKind,
    generationExpr: string, autoIncrement: bool, onUpdate: bool
  )

  function ShapeOfColumn(c: ColumnSpec): ColumnShape {
    ColumnShape(c.normalizedType, c.nullable, c.charset, c.collation,
                ShapeOfDefault(c), c.ordinal, c.invisible, c.generated, c.generationExpr, c.autoIncrement, c.onUpdate)
  }

  /** Key parts up to the case of column names. */
  datatype IndexShape = IndexShape(parts: seq<IndexPart>, unique: bool, indexType: string, visible: bool)

  function ShapeOfPart(p: IndexPart): IndexPart {
    p.(column := FoldKey(p.column))
  }

  function ShapeOfParts(parts: seq<IndexPart>): (shapes: seq<IndexPart>)
    ensures |shapes| == |parts|
    ensures forall i :: 0 <= i < |parts| ==> shapes[i] == ShapeOfPart(parts[i])
  {
    seq(|parts|, i requires 0 <= i < |parts| => ShapeOfPart(parts[i]))
  }

  function ShapeOfIndex(index: IndexSpec): IndexShape {
    IndexShape(ShapeOfParts(index.parts), index.unique, index.indexType, index.visible)
  }

  /** Only the fields that belong to the kind. */
  datatype ConstraintShape =
    | UnknownShape
    | CheckShape(clause: string, enforced: bool)
    | ForeignKeyShape(columns: seq<string>, refSchema: string, refTable: string, refColumns: seq<string>,
                      updateRule: string, deleteRule: string)
    | OtherShape(code: nat)

  function ShapeOfConstraint(c: ConstraintSpec): ConstraintShape {
    match c.kind
    case ConstraintUnknown => UnknownShape
    case Check => CheckShape(c.checkClause, c.enforced)
    case ForeignKey => ForeignKeyShape(c.columns, c.refSchema, c.refTable, c.refColumns, c.updateRule, c.deleteRule)
    case OtherKind(code) => OtherShape(code)
  }

  // ---------------------------------------------------------------------------
  // Pairs.

  predicate SameAttributes(a: ColumnSpec, b: ColumnSpec) {
    && a.normalizedType == b.normalizedType && a.nullable == b.nullable && a.charset == b.charset
    && a.collation == b.collation && SameDefault(a, b) && a.ordinal == b.ordinal && a.invisible == b.invisible
    && a.generated == b.generated && a.generationExpr == b.generationExpr
    && a.autoIncrement == b.autoIncrement && a.onUpdate == b.onUpdate
  }

  ghost predicate NoKindDiffers(a: ColumnSpec, b: ColumnSpec) {
    forall kind :: kind in COLUMN_KINDS ==> !ColumnDiffers(kind, a, b)
  }

  lemma SilentKinds(a: ColumnSpec, b: ColumnSpec)
    requires NoKindDiffers(a, b)
    ensures SameAttributes(a, b)
  {
    hide SameDefault, NoKindDiffers, ColumnDiffers;
    AttributesByKind(a, b);
    KindsInOrder();
    SilentKind(0, a, b);
    SilentKind(1, a, b);
    SilentKind(2, a, b);
    SilentKind(3, a, b);
    SilentKind(4, a, b);
    SilentKind(5, a, b);
    SilentKind(6, a, b);
    SilentKind(7, a, b);
    SilentKind(8, a, b);
    SilentKind(9, a, b);
    SilentKind(10, a, b);
  }

  lemma SilentKind(k: nat, a: ColumnSpec, b: ColumnSpec)
    requires k < |COLUMN_KINDS|
    requires NoKindDiffers(a, b)
    ensures !ColumnDiffers(COLUMN_KINDS[k], a, b)
  {
    hide ColumnDiffers;
    assert COLUMN_KINDS[k] in COLUMN_KINDS;
  }

  lemma SameAttributesAreSilent(a: ColumnSpec, b: ColumnSpec, kind: Kind)
    requires SameAttributes(a, b)
    ensures !ColumnDiffers(kind, a, b)
  {
    hide SameDefault;
  }

  lemma DefaultsCompared(a: ColumnSpec, b: ColumnSpec)
    ensures SameDefault(a, b) <==> ShapeOfDefault(a) == ShapeOfDefault(b)
  {
  }

  /** A matched pair is silent exactly when the two columns have one shape. */
  lemma ColumnPairSilent(a: ColumnSpec, b: ColumnSpec)
    ensures ColumnPairDiffs(a, b) == [] <==> ShapeOfColumn(a) == ShapeOfColumn(b)
  {
    hide ColumnDiffers, DifferingColumns, SameDefault, ShapeOfDefault;
    DifferingColumnsHold(COLUMN_KINDS, a, b);
    DefaultsCompared(a, b);
    if ColumnPairDiffs(a, b) == [] {
      SilentKinds(a, b);
    }
    if SameAttributes(a, b) {
      forall kind
        ensures !ColumnDiffers(kind, a, b)
      {
        SameAttributesAreSilent(a, b, kind);
      }
    }
  }

  lemma IndexPairSilent(a: IndexSpec, b: IndexSpec)
    ensures IndexPairDiffs(a, b) == [] <==> a.name == b.name && ShapeOfIndex(a) == ShapeOfIndex(b)
  {
    var c := IndexPairCandidates(a, b);
    ChosenHolds(c);
    assert IndexPairDiffs(a, b) == [] <==> !c[0].0 && !c[1].0 && !c[2].0 && !c[3].0 && !c[4].0;
    PartsShapes(a.parts, b.parts);
  }

  lemma PartsShapes(a: seq<IndexPart>, b: seq<IndexPart>)
    ensures SameParts(a, b) <==> ShapeOfParts(a) == ShapeOfParts(b)
  {
    if ShapeOfParts(a) == ShapeOfParts(b) {
      assert |a| == |b|;
      forall i | 0 <= i < |a|
        ensures SamePart(a[i], b[i])
      {
        assert ShapeOfPart(a[i]) == ShapeOfParts(a)[i] == ShapeOfParts(b)[i] == ShapeOfPart(b[i]);
      }
    }
    if SameParts(a, b) {
      forall i | 0 <= i < |a|
        ensures ShapeOfParts(a)[i] == ShapeOfParts(b)[i]
      {
        assert SamePart(a[i], b[i]);
      }
    }
  }

  lemma ConstraintPairSilent(a: ConstraintSpec, b: ConstraintSpec)
    ensures ConstraintPairDiffs(a, b) == [] <==>
            ShapeOfConstraint(a) == ShapeOfConstraint(b) && a.kind != ConstraintUnknown
  {
  }

  // ---------------------------------------------------------------------------
  // Lists of named things.

  /** What each name stands for; of equal names the last one counts. */
  function Keyed<V>(names: seq<string>, values: seq<V>): map<string, V>
    requires |names| == |values|
  {
    map name | name in names :: values[Last(names, name)]
  }

  /** One list says nothing the other does not, name by exact name. */
  predicate Within<V(==)>(names: seq<string>, values: seq<V>, names': seq<string>, values': seq<V>)
    requires |names| == |values| && |names'| == |values'|
  {
    forall i :: 0 <= i < |names| ==> names[i] in names' && values[i] == values'[Last(names', names[i])]
  }

  predicate NamesWithin(names: seq<string>, names': seq<string>) {
    forall i :: 0 <= i < |names| ==> names[i] in names'
  }

  lemma LastOfDistinct(names: seq<string>, i: nat)
    requires Unrepeated(names) && i < |names|
    ensures Last(names, names[i]) == i
  {
    assert names[i] in names;
  }

  /** Equal names have equal values. */
  predicate LastsAgree<V(==)>(names: seq<string>, values: seq<V>)
    requires |names| == |values|
  {
    forall i :: 0 <= i < |names| ==> values[i] == values[Last(names, names[i])]
  }

  lemma KeyedByLast<V>(names: seq<string>, values: seq<V>, names': seq<string>, values': seq<V>)
    requires |names| == |values| && |names'| == |values'|
    ensures LastsAgree(names, values) && Keyed(names, values) == Keyed(names', values') <==>
            Within(names, values, names', values') && NamesWithin(names', names)
  {
    var m, m' := Keyed(names, values), Keyed(names', values');
    if LastsAgree(names, values) && m == m' {
      forall i | 0 <= i < |names|
        ensures names[i] in names' && values[i] == values'[Last(names', names[i])]
      {
        assert names[i] in m && names[i] in m';
      }
      forall j | 0 <= j < |names'|
        ensures names'[j] in names
      {
        assert names'[j] in m' && names'[j] in m;
      }
    }
    if Within(names, values, names', values') && NamesWithin(names', names) {
      forall i | 0 <= i < |names|
        ensures values[i] == values[Last(names, names[i])]
      {
        var k := Last(names, names[i]);
        assert names[k] == names[i];
      }
      forall name | name in m
        ensures name in m' && m[name] == m'[name]
      {
        var i := Last(names, name);
        assert names[i] == name;
      }
      forall name | name in m'
        ensures name in m
      {
        var j := Last(names', name);
        assert names'[j] == name;
      }
    }
  }

  lemma KeyedEqual<V>(names: seq<string>, values: seq<V>, names': seq<string>, values': seq<V>)
    requires |names| == |values| && |names'| == |values'| && Unrepeated(names)
    ensures Keyed(names, values) == Keyed(names', values') <==>
            Within(names, values, names', values') && NamesWithin(names', names)
  {
    KeyedByLast(names, values, names', values');
    forall i | 0 <= i < |names|
      ensures values[i] == values[Last(names, names[i])]
    {
      LastOfDistinct(names, i);
    }
  }

  /** Every name was found under its own spelling, and every position of `b` was reached. */
  ghost predicate ExactlyMatched(a: seq<string>, b: seq<string>, founds: seq<Option<nat>>) {
    && founds == Founds(a, b)
    && (forall i :: 0 <= i < |a| ==> founds[i].Some? && b[founds[i].value] == a[i])
    && (forall j: nat :: j < |b| ==> j in Taken(founds))
  }

  lemma ExactMatches(a: seq<string>, b: seq<string>)
    requires Unrepeated(b)
    ensures ExactlyMatched(a, b, Founds(a, b)) <==> NamesWithin(a, b) && NamesWithin(b, a)
    ensures forall i :: 0 <= i < |a| && a[i] in b ==> Founds(a, b)[i] == Some(Last(b, a[i]))
  {
    var founds := Founds(a, b);
    if ExactlyMatched(a, b, founds) {
      forall j | 0 <= j < |b|
        ensures b[j] in a
      {
        assert j in Taken(founds);
        var i :| 0 <= i < |founds| && founds[i] == Some(j);
        assert b[j] == a[i];
      }
    }
    if NamesWithin(a, b) && NamesWithin(b, a) {
      forall j: nat | j < |b|
        ensures j in Taken(founds)
      {
        var i := Last(a, b[j]);
        LastOfDistinct(b, j);
        assert founds[i] == Some(j);
      }
    }
  }

  /** Every name is found under its own spelling with an equal value, and nothing is left over. */
  ghost predicate Silent<V>(a: seq<string>, va: seq<V>, b: seq<string>, vb: seq<V>)
    requires |a| == |va| && |b| == |vb|
  {
    var founds := Founds(a, b);
    && (forall i :: 0 <= i < |a| ==> founds[i].Some? && a[i] == b[founds[i].value] && va[i] == vb[founds[i].value])
    && (forall j: nat :: j < |b| ==> j in Taken(founds))
  }

  lemma SilentMeansSameKeys<V>(a: seq<string>, va: seq<V>, b: seq<string>, vb: seq<V>)
    requires |a| == |va| && |b| == |vb| && Unrepeated(a) && Unrepeated(b)
    ensures Silent(a, va, b, vb) <==> Keyed(a, va) == Keyed(b, vb)
  {
    hide Find, Taken, Keyed;
    var founds := Founds(a, b);
    KeyedEqual(a, va, b, vb);
    ExactMatches(a, b);
    if Silent(a, va, b, vb) {
      assert ExactlyMatched(a, b, founds);
      forall i | 0 <= i < |a|
        ensures a[i] in b && va[i] == vb[Last(b, a[i])]
      {
        assert founds[i] == Some(Last(b, a[i]));
      }
    }
    if Within(a, va, b, vb) && NamesWithin(b, a) {
      assert NamesWithin(a, b);
    }
  }

  /** Nothing lies outside exactly when everything is taken. */
  lemma OutsideEmpty(n: nat, taken: set<nat>)
    ensures Outside(n, taken) == [] <==> forall j: nat :: j < n ==> j in taken
  {
    if exists j: nat :: j < n && j !in taken {
      var j: nat :| j < n && j !in taken;
      assert j in Outside(n, taken);
    }
    if Outside(n, taken) != [] {
      assert Outside(n, taken)[0] in Outside(n, taken);
    }
  }

  // ---------------------------------------------------------------------------
  // Columns.

  function ColumnShapes(columns: seq<ColumnSpec>): (shapes: seq<ColumnShape>)
    ensures |shapes| == |columns|
    ensures forall i :: 0 <= i < |shapes| ==> shapes[i] == ShapeOfColumn(columns[i])
  {
    seq(|columns|, i requires 0 <= i < |columns| => ShapeOfColumn(columns[i]))
  }

  lemma {:induction false} ColumnReportsSilent(a: seq<ColumnSpec>, b: seq<ColumnSpec>, founds: seq<Option<nat>>, n: nat)
    requires n <= |a| == |founds|
    requires forall i :: 0 <= i < |a| && founds[i].Some? ==> founds[i].value < |b|
    ensures ColumnReports(a, b, founds, n) == [] <==>
            forall i :: 0 <= i < n ==>
              founds[i].Some? && a[i].name == b[founds[i].value].name &&
              ShapeOfColumn(a[i]) == ShapeOfColumn(b[founds[i].value])
  {
    hide ColumnReport;
    if n == 0 {
    } else {
      ColumnReportsSilent(a, b, founds, n - 1);
      ColumnReportSilent(b, a[n - 1], founds[n - 1]);
    }
  }

  lemma ColumnReportSilent(b: seq<ColumnSpec>, column: ColumnSpec, found: Option<nat>)
    requires found.Some? ==> found.value < |b|
    ensures ColumnReport(b, column, found) == [] <==>
            found.Some? && column.name == b[found.value].name && ShapeOfColumn(column) == ShapeOfColumn(b[found.value])
  {
    hide ColumnPairDiffs;
    if found.Some? {
      ColumnPairSilent(column, b[found.value]);
    }
  }

  /** The column section is empty exactly when the same names have the same attributes. */
  lemma ColumnSectionSilent(a: seq<ColumnSpec>, b: seq<ColumnSpec>, diffs: seq<Diff>)
    requires Unrepeated(ColumnNames(a)) && Unrepeated(ColumnNames(b))
    requires IsColumnSection(a, b, diffs)
    ensures diffs == [] <==> Keyed(ColumnNames(a), ColumnShapes(a)) == Keyed(ColumnNames(b), ColumnShapes(b))
  {
    hide ColumnReport, ColumnReports, Find, Keyed, ShapeOfColumn, Outside, Taken;
    var founds := ColumnMatches(a, b);
    var positions: seq<nat> :| IsTail(a, b, positions) &&
      diffs == ColumnReports(a, b, founds, |a|) + AbsentFromA(b, positions);
    ColumnReportsSilent(a, b, founds, |a|);
    OutsideEmpty(|b|, Taken(founds));
    assert |positions| == |multiset(positions)| == |multiset(OnlyInB(a, b))| == |OnlyInB(a, b)|;
    SilentMeansSameKeys(ColumnNames(a), ColumnShapes(a), ColumnNames(b), ColumnShapes(b));
  }

  // ---------------------------------------------------------------------------
  // Indexes.

  function IndexShapes(indexes: seq<IndexSpec>): (shapes: seq<IndexShape>)
    ensures |shapes| == |indexes|
    ensures forall i :: 0 <= i < |shapes| ==> shapes[i] == ShapeOfIndex(indexes[i])
  {
    seq(|indexes|, i requires 0 <= i < |indexes| => ShapeOfIndex(indexes[i]))
  }

  lemma {:induction false} IndexReportsSilent(a: seq<IndexSpec>, b: seq<IndexSpec>, founds: seq<Option<nat>>, n: nat)
    requires n <= |a| == |founds|
    requires forall i :: 0 <= i < |a| && founds[i].Some? ==> founds[i].value < |b|
    ensures IndexReports(a, b, founds, n) == [] <==>
            forall i :: 0 <= i < n ==>
              founds[i].Some? && a[i].name == b[founds[i].value].name &&
              ShapeOfIndex(a[i]) == ShapeOfIndex(b[founds[i].value])
  {
    hide IndexReport;
    if n == 0 {
    } else {
      IndexReportsSilent(a, b, founds, n - 1);
      IndexReportSilent(b, a[n - 1], founds[n - 1]);
    }
  }

  lemma IndexReportSilent(b: seq<IndexSpec>, index: IndexSpec, found: Option<nat>)
    requires found.Some? ==> found.value < |b|
    ensures IndexReport(b, index, found) == [] <==>
            found.Some? && index.name == b[found.value].name && ShapeOfIndex(index) == ShapeOfIndex(b[found.value])
  {
    hide IndexPairDiffs;
    if found.Some? {
      IndexPairSilent(index, b[found.value]);
    }
  }

  lemma {:induction false} AbsentIndexesSilent(b: seq<IndexSpec>, taken: set<nat>, n: nat)
    requires n <= |b|
    ensures AbsentIndexes(b, taken, n) == [] <==> forall j: nat :: j < n ==> j in taken
  {
    hide AbsentIndexes;
    if n > 0 {
      AbsentIndexesSilent(b, taken, n - 1);
      AbsentIndexNext(b, taken, n);
    } else {
      AbsentIndexesOfNone(b, taken);
    }
  }

  lemma AbsentIndexesOfNone(b: seq<IndexSpec>, taken: set<nat>)
    ensures AbsentIndexes(b, taken, 0) == []
  {
  }

  lemma AbsentIndexNext(b: seq<IndexSpec>, taken: set<nat>, n: nat)
    requires 0 < n <= |b|
    ensures AbsentIndexes(b, taken, n) == [] <==> AbsentIndexes(b, taken, n - 1) == [] && n - 1 in taken
  {
    hide ObjectDiff;
  }

  lemma IndexListSilent(a: seq<IndexSpec>, b: seq<IndexSpec>)
    requires Unrepeated(IndexNames(a)) && Unrepeated(IndexNames(b))
    ensures IndexListDiffs(a, b) == [] <==> Keyed(IndexNames(a), IndexShapes(a)) == Keyed(IndexNames(b), IndexShapes(b))
  {
    hide IndexReport, IndexReports, AbsentIndexes, Find, Keyed, ShapeOfIndex, Taken;
    var founds := IndexMatches(a, b);
    IndexReportsSilent(a, b, founds, |a|);
    AbsentIndexesSilent(b, Taken(founds), |b|);
    SilentMeansSameKeys(IndexNames(a), IndexShapes(a), IndexNames(b), IndexShapes(b));
  }

  // ---------------------------------------------------------------------------
  // Constraints. Names need not be distinct: a CHECK and a foreign key may share one.

  function ConstraintShapes(constraints: seq<ConstraintSpec>): (shapes: seq<ConstraintShape>)
    ensures |shapes| == |constraints|
    ensures forall i :: 0 <= i < |shapes| ==> shapes[i] == ShapeOfConstraint(constraints[i])
  {
    seq(|constraints|, i requires 0 <= i < |constraints| => ShapeOfConstraint(constraints[i]))
  }

  predicate AllKnown(constraints: seq<ConstraintSpec>) {
    forall i :: 0 <= i < |constraints| ==> constraints[i].kind != ConstraintUnknown
  }

  lemma {:induction false} ConstraintReportsSilent(a: seq<ConstraintSpec>, b: seq<ConstraintSpec>, n: nat)
    requires n <= |a|
    ensures ConstraintReports(a, b, n) == [] <==>
            forall i :: 0 <= i < n ==>
              && a[i].name in ConstraintNames(b) && a[i].kind != ConstraintUnknown
              && ShapeOfConstraint(a[i]) == ShapeOfConstraint(b[Last(ConstraintNames(b), a[i].name)])
  {
    hide ConstraintReport, ShapeOfConstraint;
    if n == 0 {
    } else {
      ConstraintReportsSilent(a, b, n - 1);
      ConstraintReportSilent(a, b, n - 1);
    }
  }

  lemma ConstraintReportSilent(a: seq<ConstraintSpec>, b: seq<ConstraintSpec>, i: nat)
    requires i < |a|
    ensures ConstraintReport(a, b, i) == [] <==>
            && a[i].name in ConstraintNames(b) && a[i].kind != ConstraintUnknown
            && ShapeOfConstraint(a[i]) == ShapeOfConstraint(b[Last(ConstraintNames(b), a[i].name)])
  {
    hide ConstraintPairDiffs, ShapeOfConstraint;
    if a[i].name in ConstraintNames(b) {
      ConstraintPairSilent(a[i], b[Last(ConstraintNames(b), a[i].name)]);
    }
  }

  lemma {:induction false} ConstraintsAbsentSilent(a: seq<ConstraintSpec>, b: seq<ConstraintSpec>, n: nat)
    requires n <= |b|
    ensures ConstraintsAbsentFromA(a, b, n) == [] <==> forall j :: 0 <= j < n ==> b[j].name in ConstraintNames(a)
  {
    hide ConstraintsAbsentFromA;
    if n == 0 {
      ConstraintsAbsentOfNone(a, b);
    } else {
      ConstraintsAbsentSilent(a, b, n - 1);
      ConstraintAbsentNext(a, b, n);
    }
  }

  lemma ConstraintsAbsentOfNone(a: seq<ConstraintSpec>, b: seq<ConstraintSpec>)
    ensures ConstraintsAbsentFromA(a, b, 0) == []
  {
  }

  lemma ConstraintAbsentNext(a: seq<ConstraintSpec>, b: seq<ConstraintSpec>, n: nat)
    requires 0 < n <= |b|
    ensures ConstraintsAbsentFromA(a, b, n) == [] <==>
            ConstraintsAbsentFromA(a, b, n - 1) == [] && b[n - 1].name in ConstraintNames(a)
  {
    hide ObjectDiff;
  }

  /**
  For any two lists: the section is empty exactly when every constraint of `a` is known and
  looks like the last one of its name in `b`, and `b` has no other names.
  */
  lemma ConstraintListSilent(a: seq<ConstraintSpec>, b: seq<ConstraintSpec>)
    ensures ConstraintListDiffs(a, b) == [] <==>
            && AllKnown(a)
            && Within(ConstraintNames(a), ConstraintShapes(a), ConstraintNames(b), ConstraintShapes(b))
            && NamesWithin(ConstraintNames(b), ConstraintNames(a))
  {
    hide ConstraintPairDiffs, ShapeOfConstraint, ConstraintReport, ConstraintReports, ConstraintsAbsentFromA, Last;
    ConstraintReportsSilent(a, b, |a|);
    ConstraintsAbsentSilent(a, b, |b|);
  }

  /** Constraints of one name all look alike. */
  predicate NamesakesAgree(constraints: seq<ConstraintSpec>) {
    forall i, j :: 0 <= i < |constraints| && 0 <= j < |constraints| && constraints[i].name == constraints[j].name ==>
      ShapeOfConstraint(constraints[i]) == ShapeOfConstraint(constraints[j])
  }

  /** A list compares equal to itself exactly when its namesakes agree and every kind is known. */
  lemma ConstraintsReflexiveExactly(a: seq<ConstraintSpec>)
    ensures ConstraintListDiffs(a, a) == [] <==> AllKnown(a) && NamesakesAgree(a)
  {
    hide ConstraintListDiffs, NamesakesAgree, AllKnown;
    ConstraintListSilentByName(a, a);
  }

  /**
  The same condition by name: every constraint of `a` is known, its namesakes agree, and the
  last of each name looks alike on both sides.
  */
  lemma ConstraintListSilentByName(a: seq<ConstraintSpec>, b: seq<ConstraintSpec>)
    ensures ConstraintListDiffs(a, b) == [] <==>
            && AllKnown(a) && NamesakesAgree(a)
            && Keyed(ConstraintNames(a), ConstraintShapes(a)) == Keyed(ConstraintNames(b), ConstraintShapes(b))
  {
    hide ConstraintListDiffs, ShapeOfConstraint, AllKnown;
    ConstraintListSilent(a, b);
    NamesakesByShape(a);
    KeyedByLast(ConstraintNames(a), ConstraintShapes(a), ConstraintNames(b), ConstraintShapes(b));
  }

  lemma NamesakesByShape(a: seq<ConstraintSpec>)
    ensures NamesakesAgree(a) <==> LastsAgree(ConstraintNames(a), ConstraintShapes(a))
  {
    hide ShapeOfConstraint;
    var names, shapes := ConstraintNames(a), ConstraintShapes(a);
    if LastsAgree(names, shapes) {
      forall i, j | 0 <= i < |a| && 0 <= j < |a| && a[i].name == a[j].name
        ensures ShapeOfConstraint(a[i]) == ShapeOfConstraint(a[j])
      {
        assert names[i] == names[j];
        assert shapes[i] == shapes[Last(names, names[i])] && shapes[j] == shapes[Last(names, names[j])];
      }
    }
    if NamesakesAgree(a) {
      forall i | 0 <= i < |names|
        ensures shapes[i] == shapes[Last(names, names[i])]
      {
        var k := Last(names, names[i]);
        assert a[i].name == a[k].name;
      }
    }
  }

  /** Agreeing namesakes are all known as soon as the last one is. */
  lemma KnownByLast(a: seq<ConstraintSpec>, b: seq<ConstraintSpec>)
    requires AllKnown(a) && NamesakesAgree(b)
    requires Keyed(ConstraintNames(a), ConstraintShapes(a)) == Keyed(ConstraintNames(b), ConstraintShapes(b))
    ensures AllKnown(b)
  {
    var namesA, namesB := ConstraintNames(a), ConstraintNames(b);
    forall j | 0 <= j < |b|
      ensures b[j].kind != ConstraintUnknown
    {
      var name := b[j].name;
      assert namesB[j] == name;
      var last := Last(namesB, name);
      assert b[last].name == name && ShapeOfConstraint(b[j]) == ShapeOfConstraint(b[last]);
      assert name in Keyed(namesB, ConstraintShapes(b));
      assert name in Keyed(namesA, ConstraintShapes(a));
      assert ConstraintShapes(a)[Last(namesA, name)] == ConstraintShapes(b)[last];
    }
  }

  /** An empty comparison is empty the other way exactly when the second list's namesakes agree. */
  lemma ConstraintsSymmetricExactly(a: seq<ConstraintSpec>, b: seq<ConstraintSpec>)
    requires ConstraintListDiffs(a, b) == []
    ensures ConstraintListDiffs(b, a) == [] <==> NamesakesAgree(b)
  {
    hide ConstraintListDiffs, NamesakesAgree, AllKnown;
    ConstraintListSilentByName(a, b);
    ConstraintListSilentByName(b, a);
    if NamesakesAgree(b) {
      KnownByLast(a, b);
    }
  }

  /** Whatever names are shared, empty comparisons chain. */
  lemma ConstraintsTransitive(a: seq<ConstraintSpec>, b: seq<ConstraintSpec>, c: seq<ConstraintSpec>)
    requires ConstraintListDiffs(a, b) == [] && ConstraintListDiffs(b, c) == []
    ensures ConstraintListDiffs(a, c) == []
  {
    hide ConstraintListDiffs, NamesakesAgree, AllKnown;
    ConstraintListSilentByName(a, b);
    ConstraintListSilentByName(b, c);
    ConstraintListSilentByName(a, c);
  }

  function SomeCheck(name: string): ConstraintSpec {
    ConstraintSpec(name, Check, "c", true, [], "", "", [], "", "")
  }

  function SomeForeignKey(name: string): ConstraintSpec {
    ConstraintSpec(name, ForeignKey, "", true, ["x"], "s", "t", ["y"], "CASCADE", "CASCADE")
  }

  /** The names and shapes of two namesakes, the CHECK first. */
  lemma TwoNamesakes(name: string)
    ensures var both := [SomeCheck(name), SomeForeignKey(name)];
      && ConstraintNames(both) == [name, name] && Last([name, name], name) == 1
      && ConstraintShapes(both)[0] != ConstraintShapes(both)[1]
  {
    var both := [SomeCheck(name), SomeForeignKey(name)];
    assert ShapeOfConstraint(both[0]).CheckShape? && ShapeOfConstraint(both[1]).ForeignKeyShape?;
  }

  /** A CHECK and a foreign key of one name, as a server allows: the table then differs from itself. */
  lemma SharedNameBreaksReflexivity(name: string)
    ensures var both := [SomeCheck(name), SomeForeignKey(name)]; ConstraintListDiffs(both, both) != []
  {
    var both := [SomeCheck(name), SomeForeignKey(name)];
    hide ConstraintListDiffs, ShapeOfConstraint;
    TwoNamesakes(name);
    ConstraintsReflexiveExactly(both);
    assert both[0].name == both[1].name && ConstraintShapes(both)[0] == ShapeOfConstraint(both[0]);
  }

  /** And a CHECK that only one side has is reported in one direction only. */
  lemma SharedNameBreaksSymmetry(name: string)
    ensures var check, key := SomeCheck(name), SomeForeignKey(name);
      ConstraintListDiffs([key], [check, key]) == [] && ConstraintListDiffs([check, key], [key]) != []
  {
    var check, key := SomeCheck(name), SomeForeignKey(name);
    var both := [check, key];
    hide ConstraintListDiffs, ShapeOfConstraint;
    TwoNamesakes(name);
    ConstraintListSilent([key], both);
    ConstraintListSilent(both, [key]);
    assert ConstraintNames([key]) == [name] && Last([name], name) == 0;
    assert ConstraintShapes([key])[0] == ConstraintShapes(both)[1];
  }

  // ---------------------------------------------------------------------------
  // The whole comparison.

  /** Everything a comparison can see; sections not captured are invisible. */
  datatype Shape = Shape(
    engine: string, charset: string, collation: string,
    comment: Option<string>,
    columns: map<string, ColumnShape>,
    indexes: Option<map<string, IndexShape>>,
    constraints: Option<map<string, ConstraintShape>>
  )

  function ShapeOf(spec: TableSpec): Shape {
    Shape(spec.engine, spec.charset, spec.collation,
          if Comment in spec.captured then Some(spec.comment) else None,
          Keyed(ColumnNames(spec.columns), ColumnShapes(spec.columns)),
          if Indexes in spec.captured then Some(Keyed(IndexNames(spec.indexes), IndexShapes(spec.indexes))) else None,
          if Constraints in spec.captured
          then Some(Keyed(ConstraintNames(spec.constraints), ConstraintShapes(spec.constraints)))
          else None)
  }

  /** Column names and captured index names are distinct, as the server keeps them; constraint names need not be. */
  predicate WellNamed(spec: TableSpec) {
    && Unrepeated(ColumnNames(spec.columns))
    && (Indexes in spec.captured ==> Unrepeated(IndexNames(spec.indexes)))
  }

  /** Captured constraints have a kind that can be compared. */
  predicate Comparable(spec: TableSpec) {
    Constraints in spec.captured ==> AllKnown(spec.constraints)
  }

  /** Captured constraints that share a name look alike. */
  predicate Unambiguous(spec: TableSpec) {
    Constraints in spec.captured ==> NamesakesAgree(spec.constraints)
  }

  lemma TableLevelSilent(a: TableSpec, b: TableSpec)
    ensures TableLevelDiffs(a, b) == [] <==>
            && a.engine == b.engine && a.charset == b.charset && a.collation == b.collation
            && ShapeOf(a).comment == ShapeOf(b).comment
  {
  }

  lemma IndexSectionSilent(a: TableSpec, b: TableSpec)
    requires WellNamed(a) && WellNamed(b)
    ensures IndexSection(a, b) == [] <==> ShapeOf(a).indexes == ShapeOf(b).indexes
  {
    hide IndexListDiffs;
    if Indexes in a.captured && Indexes in b.captured {
      IndexListSilent(a.indexes, b.indexes);
    }
  }

  lemma ConstraintSectionSilent(a: TableSpec, b: TableSpec)
    ensures ConstraintSection(a, b) == [] <==>
            ShapeOf(a).constraints == ShapeOf(b).constraints && Comparable(a) && Unambiguous(a)
  {
    hide ConstraintListDiffs, ShapeOfConstraint, AllKnown, NamesakesAgree;
    if Constraints in a.captured && Constraints in b.captured {
      ConstraintListSilentByName(a.constraints, b.constraints);
    }
  }

  /**
  A comparison is empty exactly when the two specifications have the same shape and the first
  one's constraints are known and unambiguous.
  */
  lemma EmptyMeansSameShape(a: TableSpec, b: TableSpec, diffs: seq<Diff>)
    requires WellNamed(a) && WellNamed(b) && IsComparison(a, b, diffs)
    ensures diffs == [] <==> ShapeOf(a) == ShapeOf(b) && Comparable(a) && Unambiguous(a)
  {
    hide TableLevelDiffs, IndexSection, ConstraintSection, IsColumnSection, Comparable, Unambiguous;
    var columns: seq<Diff> :| IsColumnSection(a.columns, b.columns, columns) &&
                              diffs == TableLevelDiffs(a, b) + columns + IndexSection(a, b) + ConstraintSection(a, b);
    TableLevelSilent(a, b);
    ColumnSectionSilent(a.columns, b.columns, columns);
    IndexSectionSilent(a, b);
    ConstraintSectionSilent(a, b);
  }

  /** Same shape carries known kinds over to unambiguous constraints. */
  lemma ComparableByShape(a: TableSpec, b: TableSpec)
    requires ShapeOf(a) == ShapeOf(b) && Comparable(a) && Unambiguous(b)
    ensures Comparable(b)
  {
    if Constraints in a.captured {
      KnownByLast(a.constraints, b.constraints);
    }
  }

  /**
  How far emptiness is an equivalence, constraints of one name included: reflexive exactly on
  known and unambiguous constraints, symmetric exactly when the second side is unambiguous,
  transitive always.
  */
  lemma EmptinessIsAnEquivalence(a: TableSpec, b: TableSpec, c: TableSpec, aa: seq<Diff>, ab: seq<Diff>, ba: seq<Diff>,
                                 bc: seq<Diff>, ac: seq<Diff>)
    requires WellNamed(a) && WellNamed(b) && WellNamed(c)
    requires IsComparison(a, a, aa) && IsComparison(a, b, ab) && IsComparison(b, a, ba)
    requires IsComparison(b, c, bc) && IsComparison(a, c, ac)
    ensures aa == [] <==> Comparable(a) && Unambiguous(a)
    ensures ab == [] ==> (ba == [] <==> Unambiguous(b))
    ensures ab == [] && bc == [] ==> ac == []
  {
    hide IsComparison, ShapeOf, Comparable, Unambiguous;
    EmptyMeansSameShape(a, a, aa);
    EmptyMeansSameShape(a, b, ab);
    EmptyMeansSameShape(b, a, ba);
    EmptyMeansSameShape(b, c, bc);
    EmptyMeansSameShape(a, c, ac);
    if ab == [] && Unambiguous(b) {
      ComparableByShape(a, b);
    }
  }

  /** Distinct constraint names are unambiguous, so on such specifications emptiness is symmetric. */
  lemma DistinctNamesAreUnambiguous(spec: TableSpec)
    requires Constraints in spec.captured ==> Unrepeated(ConstraintNames(spec.constraints))
    ensures Unambiguous(spec)
  {
    var names := ConstraintNames(spec.constraints);
    assert forall i, j :: 0 <= i < j < |names| ==> Constraints in spec.captured ==> names[i] != names[j];
  }
}
