/** The column section under swapped arguments: the mirrored differences, in some order. */
module SpecMirror {
  import opened Outcomes
  import opened Lists
  import opened FoldedNames
  import opened SpecDiff
  import Sorting

  // ---------------------------------------------------------------------------
  // A matched pair.

  function OtherSide(side: Side): Side {
    match side
    case SideA => SideB
    case SideB => SideA
    case _ => side
  }

  /** A difference as the swapped comparison reports it, under the other column's spelling. */
  function Mirror(d: Diff, column: string): Diff {
    Diff(d.kind, OtherSide(d.side), column, d.index, d.b, d.a, d.bIsExpression, d.aIsExpression)
  }

  function Mirrored(diffs: seq<Diff>, column: string): seq<Diff> {
    if diffs == [] then [] else [Mirror(diffs[0], column)] + Mirrored(diffs[1..], column)
  }

  lemma ColumnDiffersEitherWay(kind: Kind, a: ColumnSpec, b: ColumnSpec)
    ensures ColumnDiffers(kind, b, a) == ColumnDiffers(kind, a, b)
  {
  }

  lemma ColumnDifferenceMirrors(kind: Kind, a: ColumnSpec, b: ColumnSpec)
    ensures ColumnDifference(kind, b, a) == Mirror(ColumnDifference(kind, a, b), b.name)
  {
    hide ColumnShown, ColumnDiffers, SameDefault, DefaultSide;
    DefaultSideMirrors(a, b);
  }

  lemma DefaultSideMirrors(a: ColumnSpec, b: ColumnSpec)
    ensures DefaultSide(b, a) == OtherSide(DefaultSide(a, b))
  {
    hide SameDefault;
  }

  /** Swapping a matched pair swaps sides and values and nothing else. */
  lemma {:induction false} PairMirrors(kinds: seq<Kind>, a: ColumnSpec, b: ColumnSpec)
    ensures DifferingColumns(kinds, b, a) == Mirrored(DifferingColumns(kinds, a, b), b.name)
  {
    hide ColumnDiffers, ColumnDifference, Mirror;
    if kinds == [] {
    } else {
      PairMirrors(kinds[1..], a, b);
      ColumnDiffersEitherWay(kinds[0], a, b);
      ColumnDifferenceMirrors(kinds[0], a, b);
      var rest := DifferingColumns(kinds[1..], a, b);
      if ColumnDiffers(kinds[0], a, b) {
        var d := ColumnDifference(kinds[0], a, b);
        assert ([d] + rest)[1..] == rest;
      } else {
        assert [] + rest == rest;
      }
    }
  }

  /** What the two columns of a pair have reported about them. */
  function PairReport(a: ColumnSpec, b: ColumnSpec): seq<Diff> {
    When(a.name != b.name, ColumnDiff(ColumnNameCaseMismatch, SideBoth, a.name, Text(a.name), Text(b.name))) +
    ColumnPairDiffs(a, b)
  }

  /** The report of the swapped pair is the mirrored report, spelling differences included. */
  lemma PairReportMirrors(a: ColumnSpec, b: ColumnSpec)
    ensures PairReport(b, a) == Mirrored(PairReport(a, b), b.name)
  {
    hide DifferingColumns;
    PairMirrors(COLUMN_KINDS, a, b);
    if a.name != b.name {
      var d := ColumnDiff(ColumnNameCaseMismatch, SideBoth, a.name, Text(a.name), Text(b.name));
      assert PairReport(a, b) == [d] + ColumnPairDiffs(a, b);
      assert PairReport(a, b)[1..] == ColumnPairDiffs(a, b);
    } else {
      assert PairReport(a, b) == ColumnPairDiffs(a, b) && PairReport(b, a) == ColumnPairDiffs(b, a);
    }
  }

  lemma {:induction false} MirroredHas(diffs: seq<Diff>, column: string, d: Diff)
    requires d in diffs
    ensures Mirror(d, column) in Mirrored(diffs, column)
  {
    if d == diffs[0] {
    } else {
      MirroredHas(diffs[1..], column, d);
    }
  }

  /** A pair's differences are filed under the first column, and none says that it is absent. */
  lemma PairReportHolds(a: ColumnSpec, b: ColumnSpec)
    ensures forall d :: d in PairReport(a, b) ==> d.column == a.name && d.kind != ColumnAbsent
    ensures Unrepeated(PairReport(a, b))
  {
    hide DifferingColumns, ColumnDifference, ColumnDiffers;
    DifferingColumnsHold(COLUMN_KINDS, a, b);
    KindsAreDistinct();
    DifferingColumnsDiffer(COLUMN_KINDS, a, b);
    forall d | d in ColumnPairDiffs(a, b)
      ensures d.column == a.name && d.kind != ColumnAbsent && d.kind != ColumnNameCaseMismatch
    {
      assert d == ColumnDifference(d.kind, a, b);
    }
  }

  lemma KindsAreDistinct()
    ensures Unrepeated(COLUMN_KINDS)
    ensures ColumnAbsent !in COLUMN_KINDS && ColumnNameCaseMismatch !in COLUMN_KINDS
  {
  }

  lemma {:induction false} DifferingColumnsDiffer(kinds: seq<Kind>, a: ColumnSpec, b: ColumnSpec)
    requires Unrepeated(kinds)
    ensures Unrepeated(DifferingColumns(kinds, a, b))
  {
    hide ColumnDiffers, ColumnDifference;
    if kinds == [] {
      assert DifferingColumns(kinds, a, b) == [];
    } else {
      DifferingColumnsDiffer(kinds[1..], a, b);
      DifferingColumnsHold(kinds[1..], a, b);
      assert kinds[0] !in kinds[1..];
    }
  }

  // ---------------------------------------------------------------------------
  // What a section holds, stated the same way from both sides.

  /** Columns that stand for each other. */
  predicate Pairs(a: seq<ColumnSpec>, b: seq<ColumnSpec>, i: nat, j: nat) {
    Related(ColumnNames(a), ColumnNames(b), i, j)
  }

  ghost predicate Alone(a: seq<ColumnSpec>, b: seq<ColumnSpec>, i: nat) {
    forall j: nat :: !Pairs(a, b, i, j)
  }

  lemma PairsEitherWay(a: seq<ColumnSpec>, b: seq<ColumnSpec>, i: nat, j: nat)
    ensures Pairs(a, b, i, j) <==> Pairs(b, a, j, i)
  {
    hide Collides;
  }

  function AbsentFromB(column: ColumnSpec): Diff {
    ColumnDiff(ColumnAbsent, SideB, column.name, Text(column.columnType), Nothing)
  }

  function AbsentFromFirst(column: ColumnSpec): Diff {
    ColumnDiff(ColumnAbsent, SideA, column.name, Nothing, Text(column.columnType))
  }

  ghost predicate InSection(a: seq<ColumnSpec>, b: seq<ColumnSpec>, d: Diff) {
    || (exists i, j :: 0 <= i < |a| && 0 <= j < |b| && Pairs(a, b, i, j) && d in PairReport(a[i], b[j]))
    || (exists i :: 0 <= i < |a| && Alone(a, b, i) && d == AbsentFromB(a[i]))
    || (exists j :: 0 <= j < |b| && Alone(b, a, j) && d == AbsentFromFirst(b[j]))
  }

  lemma FoundMeansPair(a: seq<ColumnSpec>, b: seq<ColumnSpec>, i: nat)
    requires Unrepeated(ColumnNames(a)) && Unrepeated(ColumnNames(b)) && i < |a|
    ensures forall j: nat :: ColumnMatches(a, b)[i] == Some(j) <==> Pairs(a, b, i, j)
    ensures ColumnMatches(a, b)[i].None? <==> Alone(a, b, i)
  {
    hide Find, Related;
    forall j: nat
      ensures ColumnMatches(a, b)[i] == Some(j) <==> Pairs(a, b, i, j)
    {
      FindsExactlyTheRelated(ColumnNames(a), ColumnNames(b), i, j);
    }
  }

  lemma UntakenMeansAlone(a: seq<ColumnSpec>, b: seq<ColumnSpec>, j: nat)
    requires Unrepeated(ColumnNames(a)) && Unrepeated(ColumnNames(b))
    ensures j in OnlyInB(a, b) <==> j < |b| && Alone(b, a, j)
  {
    hide Pairs;
    var founds := ColumnMatches(a, b);
    forall i: nat
      ensures i < |a| && founds[i] == Some(j) <==> Pairs(b, a, j, i)
    {
      PairsEitherWay(a, b, i, j);
      PairsWithin(a, b, i, j);
      if i < |a| {
        FoundMeansPair(a, b, i);
      }
    }
    if j in Taken(founds) {
      var i :| 0 <= i < |founds| && founds[i] == Some(j);
      assert Pairs(b, a, j, i);
    }
  }

  lemma PairsWithin(a: seq<ColumnSpec>, b: seq<ColumnSpec>, i: nat, j: nat)
    ensures Pairs(a, b, i, j) ==> i < |a| && j < |b|
  {
  }

  // ---------------------------------------------------------------------------
  // Sections hold exactly that, each difference once.

  lemma {:induction false} ReportsHold(a: seq<ColumnSpec>, b: seq<ColumnSpec>, founds: seq<Option<nat>>, n: nat,
                                       d: Diff)
    requires n <= |a| == |founds|
    requires forall i :: 0 <= i < |a| && founds[i].Some? ==> founds[i].value < |b|
    ensures d in ColumnReports(a, b, founds, n) <==>
            exists i :: 0 <= i < n && d in ColumnReport(b, a[i], founds[i])
  {
    hide ColumnReport;
    if n == 0 {
      assert ColumnReports(a, b, founds, n) == [];
    } else {
      ReportsHold(a, b, founds, n - 1, d);
    }
  }

  /** One column's report, by what it is matched to. */
  lemma ReportOfFound(b: seq<ColumnSpec>, column: ColumnSpec, found: Option<nat>)
    requires found.Some? ==> found.value < |b|
    ensures ColumnReport(b, column, found) ==
            if found.None? then [AbsentFromB(column)] else PairReport(column, b[found.value])
  {
  }

  lemma SectionHolds(a: seq<ColumnSpec>, b: seq<ColumnSpec>, diffs: seq<Diff>, d: Diff)
    requires Unrepeated(ColumnNames(a)) && Unrepeated(ColumnNames(b)) && IsColumnSection(a, b, diffs)
    ensures d in diffs <==> InSection(a, b, d)
  {
    hide ColumnReport, ColumnReports, PairReport, Pairs, Alone, Sorting.Sorted, OnlyInB, AbsentFromB;
    var founds := ColumnMatches(a, b);
    var positions: seq<nat> :| IsTail(a, b, positions) &&
      diffs == ColumnReports(a, b, founds, |a|) + AbsentFromA(b, positions);
    ReportsHold(a, b, founds, |a|, d);
    forall i | 0 <= i < |a|
      ensures d in ColumnReport(b, a[i], founds[i]) <==>
              || (exists j :: 0 <= j < |b| && Pairs(a, b, i, j) && d in PairReport(a[i], b[j]))
              || (Alone(a, b, i) && d == AbsentFromB(a[i]))
    {
      FoundMeansPair(a, b, i);
      ReportOfFound(b, a[i], founds[i]);
    }
    TailHolds(a, b, positions, d);
  }

  lemma TailHolds(a: seq<ColumnSpec>, b: seq<ColumnSpec>, positions: seq<nat>, d: Diff)
    requires Unrepeated(ColumnNames(a)) && Unrepeated(ColumnNames(b)) && IsTail(a, b, positions)
    ensures d in AbsentFromA(b, positions) <==> exists j :: 0 <= j < |b| && Alone(b, a, j) && d == AbsentFromFirst(b[j])
  {
    hide OnlyInB, Alone, Sorting.Sorted;
    forall j: nat
      ensures j in positions <==> j < |b| && Alone(b, a, j)
    {
      assert j in multiset(positions) <==> j in multiset(OnlyInB(a, b));
      UntakenMeansAlone(a, b, j);
    }
    forall k | 0 <= k < |positions|
      ensures AbsentFromA(b, positions)[k] == AbsentFromFirst(b[positions[k]]) && Alone(b, a, positions[k])
    {
      assert positions[k] in positions;
    }
    if j :| 0 <= j < |b| && Alone(b, a, j) && d == AbsentFromFirst(b[j]) {
      var k :| 0 <= k < |positions| && positions[k] == j;
      assert AbsentFromA(b, positions)[k] == d;
    }
  }

  lemma {:induction false} ReportsUnrepeated(a: seq<ColumnSpec>, b: seq<ColumnSpec>, founds: seq<Option<nat>>, n: nat)
    requires n <= |a| == |founds| && Unrepeated(ColumnNames(a))
    requires forall i :: 0 <= i < |a| && founds[i].Some? ==> founds[i].value < |b|
    ensures Unrepeated(ColumnReports(a, b, founds, n))
    ensures forall d :: d in ColumnReports(a, b, founds, n) ==>
              d.column in ColumnNames(a)[..n] && (d.kind == ColumnAbsent ==> d.side == SideB)
  {
    hide ColumnReport, PairReport;
    if n == 0 {
      assert ColumnReports(a, b, founds, n) == [];
    } else {
      ReportsUnrepeated(a, b, founds, n - 1);
      var report := ColumnReport(b, a[n - 1], founds[n - 1]);
      ReportOfFound(b, a[n - 1], founds[n - 1]);
      if founds[n - 1].Some? {
        PairReportHolds(a[n - 1], b[founds[n - 1].value]);
      }
      var names := ColumnNames(a);
      assert names[..n] == names[..n - 1] + [a[n - 1].name];
      assert names[n - 1] !in names[..n - 1];
      UnrepeatedAppend(ColumnReports(a, b, founds, n - 1), report);
    }
  }

  lemma {:induction false} OutsideUnrepeated(n: nat, taken: set<nat>)
    ensures Unrepeated(Outside(n, taken))
  {
    if n == 0 {
      assert Outside(n, taken) == [];
    } else {
      OutsideUnrepeated(n - 1, taken);
    }
  }

  lemma SectionUnrepeated(a: seq<ColumnSpec>, b: seq<ColumnSpec>, diffs: seq<Diff>)
    requires Unrepeated(ColumnNames(a)) && Unrepeated(ColumnNames(b)) && IsColumnSection(a, b, diffs)
    ensures Unrepeated(diffs)
  {
    hide ColumnReport, ColumnReports, Sorting.Sorted;
    var founds := ColumnMatches(a, b);
    var positions: seq<nat> :| IsTail(a, b, positions) &&
      diffs == ColumnReports(a, b, founds, |a|) + AbsentFromA(b, positions);
    ReportsUnrepeated(a, b, founds, |a|);
    OutsideUnrepeated(|b|, Taken(founds));
    PermutedUnrepeated(OnlyInB(a, b), positions);
    var tail := AbsentFromA(b, positions);
    forall k, l | 0 <= k < l < |tail|
      ensures tail[k] != tail[l]
    {
      assert ColumnNames(b)[positions[k]] != ColumnNames(b)[positions[l]];
    }
    UnrepeatedAppend(ColumnReports(a, b, founds, |a|), tail);
  }

  // ---------------------------------------------------------------------------
  // The mirror.

  /** The spelling a matched name has on the other side. */
  function Partner(a: seq<ColumnSpec>, b: seq<ColumnSpec>, name: string): string {
    var found := Find(ColumnNames(a), ColumnNames(b), name);
    if found.Some? && found.value < |b| then b[found.value].name else name
  }

  /** A difference of `a` and `b` as `b` and `a` report it; only an absent column keeps its spelling. */
  function MirrorOf(a: seq<ColumnSpec>, b: seq<ColumnSpec>, d: Diff): Diff {
    Mirror(d, if d.kind == ColumnAbsent then d.column else Partner(a, b, d.column))
  }

  function MirrorAll(a: seq<ColumnSpec>, b: seq<ColumnSpec>, diffs: seq<Diff>): (mirrored: seq<Diff>)
    ensures |mirrored| == |diffs| && forall i :: 0 <= i < |diffs| ==> mirrored[i] == MirrorOf(a, b, diffs[i])
  {
    seq(|diffs|, i requires 0 <= i < |diffs| => MirrorOf(a, b, diffs[i]))
  }

  lemma PartnerOfPair(a: seq<ColumnSpec>, b: seq<ColumnSpec>, i: nat, j: nat)
    requires Unrepeated(ColumnNames(a)) && Unrepeated(ColumnNames(b)) && i < |a| && j < |b| && Pairs(a, b, i, j)
    ensures Partner(a, b, a[i].name) == b[j].name
  {
    hide Find, Related;
    FindsExactlyTheRelated(ColumnNames(a), ColumnNames(b), i, j);
  }

  /** The mirrored difference is one of the swapped section, and mirrors back. */
  ghost predicate MirrorsInto(a: seq<ColumnSpec>, b: seq<ColumnSpec>, d: Diff) {
    InSection(b, a, MirrorOf(a, b, d)) && MirrorOf(b, a, MirrorOf(a, b, d)) == d
  }

  lemma PairMirrorsInto(a: seq<ColumnSpec>, b: seq<ColumnSpec>, i: nat, j: nat, d: Diff)
    requires Unrepeated(ColumnNames(a)) && Unrepeated(ColumnNames(b))
    requires i < |a| && j < |b| && Pairs(a, b, i, j) && d in PairReport(a[i], b[j])
    ensures MirrorsInto(a, b, d)
  {
    hide PairReport, Pairs, Alone, Partner;
    PairReportHolds(a[i], b[j]);
    PartnerOfPair(a, b, i, j);
    PairsEitherWay(a, b, i, j);
    PartnerOfPair(b, a, j, i);
    PairReportMirrors(a[i], b[j]);
    MirroredHas(PairReport(a[i], b[j]), b[j].name, d);
  }

  /** Mirroring is undone by mirroring back, and leads into the swapped section. */
  lemma MirrorInSection(a: seq<ColumnSpec>, b: seq<ColumnSpec>, d: Diff)
    requires Unrepeated(ColumnNames(a)) && Unrepeated(ColumnNames(b)) && InSection(a, b, d)
    ensures MirrorsInto(a, b, d)
  {
    hide PairReport, Pairs, Alone, Partner;
    if i, j :| 0 <= i < |a| && 0 <= j < |b| && Pairs(a, b, i, j) && d in PairReport(a[i], b[j]) {
      PairMirrorsInto(a, b, i, j, d);
    } else if i :| 0 <= i < |a| && Alone(a, b, i) && d == AbsentFromB(a[i]) {
      assert MirrorOf(a, b, d) == AbsentFromFirst(a[i]);
    } else {
      var j :| 0 <= j < |b| && Alone(b, a, j) && d == AbsentFromFirst(b[j]);
      assert MirrorOf(a, b, d) == AbsentFromB(b[j]);
    }
  }

  /** With the arguments swapped, the column section is a permutation of the mirrored one. */
  lemma SectionMirrors(a: seq<ColumnSpec>, b: seq<ColumnSpec>, forward: seq<Diff>, backward: seq<Diff>)
    requires Unrepeated(ColumnNames(a)) && Unrepeated(ColumnNames(b))
    requires IsColumnSection(a, b, forward) && IsColumnSection(b, a, backward)
    ensures multiset(backward) == multiset(MirrorAll(a, b, forward))
  {
    hide IsColumnSection, InSection, MirrorOf;
    var mirrored := MirrorAll(a, b, forward);
    forall d
      ensures d in forward <==> InSection(a, b, d)
      ensures d in backward <==> InSection(b, a, d)
    {
      SectionHolds(a, b, forward, d);
      SectionHolds(b, a, backward, d);
    }
    forall d | d in forward
      ensures MirrorOf(a, b, d) in backward && MirrorOf(b, a, MirrorOf(a, b, d)) == d
    {
      MirrorInSection(a, b, d);
    }
    forall e | e in backward
      ensures e in mirrored
    {
      MirrorInSection(b, a, e);
      var i :| 0 <= i < |forward| && forward[i] == MirrorOf(b, a, e);
      assert mirrored[i] == e;
    }
    SectionUnrepeated(a, b, forward);
    SectionUnrepeated(b, a, backward);
    forall i, j | 0 <= i < j < |mirrored|
      ensures mirrored[i] != mirrored[j]
    {
      assert forward[i] in forward && forward[j] in forward;
    }
    SameMembers(backward, mirrored);
  }

  ghost predicate AbsentReported(diffs: seq<Diff>, side: Side, name: string) {
    exists d :: d in diffs && d.kind == ColumnAbsent && d.side == side && d.column == name
  }

  /** In particular, what is absent on one side is absent on the other, name by name. */
  lemma AbsenceSwaps(a: seq<ColumnSpec>, b: seq<ColumnSpec>, forward: seq<Diff>, backward: seq<Diff>, name: string)
    requires Unrepeated(ColumnNames(a)) && Unrepeated(ColumnNames(b))
    requires IsColumnSection(a, b, forward) && IsColumnSection(b, a, backward)
    ensures AbsentReported(forward, SideB, name) <==> AbsentReported(backward, SideA, name)
  {
    hide IsColumnSection, InSection;
    if d :| d in forward && d.kind == ColumnAbsent && d.side == SideB && d.column == name {
      SectionHolds(a, b, forward, d);
      MirrorInSection(a, b, d);
      SectionHolds(b, a, backward, MirrorOf(a, b, d));
    }
    if d :| d in backward && d.kind == ColumnAbsent && d.side == SideA && d.column == name {
      SectionHolds(b, a, backward, d);
      MirrorInSection(b, a, d);
      SectionHolds(a, b, forward, MirrorOf(b, a, d));
    }
  }
}
