/** The foreign-key fact: the primary source, its fallback, and why they agree. */
module SourceAgreement {
  import opened Outcomes
  import opened Lists
  import opened ForeignKeys
  import opened Selection
  import opened Closure
  import opened FallbackIndexes
  import Grouping
  import InnoDBScan
  import StandardScan

  /** A statement that failed outright, or the rows it delivered. */
  datatype Query<T> = QueryFailed | Delivered(delivery: Delivery<T>)

  datatype DowngradeReason = NoDowngrade | PrimaryQueryError | PrimaryReadError

  datatype PrimaryError = PrimaryQueryFailed | PrimaryReadFailed(fault: InnoDBScan.ScanError)

  datatype FallbackError =
    | FallbackQueryFailed
    | FallbackReadFailed(fault: StandardScan.ScanError)
    | IndexReadFailed(failure: FallbackIndexes.ReadError)

  datatype ForeignKeyResult = ForeignKeyResult(
    keys: seq<ForeignKey>,
    visibility: Visibility,
    reason: DowngradeReason,
    primaryError: Option<PrimaryError>
  )

  const ZERO_RESULT := ForeignKeyResult([], UnknownVisibility, NoDowngrade, None)

  datatype ReadFailure = InvalidSelector | BothSourcesFailed(primary: PrimaryError, fallback: FallbackError)

  function ReasonOf(error: PrimaryError): DowngradeReason {
    if error.PrimaryQueryFailed? then PrimaryQueryError else PrimaryReadError
  }

  // ---------------------------------------------------------------------------
  // What each source answers.

  ghost predicate PrimaryAnswers(query: Query<InnoDBScan.Row>, schema: string, selector: Selector,
                                 selected: seq<ForeignKey>) {
    && query.Delivered? && !query.delivery.broken
    && exists keys :: InnoDBScan.Lists(keys, query.delivery.rows) && Selects(selected, keys, schema, selector)
  }

  /** The primary rows can be read as a list of constraints. */
  ghost predicate PrimaryReadable(query: Query<InnoDBScan.Row>) {
    && query.Delivered? && !query.delivery.broken
    && exists keys :: InnoDBScan.Lists(keys, query.delivery.rows)
  }

  /** Every constraint with its `indexed` established from the index rows read for it. */
  ghost predicate Filled(keys: seq<ForeignKey>, answer: Answer, filled: seq<ForeignKey>) {
    && |filled| == |keys|
    && forall i :: 0 <= i < |keys| ==>
         filled[i] == keys[i].(indexed := Supported(keys[i], ReadRows(PairsOf(keys), answer)))
  }

  ghost predicate FallbackAnswers(query: Query<StandardScan.Row>, answer: Answer, schema: string, selector: Selector,
                                  selected: seq<ForeignKey>) {
    && query.Delivered? && !query.delivery.broken
    && exists keys, filled ::
         StandardScan.Lists(keys, query.delivery.rows) && Filled(keys, answer, filled) &&
         Selects(selected, filled, schema, selector)
  }

  /** The fallback rows can be read, and so can the index rows they call for. */
  ghost predicate FallbackReadable(query: Query<StandardScan.Row>, answer: Answer) {
    && query.Delivered? && !query.delivery.broken
    && exists keys :: && StandardScan.Lists(keys, query.delivery.rows)
                      && !AnyBroken(PairsOf(keys), answer) && AllDense(ReadRows(PairsOf(keys), answer))
  }

  /** Why the primary source has no answer: the statement failed, or this is the first fault in its rows. */
  ghost predicate PrimaryFails(query: Query<InnoDBScan.Row>, error: PrimaryError) {
    match query
    case QueryFailed => error == PrimaryQueryFailed
    case Delivered(d) =>
      && error.PrimaryReadFailed?
      && exists i :: && 0 <= i <= |d.rows| && InnoDBScan.CleanUpTo(d.rows, d.broken, i)
                     && InnoDBScan.FaultAt(d.rows, d.broken, i) == Some(error.fault)
  }

  /** The same for the fallback, whose index rows can fail as well. */
  ghost predicate FallbackFails(query: Query<StandardScan.Row>, answer: Answer, error: FallbackError) {
    match query
    case QueryFailed => error == FallbackQueryFailed
    case Delivered(d) =>
      match error
      case FallbackQueryFailed => false
      case FallbackReadFailed(fault) =>
        exists i :: && 0 <= i <= |d.rows| && StandardScan.CleanUpTo(d.rows, d.broken, i)
                    && StandardScan.FaultAt(d.rows, d.broken, i) == Some(fault)
      case IndexReadFailed(failure) =>
        exists keys :: StandardScan.Lists(keys, d.rows) && FailsWith(PairsOf(keys), answer, [], failure)
  }

  method ReadPrimary(query: Query<InnoDBScan.Row>) returns (r: Result<seq<ForeignKey>, PrimaryError>)
    ensures r.Ok? <==> PrimaryReadable(query)
    ensures r.Ok? ==> InnoDBScan.Lists(r.value, query.delivery.rows)
    ensures r.Err? ==> PrimaryFails(query, r.error)
  {
    if query.QueryFailed? {
      return Err(PrimaryQueryFailed);
    }
    var scanned := InnoDBScan.ScanInnoDBForeignKeys(query.delivery);
    if scanned.Err? {
      if !query.delivery.broken {
        assert !exists keys :: InnoDBScan.Lists(keys, query.delivery.rows);
      }
      return Err(PrimaryReadFailed(scanned.error));
    }
    assert InnoDBScan.FaultAt(query.delivery.rows, query.delivery.broken, |query.delivery.rows|).None?;
    return Ok(scanned.value);
  }

  method ReadFallback(query: Query<StandardScan.Row>, answer: Answer)
    returns (r: Result<seq<ForeignKey>, FallbackError>)
    ensures r.Ok? <==> FallbackReadable(query, answer)
    ensures r.Err? ==> FallbackFails(query, answer, r.error)
    ensures r.Ok? ==> exists keys :: StandardScan.Lists(keys, query.delivery.rows) && Filled(keys, answer, r.value)
  {
    if query.QueryFailed? {
      return Err(FallbackQueryFailed);
    }
    var scanned := StandardScan.ScanStandardForeignKeys(query.delivery);
    if scanned.Err? {
      return Err(FallbackReadFailed(scanned.error));
    }
    assert StandardScan.FaultAt(query.delivery.rows, query.delivery.broken, |query.delivery.rows|).None?;
    var keys := scanned.value;
    var facts := new ForeignKey[|keys|](i requires 0 <= i < |keys| => keys[i]);
    assert facts[..] == keys;
    var populated := PopulateFallbackIndexes(facts, answer);
    if populated.Err? {
      return Err(IndexReadFailed(populated.error));
    }
    assert Filled(keys, answer, facts[..]);
    return Ok(facts[..]);
  }

  /**
  The fact for one selector. Complete visibility means exactly that the primary rows
  could be read; otherwise the fallback answers, with the reason and the error kept, and
  when both fail both causes are returned.
  */
  method ReadForeignKeys(schema: string, schemaRepresentable: bool, selector: Selector,
                         primary: Query<InnoDBScan.Row>, fallback: Query<StandardScan.Row>, answer: Answer)
    returns (r: Result<ForeignKeyResult, ReadFailure>)
    ensures selector.kind == Invalid ==> r == Err(InvalidSelector)
    ensures selector.kind != Invalid && selector.tables == [] ==>
      r == Ok(ForeignKeyResult([], UnknownVisibility, NoDowngrade, None))
    ensures selector.kind != Invalid && selector.tables != [] ==>
      && (r.Ok? && r.value.visibility == Complete <==> PrimaryReadable(primary))
      && (r.Ok? <==> PrimaryReadable(primary) || !schemaRepresentable || FallbackReadable(fallback, answer))
      && (r.Ok? && r.value.visibility == Complete ==>
            && r.value.reason == NoDowngrade && r.value.primaryError.None?
            && PrimaryAnswers(primary, schema, selector, r.value.keys))
      && (r.Ok? && r.value.visibility != Complete ==>
            && r.value.visibility == Unconfirmed
            && r.value.primaryError.Some? && PrimaryFails(primary, r.value.primaryError.value)
            && r.value.reason == (if primary.QueryFailed? then PrimaryQueryError else PrimaryReadError)
            && if schemaRepresentable then FallbackAnswers(fallback, answer, schema, selector, r.value.keys)
               else Selects(r.value.keys, [], schema, selector))
      && (r.Err? ==> r.error.BothSourcesFailed? && PrimaryFails(primary, r.error.primary)
                     && FallbackFails(fallback, answer, r.error.fallback))
  {
    if selector.kind == Invalid {
      return Err(InvalidSelector);
    }
    if |selector.tables| == 0 {
      return Ok(ZERO_RESULT);
    }
    var viaPrimary := ReadPrimary(primary);
    if viaPrimary.Ok? {
      var selected := SelectForeignKeys(viaPrimary.value, schema, selector);
      return Ok(ForeignKeyResult(selected, Complete, NoDowngrade, None));
    }
    var keys: seq<ForeignKey> := [];
    if schemaRepresentable {
      var viaFallback := ReadFallback(fallback, answer);
      if viaFallback.Err? {
        return Err(BothSourcesFailed(viaPrimary.error, viaFallback.error));
      }
      keys := viaFallback.value;
    }
    var selected := SelectForeignKeys(keys, schema, selector);
    return Ok(ForeignKeyResult(selected, Unconfirmed, ReasonOf(viaPrimary.error), Some(viaPrimary.error)));
  }

  // ---------------------------------------------------------------------------
  // One catalogue, two listings.

  predicate SameName(a: ForeignKey, b: ForeignKey) {
    a.childSchema == b.childSchema && a.constraintName == b.constraintName
  }

  /** The constraints a server registers: storable, with names unique in each child schema. */
  predicate Catalogue(catalogue: seq<ForeignKey>) {
    && (forall key :: key in catalogue ==> Storable(key))
    && (forall i, j :: 0 <= i < |catalogue| && 0 <= j < |catalogue| && i != j ==> !SameName(catalogue[i], catalogue[j]))
  }

  predicate Storable(key: ForeignKey) {
    InnoDBScan.Storable(key)
  }

  /** Each constraint has a supporting index, as the server guarantees, and indexes are numbered densely. */
  ghost predicate Supports(stored: seq<IndexRow>, catalogue: seq<ForeignKey>) {
    AllDense(stored) && forall key :: key in catalogue ==> Supported(key, stored)
  }

  /** A listing order: some of the catalogue, each constraint once, missing none that answers the request. */
  ghost predicate Covers(order: seq<ForeignKey>, catalogue: seq<ForeignKey>, schema: string, selector: Selector) {
    && (forall key :: key in order ==> key in catalogue)
    && Unrepeated(order)
    && (forall key, table :: table in selector.tables && key in catalogue && Answers(key, schema, selector, table) ==>
          key in order)
  }

  function Unindexed(keys: seq<ForeignKey>): (bare: seq<ForeignKey>)
    ensures |bare| == |keys|
    ensures forall i :: 0 <= i < |keys| ==> bare[i] == keys[i].(indexed := false)
  {
    seq(|keys|, i requires 0 <= i < |keys| => keys[i].(indexed := false))
  }

  /** Constraint tags of the standard listing stay apart. */
  predicate TagsApart(order: seq<ForeignKey>) {
    forall i :: 0 < i < |order| ==> StandardScan.KeyTag(order[i - 1]) != StandardScan.KeyTag(order[i])
  }

  lemma CataloguedNamesDiffer(catalogue: seq<ForeignKey>, a: ForeignKey, b: ForeignKey)
    requires Catalogue(catalogue) && a in catalogue && b in catalogue && SameName(a, b)
    ensures a == b
  {
    var i :| 0 <= i < |catalogue| && catalogue[i] == a;
    var j :| 0 <= j < |catalogue| && catalogue[j] == b;
  }

  /** Any order of catalogued constraints has a primary listing. */
  lemma PrimaryOrderIsStorable(order: seq<ForeignKey>, catalogue: seq<ForeignKey>, schema: string, selector: Selector)
    requires Catalogue(catalogue) && Covers(order, catalogue, schema, selector)
    ensures InnoDBScan.StorableList(order)
  {
    forall i | 0 <= i < |order|
      ensures InnoDBScan.Storable(order[i])
    {
      assert order[i] in catalogue;
      assert Storable(order[i]);
    }
    forall i | 0 < i < |order|
      ensures InnoDBScan.Identifier(order[i - 1]) != InnoDBScan.Identifier(order[i])
    {
      var a, b := order[i - 1], order[i];
      assert a in catalogue && b in catalogue && a != b;
      if InnoDBScan.Identifier(a) == InnoDBScan.Identifier(b) {
        JoinIsInjective(a.childSchema, a.constraintName, b.childSchema, b.constraintName);
        CataloguedNamesDiffer(catalogue, a, b);
      }
    }
  }

  /** Schema names without NUL keep the tags apart, as no server admits one. */
  lemma TagsApartWithoutNul(order: seq<ForeignKey>, catalogue: seq<ForeignKey>, schema: string, selector: Selector)
    requires Catalogue(catalogue) && Covers(order, catalogue, schema, selector)
    requires forall key :: key in catalogue ==> '\0' !in key.childSchema
    ensures TagsApart(order)
  {
    forall i | 0 < i < |order|
      ensures StandardScan.KeyTag(order[i - 1]) != StandardScan.KeyTag(order[i])
    {
      var a, b := order[i - 1], order[i];
      assert a in catalogue && b in catalogue && a != b;
      if StandardScan.KeyTag(a) == StandardScan.KeyTag(b) {
        TagIsInjective(a.childSchema, a.constraintName, b.childSchema, b.constraintName);
        CataloguedNamesDiffer(catalogue, a, b);
      }
    }
  }

  lemma TagIsInjective(schema: string, name: string, schema': string, name': string)
    requires '\0' !in schema && '\0' !in schema'
    requires StandardScan.GroupKey(schema, name) == StandardScan.GroupKey(schema', name')
    ensures schema == schema' && name == name'
  {
    var tag := StandardScan.GroupKey(schema, name);
    assert tag == StandardScan.GroupKey(schema', name');
    assert tag[|schema|] == '\0' && tag[|schema'|] == '\0';
    assert forall k :: 0 <= k < |schema| ==> tag[k] == schema[k] != '\0';
    assert forall k :: 0 <= k < |schema'| ==> tag[k] == schema'[k] != '\0';
    assert tag[..|schema|] == schema && tag[|schema| + 1..] == name;
    assert tag[..|schema'|] == schema' && tag[|schema'| + 1..] == name';
  }

  /** Without that, different constraints can share a tag, and a listing of both is refused. */
  lemma TagsCanCollide()
    ensures StandardScan.GroupKey("a\0b", "c") == StandardScan.GroupKey("a", "b\0c")
  {
  }

  /** Reading indexes in batches, the fallback finds every catalogued constraint supported. */
  lemma FillingRestores(order: seq<ForeignKey>, catalogue: seq<ForeignKey>, stored: seq<IndexRow>, answer: Answer)
    requires Supports(stored, catalogue) && Honest(answer, stored)
    requires forall key :: key in order ==> key in catalogue && key.indexed
    ensures Filled(Unindexed(order), answer, order)
    ensures !AnyBroken(PairsOf(Unindexed(order)), answer)
    ensures AllDense(ReadRows(PairsOf(Unindexed(order)), answer))
  {
    var bare := Unindexed(order);
    var pairs := PairsOf(bare);
    var rows := ReadRows(pairs, answer);
    PairsAreDistinct(bare);
    forall id, index
      ensures Parts(rows, id, index) == if id in pairs then Parts(stored, id, index) else []
      ensures !AnyBroken(pairs, answer)
    {
      BatchingChangesNothing(pairs, answer, stored, id, index);
      assert HonestFor(answer, stored, pairs);
    }
    assert !AnyBroken(pairs, answer) by {
      BatchingChangesNothing(pairs, answer, stored, TableIdentity("", ""), "");
    }
    forall id, index
      ensures Dense(Parts(rows, id, index))
    {
      assert Dense(Parts(stored, id, index));
    }
    forall i | 0 <= i < |order|
      ensures order[i] == bare[i].(indexed := Supported(bare[i], rows))
    {
      var key := order[i];
      assert key in order && Supported(key, stored);
      assert bare[i] in bare;
      var id := TableIdentity(key.childSchema, key.childTable);
      var index :| key.childColumns <= Names(Parts(stored, id, index));
      assert Parts(rows, id, index) == Parts(stored, id, index);
    }
  }

  /** Two covering orders agree on every constraint that answers the request. */
  lemma CoveringOrdersAgree(order: seq<ForeignKey>, order': seq<ForeignKey>, catalogue: seq<ForeignKey>,
                            schema: string, selector: Selector)
    requires Catalogue(catalogue)
    requires Covers(order, catalogue, schema, selector) && Covers(order', catalogue, schema, selector)
    ensures SameAnswers(order, order', schema, selector)
    ensures Distinguishable(order, schema, selector)
  {
    forall key, table | table in selector.tables && Answers(key, schema, selector, table)
      ensures multiset(order)[key] == multiset(order')[key]
    {
      OnceEach(order, key);
      OnceEach(order', key);
    }
    forall table | table in selector.tables
      ensures TriplesTell(Matching(order, schema, selector, table))
    {
      var matching := Matching(order, schema, selector, table);
      forall a, b | a in matching && b in matching && SameTriple(a, b)
        ensures a == b
      {
        MatchedIsGiven(order, schema, selector, table, a);
        MatchedIsGiven(order, schema, selector, table, b);
        CataloguedNamesDiffer(catalogue, a, b);
      }
    }
  }

  lemma MatchedIsGiven(keys: seq<ForeignKey>, schema: string, selector: Selector, table: string, key: ForeignKey)
    requires key in Matching(keys, schema, selector, table)
    ensures key in keys
  {
    MatchingCounts(keys, schema, selector, table, key);
    assert key in multiset(Matching(keys, schema, selector, table));
    assert key in multiset(keys);
  }

  function PrimaryRows(order: seq<ForeignKey>): seq<InnoDBScan.Row>
    requires forall i :: 0 <= i < |order| ==> InnoDBScan.Storable(order[i])
  {
    Grouping.Concat(InnoDBScan.GroupsOf(order))
  }

  predicate Paired(key: ForeignKey) {
    |key.childColumns| == |key.parentColumns| > 0
  }

  function FallbackRows(order: seq<ForeignKey>): seq<StandardScan.Row>
    requires forall i :: 0 <= i < |order| ==> Paired(order[i])
  {
    assert forall i :: 0 <= i < |order| ==> Paired(order[i]) && StandardScan.Reportable(Unindexed(order)[i]);
    Grouping.Concat(StandardScan.GroupsOf(Unindexed(order)))
  }

  /** Where two neighbours share a tag, the second one's first row is out of sequence. */
  lemma SharedTagIsAFault(order: seq<ForeignKey>, i: nat)
    requires forall k :: 0 <= k < |order| ==> Paired(order[k])
    requires 0 < i < |order| && StandardScan.KeyTag(order[i - 1]) == StandardScan.KeyTag(order[i])
    ensures exists at :: 0 <= at < |FallbackRows(order)| && StandardScan.FaultAt(FallbackRows(order), false, at).Some?
  {
    var bare := Unindexed(order);
    assert forall k :: 0 <= k < |order| ==> Paired(order[k]) && StandardScan.Reportable(bare[k]);
    var groups := StandardScan.GroupsOf(bare);
    var before, previous := Grouping.Concat(groups[..i - 1]), groups[i - 1];
    var own, after := groups[i], Grouping.Concat(groups[i + 1..]);
    assert groups == groups[..i - 1] + ([previous] + ([own] + groups[i + 1..]));
    Grouping.ConcatAppend(groups[..i - 1], [previous] + ([own] + groups[i + 1..]));
    assert ([previous] + ([own] + groups[i + 1..]))[1..] == [own] + groups[i + 1..];
    assert ([own] + groups[i + 1..])[1..] == groups[i + 1..];
    var rows := FallbackRows(order);
    assert rows == before + (previous + (own + after));
    var at := |before| + |previous|;
    assert rows[at] == own[0] == StandardScan.RowsOf(bare[i])[0];
    assert rows[at - 1] == previous[|previous| - 1] == StandardScan.RowsOf(bare[i - 1])[|previous| - 1];
    assert StandardScan.FaultAt(rows, false, at).Some?;
  }

  /** A standard listing can be read in exactly the orders that keep tags apart. */
  lemma ReadableExactlyWhenTagsApart(order: seq<ForeignKey>)
    requires forall k :: 0 <= k < |order| ==> Paired(order[k])
    ensures StandardScan.CleanUpTo(FallbackRows(order), false, |FallbackRows(order)| + 1) <==> TagsApart(order)
  {
    var bare := Unindexed(order);
    assert forall k :: 0 <= k < |order| ==> Paired(order[k]) && StandardScan.Reportable(bare[k]);
    if TagsApart(order) {
      forall i | 0 < i < |bare|
        ensures StandardScan.KeyTag(bare[i - 1]) != StandardScan.KeyTag(bare[i])
      {
        assert StandardScan.KeyTag(order[i - 1]) != StandardScan.KeyTag(order[i]);
      }
      StandardScan.ListingIsClean(bare, FallbackRows(order));
    } else {
      var i :| 0 < i < |order| && StandardScan.KeyTag(order[i - 1]) == StandardScan.KeyTag(order[i]);
      SharedTagIsAFault(order, i);
    }
  }

  lemma StorableIsIndexed(key: ForeignKey)
    requires Storable(key)
    ensures key.indexed
  {
  }

  lemma FilledOnce(keys: seq<ForeignKey>, answer: Answer, filled: seq<ForeignKey>, filled': seq<ForeignKey>)
    requires Filled(keys, answer, filled) && Filled(keys, answer, filled')
    ensures filled == filled'
  {
    hide Supported, ReadRows, PairsOf;
  }

  /**
  The two sources agree: list any catalogue through either, in any order that keeps each
  constraint's rows together and narrowed or not, and the selected constraints are the same.
  */
  lemma SourcesAgree(catalogue: seq<ForeignKey>, stored: seq<IndexRow>, answer: Answer, schema: string,
                     selector: Selector, order: seq<ForeignKey>, order': seq<ForeignKey>,
                     rows: seq<InnoDBScan.Row>, rows': seq<StandardScan.Row>,
                     viaPrimary: seq<ForeignKey>, viaFallback: seq<ForeignKey>)
    requires Catalogue(catalogue) && Supports(stored, catalogue) && Honest(answer, stored)
    requires Covers(order, catalogue, schema, selector) && Covers(order', catalogue, schema, selector)
    requires TagsApart(order')
    requires InnoDBScan.Lists(order, rows) && StandardScan.Lists(Unindexed(order'), rows')
    requires PrimaryAnswers(Delivered(Delivery(rows, false)), schema, selector, viaPrimary)
    requires FallbackAnswers(Delivered(Delivery(rows', false)), answer, schema, selector, viaFallback)
    ensures viaPrimary == viaFallback
  {
    hide Selects, Supports, Honest, TagsApart, InnoDBScan.Lists, StandardScan.Lists;
    hide InnoDBScan.Storable;
    var keys :| InnoDBScan.Lists(keys, rows) && Selects(viaPrimary, keys, schema, selector);
    InnoDBScan.ListingIsInjective(keys, order, rows);
    var bare, filled :| && StandardScan.Lists(bare, rows') && Filled(bare, answer, filled)
                        && Selects(viaFallback, filled, schema, selector);
    StandardScan.ListingIsInjective(bare, Unindexed(order'), rows');
    forall key | key in order'
      ensures key in catalogue && key.indexed
    {
      StorableIsIndexed(key);
    }
    FillingRestores(order', catalogue, stored, answer);
    FilledOnce(bare, answer, filled, order');
    CoveringOrdersAgree(order, order', catalogue, schema, selector);
    SelectionIsDetermined(viaPrimary, order, viaFallback, order', schema, selector);
  }

  /** Both listings exist and both sources can read them. */
  lemma BothSourcesReadable(catalogue: seq<ForeignKey>, stored: seq<IndexRow>, answer: Answer, schema: string,
                            selector: Selector, order: seq<ForeignKey>)
    requires Catalogue(catalogue) && Supports(stored, catalogue) && Honest(answer, stored)
    requires Covers(order, catalogue, schema, selector) && TagsApart(order)
    ensures InnoDBScan.StorableList(order) && StandardScan.ReportableList(Unindexed(order))
    ensures PrimaryReadable(Delivered(Delivery(PrimaryRows(order), false)))
    ensures FallbackReadable(Delivered(Delivery(FallbackRows(order), false)), answer)
  {
    PrimaryOrderIsStorable(order, catalogue, schema, selector);
    assert InnoDBScan.Lists(order, PrimaryRows(order));
    var bare := Unindexed(order);
    forall i | 0 < i < |bare|
      ensures StandardScan.KeyTag(bare[i - 1]) != StandardScan.KeyTag(bare[i])
    {
      assert StandardScan.KeyTag(order[i - 1]) != StandardScan.KeyTag(order[i]);
    }
    assert StandardScan.Lists(bare, FallbackRows(order));
    forall key | key in order
      ensures key in catalogue && key.indexed
    {
      assert Storable(key);
    }
    FillingRestores(order, catalogue, stored, answer);
  }

  /**
  Skipping the fallback statement for a schema no metadata row can spell loses nothing:
  the primary answer is then empty-handed too.
  */
  lemma UnrepresentableSchemaAgrees(order: seq<ForeignKey>, schema: string, selector: Selector,
                                    viaPrimary: seq<ForeignKey>, skipped: seq<ForeignKey>)
    requires forall key :: key in order ==> key.childSchema != schema && key.parentSchema != schema
    requires Selects(viaPrimary, order, schema, selector) && Selects(skipped, [], schema, selector)
    ensures viaPrimary == skipped
  {
    forall key, table | table in selector.tables && Answers(key, schema, selector, table)
      ensures multiset(order)[key] == 0
    {
      assert key !in order;
    }
    assert SameAnswers([], order, schema, selector);
    SelectionIsDetermined(skipped, [], viaPrimary, order, schema, selector);
  }
}
