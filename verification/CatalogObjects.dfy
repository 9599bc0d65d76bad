/** Placement of patches between catalog objects, and the merge that builds the next catalog. */
module CatalogObjects {
  import opened Results
  import opened Sorting
  import opened Sums
  import opened Grids
  import opened GapReports
  import opened Catalogs

  ghost predicate ValidObject(g: Grid, o: HistoryObject)
    requires ValidGrid(g)
  {
    && o.segments != [] && ContinuitySegments(g, o.segments)
    && o.firstOpenMs == o.segments[0].startMs && o.lastOpenMs == o.segments[|o.segments| - 1].endMs
    && o.firstOpenMs <= o.lastOpenMs
  }

  function Contains(o: HistoryObject, t: int): bool { o.firstOpenMs <= t <= o.lastOpenMs }

  function Overlaps(a: HistoryObject, b: HistoryObject): bool {
    a.firstOpenMs <= b.lastOpenMs && a.lastOpenMs >= b.firstOpenMs
  }

  /** Ranges in order and pairwise disjoint. */
  ghost predicate Apart(objects: seq<HistoryObject>) {
    forall i, j | 0 <= i < j < |objects| :: objects[i].lastOpenMs < objects[j].firstOpenMs
  }

  ghost predicate ValidObjects(g: Grid, objects: seq<HistoryObject>)
    requires ValidGrid(g)
  {
    Apart(objects) && forall o | o in objects :: ValidObject(g, o)
  }

  /** A published catalog: valid disjoint objects and the merged segments of exactly those objects. */
  ghost predicate ValidCatalog(g: Grid, c: Catalog)
    requires ValidGrid(g)
  {
    c.objects != [] && ValidObjects(g, c.objects) && c.segments == MergeAll(g, AllSegments(c.objects))
  }

  function EarliestOpen(c: Catalog): int
    requires c.objects != []
  {
    c.objects[0].firstOpenMs
  }

  function LatestOpen(c: Catalog): int
    requires c.objects != []
  {
    c.objects[|c.objects| - 1].lastOpenMs
  }

  // ----- opens of a catalog

  ghost predicate OpenInObjects(g: Grid, objects: seq<HistoryObject>, t: int)
    requires ValidGrid(g)
  {
    exists o | o in objects :: t in OpensOf(g, o.segments)
  }

  lemma {:induction false} OpensOfConcat(g: Grid, a: seq<Segment>, b: seq<Segment>)
    requires ValidGrid(g)
    ensures OpensOf(g, a + b) == OpensOf(g, a) + OpensOf(g, b)
  {
    if b == [] {
      assert a + b == a;
    } else {
      var front, last := b[..|b| - 1], b[|b| - 1];
      OpensOfConcat(g, a, front);
      OpensOfSnoc(g, a + front, last);
      assert a + b == a + front + [last];
    }
  }

  lemma {:induction false} OpensOfObjects(g: Grid, objects: seq<HistoryObject>)
    requires ValidGrid(g)
    ensures forall t :: t in OpensOf(g, AllSegments(objects)) <==> OpenInObjects(g, objects, t)
  {
    if objects != [] {
      var front, last := objects[..|objects| - 1], objects[|objects| - 1];
      assert objects == front + [last];
      OpensOfObjects(g, front);
      OpensOfConcat(g, AllSegments(front), last.segments);
    }
  }

  lemma {:induction false} OrderedConcat(g: Grid, a: seq<Segment>, b: seq<Segment>)
    requires ValidGrid(g) && OrderedSegments(g, a) && OrderedSegments(g, b)
    requires a != [] && b != [] ==> a[|a| - 1].endMs < b[0].startMs
    ensures OrderedSegments(g, a + b)
  {
    if b == [] {
      assert a + b == a;
    } else {
      hide ValidGrid, OrderedSegments;
      var front, last := b[..|b| - 1], b[|b| - 1];
      OrderedParts(g, b);
      OrderedConcat(g, a, front);
      LastOfConcat(a, front);
      OrderedSnoc(g, a + front, last);
      ConcatSnoc(a, b);
    }
  }

  lemma OrderedParts(g: Grid, segments: seq<Segment>)
    requires ValidGrid(g) && OrderedSegments(g, segments) && segments != []
    ensures var front, last := segments[..|segments| - 1], segments[|segments| - 1];
            && OrderedSegments(g, front) && ValidSegment(g, last)
            && (front != [] ==> front[|front| - 1].endMs < last.startMs && front[0] == segments[0])
  {
    hide ValidGrid;
  }

  lemma LastOfConcat<T>(a: seq<T>, b: seq<T>)
    ensures a + b != [] ==> (a + b)[|a + b| - 1] == if b == [] then a[|a| - 1] else b[|b| - 1]
  {
  }

  ghost predicate SpansObjects(segments: seq<Segment>, objects: seq<HistoryObject>) {
    if objects == [] then segments == []
    else
      && segments != []
      && segments[0].startMs == objects[0].firstOpenMs
      && segments[|segments| - 1].endMs == objects[|objects| - 1].lastOpenMs
  }

  lemma ObjectAppends(g: Grid, front: seq<HistoryObject>, last: HistoryObject)
    requires ValidGrid(g) && ValidObject(g, last)
    requires OrderedSegments(g, AllSegments(front)) && SpansObjects(AllSegments(front), front)
    requires front != [] ==> front[|front| - 1].lastOpenMs < last.firstOpenMs
    ensures OrderedSegments(g, AllSegments(front) + last.segments)
    ensures SpansObjects(AllSegments(front) + last.segments, front + [last])
  {
    hide ValidGrid, OrderedSegments, ContinuitySegments, AllSegments;
    ContinuityIsOrdered(g, last.segments);
    OrderedConcat(g, AllSegments(front), last.segments);
  }

  lemma ValidObjectsFront(g: Grid, objects: seq<HistoryObject>)
    requires ValidGrid(g) && ValidObjects(g, objects) && objects != []
    ensures var front, last := objects[..|objects| - 1], objects[|objects| - 1];
            && ValidObjects(g, front) && ValidObject(g, last)
            && (front != [] ==> front[|front| - 1].lastOpenMs < last.firstOpenMs)
  {
    hide ValidGrid, ValidObject;
    assert objects[|objects| - 1] in objects;
    assert forall o | o in objects[..|objects| - 1] :: o in objects;
  }

  lemma NoObjectsOrdered(g: Grid)
    requires ValidGrid(g)
    ensures OrderedSegments(g, AllSegments([])) && SpansObjects(AllSegments([]), [])
  {
  }

  /** Valid disjoint objects have ordered segments with the objects' outer bounds. */
  lemma {:induction false} ObjectsAreOrdered(g: Grid, objects: seq<HistoryObject>)
    requires ValidGrid(g) && ValidObjects(g, objects)
    ensures OrderedSegments(g, AllSegments(objects)) && SpansObjects(AllSegments(objects), objects)
  {
    hide ValidGrid, ValidObjects, ValidObject, OrderedSegments, SpansObjects, AllSegments;
    if objects == [] {
      NoObjectsOrdered(g);
    } else {
      var front, last := objects[..|objects| - 1], objects[|objects| - 1];
      ValidObjectsFront(g, objects);
      ObjectsAreOrdered(g, front);
      ObjectAppends(g, front, last);
      assert objects == front + [last];
      AllSegmentsSnoc(front, last);
    }
  }

  /**
   * The published segments index exactly the opens of the objects, and span the catalog's bounds.
   */
  lemma CatalogSegmentsIndexObjects(g: Grid, c: Catalog)
    requires ValidGrid(g) && ValidCatalog(g, c)
    ensures ContinuitySegments(g, c.segments) && c.segments != []
    ensures c.segments[0].startMs == EarliestOpen(c) && c.segments[|c.segments| - 1].endMs == LatestOpen(c)
    ensures forall t :: t in OpensOf(g, c.segments) <==> OpenInObjects(g, c.objects, t)
  {
    ObjectsAreOrdered(g, c.objects);
    MergeKeepsOpens(g, AllSegments(c.objects));
    OpensOfObjects(g, c.objects);
  }

  lemma SegmentInBounds(g: Grid, segments: seq<Segment>, i: nat)
    requires ValidGrid(g) && ContinuitySegments(g, segments) && i < |segments|
    ensures segments[0].startMs <= segments[i].startMs && segments[i].endMs <= segments[|segments| - 1].endMs
  {
    hide ValidGrid, OpensOf, OrderedSegments, ContinuitySegments, Walk;
    SegmentsInOrder(g, segments, 0, i);
    SegmentsInOrder(g, segments, i, |segments| - 1);
    ContinuityAt(g, segments, i);
    StepUp(g, segments[i].endMs);
  }

  /** Every open of a valid object lies inside the object's bounds. */
  lemma ObjectOpensInBounds(g: Grid, o: HistoryObject, t: int)
    requires ValidGrid(g) && ValidObject(g, o) && t in OpensOf(g, o.segments)
    ensures Contains(o, t) && g.aligned(t)
  {
    hide ValidGrid, OpensOf, OrderedSegments, ContinuitySegments, Walk;
    ContinuityIsOrdered(g, o.segments);
    OpenIsCovered(g, o.segments, t);
    var i :| 0 <= i < |o.segments| && o.segments[i].startMs <= t <= o.segments[i].endMs;
    SegmentInBounds(g, o.segments, i);
  }

  // ----- _gap_placement_blocker

  datatype BlockedObject = BlockedObject(sha: Digest, blockedBars: nat, firstBlockedMs: int, lastBlockedMs: int)

  datatype Blocker = Blocker(blockedBars: int, safeBars: int, objects: seq<BlockedObject>)

  /** The missing opens inside one object's bounds. */
  function CoveredBy(o: HistoryObject, missing: seq<int>): seq<int> {
    if missing == [] then []
    else
      var front, last := missing[..|missing| - 1], missing[|missing| - 1];
      CoveredBy(o, front) + (if Contains(o, last) then [last] else [])
  }

  /** How many objects contain `t`. */
  function Hits(objects: seq<HistoryObject>, t: int): nat {
    if objects == [] then 0
    else Hits(objects[..|objects| - 1], t) + (if Contains(objects[|objects| - 1], t) then 1 else 0)
  }

  function Blocked(objects: seq<HistoryObject>, missing: seq<int>): (r: nat) {
    if objects == [] then 0
    else Blocked(objects[..|objects| - 1], missing) + |CoveredBy(objects[|objects| - 1], missing)|
  }

  /** The missing opens that lie inside some object. */
  ghost function InsideSome(objects: seq<HistoryObject>, missing: seq<int>): seq<int> {
    if missing == [] then []
    else
      var front, last := missing[..|missing| - 1], missing[|missing| - 1];
      InsideSome(objects, front) + (if Hits(objects, last) > 0 then [last] else [])
  }

  /** At most one of several disjoint objects contains a time, and none when the last bound is before it. */
  lemma {:induction false} HitsAtMostOnce(objects: seq<HistoryObject>, t: int)
    requires Apart(objects) && forall o | o in objects :: o.firstOpenMs <= o.lastOpenMs
    ensures Hits(objects, t) <= 1
    ensures Hits(objects, t) == 1 ==> t <= objects[|objects| - 1].lastOpenMs
    ensures Hits(objects, t) == 0 <==> forall o | o in objects :: !Contains(o, t)
  {
    hide Apart;
    if objects != [] {
      var front, last := objects[..|objects| - 1], objects[|objects| - 1];
      assert objects == front + [last];
      ApartFront(objects);
      HitsAtMostOnce(front, t);
    }
  }

  lemma ApartFront(objects: seq<HistoryObject>)
    requires Apart(objects) && objects != []
    ensures Apart(objects[..|objects| - 1])
    ensures |objects| > 1 ==> objects[|objects| - 2].lastOpenMs < objects[|objects| - 1].firstOpenMs
  {
  }

  lemma {:induction false} BlockedSnoc(objects: seq<HistoryObject>, front: seq<int>, t: int)
    ensures Blocked(objects, front + [t]) == Blocked(objects, front) + Hits(objects, t)
  {
    assert (front + [t])[..|front|] == front;
    if objects != [] {
      BlockedSnoc(objects[..|objects| - 1], front, t);
    }
  }

  /** Counting per object or per missing open gives the same number when objects are disjoint. */
  lemma {:induction false} BlockedCountsOpens(objects: seq<HistoryObject>, missing: seq<int>)
    requires Apart(objects) && forall o | o in objects :: o.firstOpenMs <= o.lastOpenMs
    ensures Blocked(objects, missing) == |InsideSome(objects, missing)| <= |missing|
  {
    if missing == [] {
      BlockedOfNothing(objects);
    } else {
      var front, last := missing[..|missing| - 1], missing[|missing| - 1];
      assert missing == front + [last];
      BlockedCountsOpens(objects, front);
      BlockedSnoc(objects, front, last);
      HitsAtMostOnce(objects, last);
    }
  }

  lemma {:induction false} BlockedOfNothing(objects: seq<HistoryObject>)
    ensures Blocked(objects, []) == 0
  {
    if objects != [] { BlockedOfNothing(objects[..|objects| - 1]); }
  }

  lemma {:induction false} CoveredByMembers(o: HistoryObject, missing: seq<int>)
    ensures forall t :: t in CoveredBy(o, missing) <==> t in missing && Contains(o, t)
  {
    if missing != [] {
      var front, last := missing[..|missing| - 1], missing[|missing| - 1];
      assert missing == front + [last];
      CoveredByMembers(o, front);
    }
  }

  // ----- what a blocker says

  ghost function Inside(o: HistoryObject): int -> bool {
    (t: int) => o.firstOpenMs <= t <= o.lastOpenMs
  }

  ghost function Blocking(missing: seq<int>): HistoryObject -> bool {
    (o: HistoryObject) => exists t | t in missing :: o.firstOpenMs <= t <= o.lastOpenMs
  }

  ghost const BLOCKED_BARS: BlockedObject -> int := (b: BlockedObject) => b.blockedBars

  /** How many missing opens lie inside one object, and the first and last of them. */
  ghost predicate BlockSays(o: HistoryObject, missing: seq<int>, b: BlockedObject) {
    var inside := Filter(Inside(o), missing);
    && inside != [] && b == BlockedObject(o.sha, |inside|, inside[0], inside[|inside| - 1])
  }

  /** One entry for each object that spans a missing open, in catalog order. */
  ghost predicate BlocksSay(objects: seq<HistoryObject>, missing: seq<int>, blocks: seq<BlockedObject>) {
    var blocking := Filter(Blocking(missing), objects);
    |blocks| == |blocking| && forall i | 0 <= i < |blocks| :: BlockSays(blocking[i], missing, blocks[i])
  }

  lemma {:induction false} CoveredByIsFilter(o: HistoryObject, missing: seq<int>)
    ensures CoveredBy(o, missing) == Filter(Inside(o), missing)
  {
    if missing != [] { CoveredByIsFilter(o, missing[..|missing| - 1]); }
  }

  lemma BlocksSnoc(objects: seq<HistoryObject>, o: HistoryObject, missing: seq<int>, blocks: seq<BlockedObject>)
    requires BlocksSay(objects, missing, blocks)
    ensures CoveredBy(o, missing) == [] ==> BlocksSay(objects + [o], missing, blocks)
    ensures CoveredBy(o, missing) != [] ==>
              var covered := CoveredBy(o, missing);
              BlocksSay(objects + [o], missing, blocks + [BlockedObject(o.sha, |covered|, covered[0], covered[|covered| - 1])])
  {
    hide CoveredBy, Filter, BlockSays;
    FilterSnoc(Blocking(missing), objects, o);
    BlockingCovers(o, missing);
    if CoveredBy(o, missing) != [] { CoveredSays(o, missing); }
  }

  lemma BlockingCovers(o: HistoryObject, missing: seq<int>)
    ensures Blocking(missing)(o) <==> CoveredBy(o, missing) != []
  {
    hide CoveredBy;
    CoveredByMembers(o, missing);
    if Blocking(missing)(o) {
      var t :| t in missing && o.firstOpenMs <= t <= o.lastOpenMs;
      assert t in CoveredBy(o, missing);
    }
    if CoveredBy(o, missing) != [] {
      var t := CoveredBy(o, missing)[0];
      assert t in CoveredBy(o, missing);
      assert t in missing && o.firstOpenMs <= t <= o.lastOpenMs;
      assert Blocking(missing)(o);
    }
  }

  lemma CoveredSays(o: HistoryObject, missing: seq<int>)
    requires CoveredBy(o, missing) != []
    ensures var covered := CoveredBy(o, missing);
            BlockSays(o, missing, BlockedObject(o.sha, |covered|, covered[0], covered[|covered| - 1]))
  {
    hide CoveredBy, Filter;
    CoveredByIsFilter(o, missing);
  }

  /** The blocks found among the objects visited so far. */
  ghost predicate BlockerState(objects: seq<HistoryObject>, missing: seq<int>, blocks: seq<BlockedObject>, count: int) {
    && count == Blocked(objects, missing) == CountBy(BLOCKED_BARS, blocks)
    && (blocks == [] <==> forall o, t | o in objects && t in missing :: !Contains(o, t))
    && BlocksSay(objects, missing, blocks)
  }

  lemma NoBlocks(missing: seq<int>)
    ensures BlockerState([], missing, [], 0)
  {
  }

  lemma BlockerSays(objects: seq<HistoryObject>, missing: seq<int>, blocks: seq<BlockedObject>, count: int)
    requires BlockerState(objects, missing, blocks, count)
    ensures count == Blocked(objects, missing) == CountBy(BLOCKED_BARS, blocks)
    ensures blocks == [] <==> forall o, t | o in objects && t in missing :: !Contains(o, t)
    ensures BlocksSay(objects, missing, blocks)
  {
  }

  lemma BlockerStep(objects: seq<HistoryObject>, o: HistoryObject, missing: seq<int>, blocks: seq<BlockedObject>, count: int)
    requires BlockerState(objects, missing, blocks, count)
    ensures var covered := CoveredBy(o, missing);
            if covered == [] then BlockerState(objects + [o], missing, blocks, count)
            else BlockerState(objects + [o], missing, blocks + [BlockedObject(o.sha, |covered|, covered[0], covered[|covered| - 1])], count + |covered|)
  {
    hide BlocksSay, CountBy, CoveredBy;
    var covered := CoveredBy(o, missing);
    CoveredByMembers(o, missing);
    BlocksSnoc(objects, o, missing, blocks);
    assert (objects + [o])[..|objects|] == objects;
    if covered != [] {
      assert covered[0] in covered && o in objects + [o];
      CountSnoc(BLOCKED_BARS, blocks, BlockedObject(o.sha, |covered|, covered[0], covered[|covered| - 1]));
    }
  }

  /** No blocker exactly when every missing open lies outside all object bounds; else one entry for each object in the way. */
  method GapPlacementBlocker(catalog: Catalog, missing: seq<int>) returns (blocker: Option<Blocker>)
    ensures blocker.None? <==> forall o, t | o in catalog.objects && t in missing :: !Contains(o, t)
    ensures blocker.Some? ==>
              && blocker.value.blockedBars == Blocked(catalog.objects, missing)
              && blocker.value.blockedBars + blocker.value.safeBars == |missing|
              && BlocksSay(catalog.objects, missing, blocker.value.objects)
              && blocker.value.blockedBars == CountBy(BLOCKED_BARS, blocker.value.objects)
  {
    hide BlockerState, CoveredBy;
    var blockedBy: seq<BlockedObject> := [];
    var blockedCount := 0;
    NoBlocks(missing);
    for i := 0 to |catalog.objects|
      invariant BlockerState(catalog.objects[..i], missing, blockedBy, blockedCount)
    {
      var item := catalog.objects[i];
      var covered := CoveredBy(item, missing);
      BlockerStep(catalog.objects[..i], item, missing, blockedBy, blockedCount);
      assert catalog.objects[..i + 1] == catalog.objects[..i] + [item];
      if covered == [] {
        continue;
      }
      blockedCount := blockedCount + |covered|;
      blockedBy := blockedBy + [BlockedObject(item.sha, |covered|, covered[0], covered[|covered| - 1])];
    }
    assert catalog.objects[..|catalog.objects|] == catalog.objects;
    BlockerSays(catalog.objects, missing, blockedBy, blockedCount);
    if blockedBy == [] {
      return None;
    }
    return Some(Blocker(blockedCount, |missing| - blockedCount, blockedBy));
  }

  /** For a valid catalog the two parts of a blocker count real opens and neither is negative. */
  lemma BlockerSplitsMissing(g: Grid, catalog: Catalog, missing: seq<int>, blocker: Blocker)
    requires ValidGrid(g) && ValidCatalog(g, catalog)
    requires blocker.blockedBars == Blocked(catalog.objects, missing)
    requires blocker.blockedBars + blocker.safeBars == |missing|
    ensures blocker.blockedBars == |InsideSome(catalog.objects, missing)|
    ensures 0 <= blocker.blockedBars && 0 <= blocker.safeBars
  {
    BlockedCountsOpens(catalog.objects, missing);
  }

  // ----- _merge_catalog_objects

  function ByRange(a: HistoryObject, b: HistoryObject): bool {
    if a.firstOpenMs != b.firstOpenMs then a.firstOpenMs < b.firstOpenMs
    else if a.lastOpenMs != b.lastOpenMs then a.lastOpenMs < b.lastOpenMs
    else a.sha.value <= b.sha.value
  }

  datatype Fate = Keep | Replaced | Conflicting

  function NewKeys(added: seq<HistoryObject>): set<SourceKey> { set o | o in added :: o.key }

  /** What an import does to one object of the current catalog. */
  function FateOf(prior: HistoryObject, added: seq<HistoryObject>): Fate {
    if prior.key in NewKeys(added) then Replaced
    else if forall o | o in added :: !Overlaps(o, prior) then Keep
    else if exists o | o in added :: Overlaps(o, prior) && o.firstOpenMs <= prior.firstOpenMs && o.lastOpenMs >= prior.lastOpenMs
    then Replaced
    else Conflicting
  }

  function Retained(existing: seq<HistoryObject>, added: seq<HistoryObject>): seq<HistoryObject> {
    if existing == [] then []
    else
      var front, last := existing[..|existing| - 1], existing[|existing| - 1];
      Retained(front, added) + (if FateOf(last, added).Keep? then [last] else [])
  }

  ghost predicate KeysDistinct(objects: seq<HistoryObject>) {
    forall i, j | 0 <= i < j < |objects| :: objects[i].key != objects[j].key
  }

  ghost predicate Chained(objects: seq<HistoryObject>) {
    forall i | 0 <= i < |objects| - 1 :: objects[i].lastOpenMs < objects[i + 1].firstOpenMs
  }

  /** Objects of the next catalog in catalog order, before the overlap check. */
  function Combined(existing: seq<HistoryObject>, added: seq<HistoryObject>): seq<HistoryObject> {
    Sort(ByRange, Retained(existing, added) + added)
  }

  ghost predicate MergeAccepted(existing: seq<HistoryObject>, added: seq<HistoryObject>) {
    && KeysDistinct(added)
    && (forall prior | prior in existing :: !FateOf(prior, added).Conflicting?)
    && Chained(Combined(existing, added))
  }

  // ----- the merge rules in plain terms

  /** Two ranges without a common time. */
  ghost predicate Clear(a: HistoryObject, b: HistoryObject) {
    a.lastOpenMs < b.firstOpenMs || b.lastOpenMs < a.firstOpenMs
  }

  /** An object of the catalog that an import leaves alone, replaces by its key, or covers whole. */
  ghost predicate Settled(prior: HistoryObject, added: seq<HistoryObject>) {
    || (exists a | a in added :: a.key == prior.key)
    || (forall a | a in added :: Clear(a, prior))
    || (exists a | a in added :: !Clear(a, prior) && a.firstOpenMs <= prior.firstOpenMs && prior.lastOpenMs <= a.lastOpenMs)
  }

  /** Why a merge is refused. */
  ghost predicate MergeFault(error: CatalogError, existing: seq<HistoryObject>, added: seq<HistoryObject>) {
    match error
    case RepeatedSourceKey => exists i, j | 0 <= i < j < |added| :: added[i].key == added[j].key
    case PartialOverlap => exists prior | prior in existing :: !Settled(prior, added)
    case ObjectsOverlap =>
      exists i | 0 < i < |Combined(existing, added)| ::
        Combined(existing, added)[i].firstOpenMs <= Combined(existing, added)[i - 1].lastOpenMs
    case _ => false
  }

  lemma FateSettles(prior: HistoryObject, added: seq<HistoryObject>)
    ensures FateOf(prior, added).Conflicting? <==> !Settled(prior, added)
    ensures FateOf(prior, added).Keep? <==> forall a | a in added :: a.key != prior.key && Clear(a, prior)
  {
    assert prior.key in NewKeys(added) <==> exists a | a in added :: a.key == prior.key;
    forall a | a in added ensures Overlaps(a, prior) <==> !Clear(a, prior) {}
  }

  lemma FatesSettle(existing: seq<HistoryObject>, added: seq<HistoryObject>)
    ensures forall prior | prior in existing :: FateOf(prior, added).Conflicting? <==> !Settled(prior, added)
  {
    hide FateOf, Settled;
    forall prior | prior in existing ensures FateOf(prior, added).Conflicting? <==> !Settled(prior, added) {
      FateSettles(prior, added);
    }
  }

  lemma {:induction false} RetainedExactly(existing: seq<HistoryObject>, added: seq<HistoryObject>)
    ensures forall o :: o in Retained(existing, added) <==> o in existing && FateOf(o, added).Keep?
  {
    hide FateOf;
    if existing != [] {
      RetainedExactly(existing[..|existing| - 1], added);
      assert existing == existing[..|existing| - 1] + [existing[|existing| - 1]];
    }
  }

  lemma MergedMembers(existing: seq<HistoryObject>, added: seq<HistoryObject>)
    ensures forall o :: o in Combined(existing, added) <==>
              o in added || (o in existing && forall a | a in added :: a.key != o.key && Clear(a, o))
  {
    hide FateOf, Clear, ByRange, Sort, Retained;
    ByRangeIsTotal();
    SortIsSortedPermutation(ByRange, Retained(existing, added) + added);
    SameMembers(Retained(existing, added) + added, Combined(existing, added));
    RetainedExactly(existing, added);
    forall o ensures FateOf(o, added).Keep? <==> forall a | a in added :: a.key != o.key && Clear(a, o) {
      FateSettles(o, added);
    }
  }

  method KeysRepeat(added: seq<HistoryObject>) returns (repeat: bool)
    ensures repeat <==> !KeysDistinct(added)
  {
    var newByKey: map<SourceKey, HistoryObject> := map[];
    for i := 0 to |added|
      invariant newByKey.Keys == NewKeys(added[..i])
      invariant KeysDistinct(added[..i])
    {
      if added[i].key in newByKey {
        return true;
      }
      assert added[..i + 1] == added[..i] + [added[i]];
      newByKey := newByKey[added[i].key := added[i]];
    }
    assert added[..|added|] == added;
    return false;
  }

  /** The objects of the catalog that stay; fails on one that is neither kept nor replaced. */
  method RetainObjects(existing: seq<HistoryObject>, added: seq<HistoryObject>) returns (r: Option<seq<HistoryObject>>)
    ensures r.Some? <==> forall prior | prior in existing :: !FateOf(prior, added).Conflicting?
    ensures r.Some? ==> r.value == Retained(existing, added)
  {
    var retained: seq<HistoryObject> := [];
    for i := 0 to |existing|
      invariant retained == Retained(existing[..i], added)
      invariant forall prior | prior in existing[..i] :: !FateOf(prior, added).Conflicting?
    {
      var prior := existing[i];
      assert prior in existing;
      assert existing[..i + 1] == existing[..i] + [prior];
      match FateOf(prior, added) {
        case Replaced =>
        case Keep => retained := retained + [prior];
        case Conflicting => return None;
      }
    }
    assert existing[..|existing|] == existing;
    return Some(retained);
  }

  method RangesOverlap(objects: seq<HistoryObject>) returns (overlap: bool)
    requires objects != []
    ensures overlap <==> !Chained(objects)
  {
    for i := 1 to |objects|
      invariant forall k | 0 <= k < i - 1 :: objects[k].lastOpenMs < objects[k + 1].firstOpenMs
    {
      if objects[i].firstOpenMs <= objects[i - 1].lastOpenMs {
        assert objects[i - 1].lastOpenMs >= objects[i - 1 + 1].firstOpenMs;
        return true;
      }
    }
    return false;
  }

  /** The next catalog's objects: new ones, and old ones whose key and range no new one takes. */
  method MergeCatalogObjects(existing: seq<HistoryObject>, added: seq<HistoryObject>)
    returns (r: Result<seq<HistoryObject>, CatalogError>)
    ensures r.Success? <==> added == [] || MergeAccepted(existing, added)
    ensures r.Success? ==> r.value == if added == [] then existing else Combined(existing, added)
    ensures r.Success? && added != [] ==>
              && (forall o :: o in r.value <==> o in added || (o in existing && forall a | a in added :: a.key != o.key && Clear(a, o)))
              && (forall i | 0 <= i < |r.value| - 1 :: r.value[i].lastOpenMs < r.value[i + 1].firstOpenMs)
              && (forall i, j | 0 <= i < j < |added| :: added[i].key != added[j].key)
              && (forall prior | prior in existing :: Settled(prior, added))
    ensures r.Failure? ==> MergeFault(r.error, existing, added)
  {
    hide Settled, Clear, FateOf, Combined, Retained;
    if added == [] {
      return Success(existing);
    }
    var repeat := KeysRepeat(added);
    if repeat {
      return Failure(RepeatedSourceKey);
    }
    FatesSettle(existing, added);
    var retained := RetainObjects(existing, added);
    if retained.None? {
      return Failure(PartialOverlap);
    }
    CombinedSorts(existing, added);
    MergedMembers(existing, added);
    var combined := Sort(ByRange, retained.value + added);
    var overlap := RangesOverlap(combined);
    if overlap {
      OverlapIsFault(existing, added);
      return Failure(ObjectsOverlap);
    }
    return Success(combined);
  }

  lemma CombinedSorts(existing: seq<HistoryObject>, added: seq<HistoryObject>)
    ensures Combined(existing, added) == Sort(ByRange, Retained(existing, added) + added)
  {
  }

  lemma OverlapIsFault(existing: seq<HistoryObject>, added: seq<HistoryObject>)
    requires !Chained(Combined(existing, added))
    ensures MergeFault(ObjectsOverlap, existing, added)
  {
    hide Combined;
    var combined := Combined(existing, added);
    var i :| 0 <= i < |combined| - 1 && !(combined[i].lastOpenMs < combined[i + 1].firstOpenMs);
    assert combined[i + 1].firstOpenMs <= combined[i + 1 - 1].lastOpenMs;
  }

  // ----- patches

  /** One REST bar becomes an object of one bucket. */
  ghost predicate Singleton(g: Grid, o: HistoryObject) {
    && g.aligned(o.firstOpenMs) && o.firstOpenMs == o.lastOpenMs
    && o.segments == [Segment(o.firstOpenMs, o.firstOpenMs, 1)]
  }

  lemma SingletonIsValid(g: Grid, o: HistoryObject)
    requires ValidGrid(g) && Singleton(g, o)
    ensures ValidObject(g, o)
    ensures forall t :: t in OpensOf(g, o.segments) <==> t == o.firstOpenMs
  {
    var s := Segment(o.firstOpenMs, o.firstOpenMs, 1);
    SinglePointWalk(g, o.firstOpenMs);
    ContinuitySnoc(g, [], s);
    assert [] + [s] == o.segments;
    OpensOfSnoc(g, [], s);
  }

  /** Singletons for distinct opens outside every existing object. */
  ghost predicate PatchFits(g: Grid, existing: seq<HistoryObject>, added: seq<HistoryObject>) {
    && (forall o | o in added :: Singleton(g, o))
    && (forall i, j | 0 <= i < j < |added| :: added[i].firstOpenMs != added[j].firstOpenMs)
    && KeysDistinct(added)
    && (forall prior, o | prior in existing && o in added :: !Contains(prior, o.firstOpenMs) && prior.key != o.key)
  }

  lemma {:induction false} AllRetained(existing: seq<HistoryObject>, added: seq<HistoryObject>)
    requires forall prior | prior in existing :: FateOf(prior, added).Keep?
    ensures Retained(existing, added) == existing
  {
    if existing != [] {
      var front, last := existing[..|existing| - 1], existing[|existing| - 1];
      assert existing == front + [last] && last in existing;
      assert forall o | o in front :: o in existing;
      AllRetained(front, added);
    }
  }

  ghost predicate PairwiseApart(objects: seq<HistoryObject>) {
    forall i, j | 0 <= i < j < |objects| :: !Overlaps(objects[i], objects[j])
  }

  lemma ByRangeIsTotal()
    ensures TotalPreorder(ByRange)
  {
  }

  /** Sorting objects that do not overlap pairwise puts them apart. */
  lemma SortedApart(objects: seq<HistoryObject>)
    requires PairwiseApart(objects) && forall o | o in objects :: o.firstOpenMs <= o.lastOpenMs
    ensures Apart(Sort(ByRange, objects))
    ensures forall o :: o in Sort(ByRange, objects) <==> o in objects
  {
    ByRangeIsTotal();
    SortIsSortedPermutation(ByRange, objects);
    var s := Sort(ByRange, objects);
    SameMembers(objects, s);
    assert Distinct(objects) by {
      forall i, j | 0 <= i < j < |objects| ensures objects[i] != objects[j] {
        assert objects[i] in objects && !Overlaps(objects[i], objects[j]);
      }
    }
    PermutationKeepsDistinct(objects, s);
    forall i, j | 0 <= i < j < |s| ensures s[i].lastOpenMs < s[j].firstOpenMs {
      assert s[i] in objects && s[j] in objects && ByRange(s[i], s[j]) && s[i] != s[j];
      MembersApart(objects, s[i], s[j]);
    }
  }

  lemma MembersApart(objects: seq<HistoryObject>, a: HistoryObject, b: HistoryObject)
    requires PairwiseApart(objects) && a in objects && b in objects && a != b
    ensures !Overlaps(a, b)
  {
    var i :| 0 <= i < |objects| && objects[i] == a;
    var j :| 0 <= j < |objects| && objects[j] == b;
    if i < j {
      assert !Overlaps(objects[i], objects[j]);
    } else {
      assert !Overlaps(objects[j], objects[i]);
    }
  }

  /** Publishing a patch that fits is accepted, keeps every object, and keeps all ranges disjoint. */
  lemma PatchIsAccepted(g: Grid, existing: seq<HistoryObject>, added: seq<HistoryObject>)
    requires ValidGrid(g) && ValidObjects(g, existing) && PatchFits(g, existing, added)
    ensures MergeAccepted(existing, added)
    ensures ValidObjects(g, Combined(existing, added))
    ensures forall o :: o in Combined(existing, added) <==> o in existing || o in added
  {
    forall prior | prior in existing ensures FateOf(prior, added).Keep? {
      assert prior.key !in NewKeys(added);
      forall o | o in added ensures !Overlaps(o, prior) {
        assert Singleton(g, o) && !Contains(prior, o.firstOpenMs);
      }
    }
    AllRetained(existing, added);
    var all := existing + added;
    PatchPairwiseApart(g, existing, added);
    forall o | o in all ensures ValidObject(g, o) {
      if o in added { SingletonIsValid(g, o); }
    }
    SortedApart(all);
  }

  lemma PatchPairwiseApart(g: Grid, existing: seq<HistoryObject>, added: seq<HistoryObject>)
    requires ValidGrid(g) && ValidObjects(g, existing) && PatchFits(g, existing, added)
    ensures PairwiseApart(existing + added)
  {
    var all := existing + added;
    forall i, j | 0 <= i < j < |all| ensures !Overlaps(all[i], all[j]) {
      if j < |existing| {
        assert all[i] == existing[i] && all[j] == existing[j];
      } else {
        var b := added[j - |existing|];
        assert b in added && Singleton(g, b);
        if i < |existing| {
          assert all[i] == existing[i] && existing[i] in existing;
        } else {
          assert all[i] == added[i - |existing|] && added[i - |existing|] in added;
        }
      }
    }
  }

  /** The next catalog's opens are the prior opens and the patched ones. */
  lemma PatchAddsExactlyItsOpens(g: Grid, existing: seq<HistoryObject>, added: seq<HistoryObject>, t: int)
    requires ValidGrid(g) && ValidObjects(g, existing) && PatchFits(g, existing, added)
    ensures OpenInObjects(g, Combined(existing, added), t)
       <==> OpenInObjects(g, existing, t) || exists o | o in added :: o.firstOpenMs == t
  {
    PatchIsAccepted(g, existing, added);
    forall o | o in added ensures t in OpensOf(g, o.segments) <==> t == o.firstOpenMs {
      SingletonIsValid(g, o);
    }
  }
}
