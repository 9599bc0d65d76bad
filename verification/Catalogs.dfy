/**
 * Replay-history catalogs: immutable objects over disjoint ranges of a bucket grid, and the
 * continuity segments a catalog publishes for them.
 */
module Catalogs {
  import opened Results
  import opened Sorting
  import opened Grids
  import opened GapReports

  datatype Segment = Segment(startMs: int, endMs: int, rowCount: int)

  /** Objects patched in from REST carry the open and the receipt digest in their key. */
  datatype SourceKey = ArchiveKey(name: string) | RestKey(openMs: int, receipt: Digest)

  datatype HistoryObject = HistoryObject(
    sha: Digest, key: SourceKey, firstOpenMs: int, lastOpenMs: int, segments: seq<Segment>)

  datatype Catalog = Catalog(objects: seq<HistoryObject>, segments: seq<Segment>)

  datatype CatalogError =
    | RepeatedSourceKey
    | PartialOverlap
    | ObjectsOverlap
    | EmptyCatalog
    | BoundsNotAligned
    | BucketRangeMisaligned

  // ----- segments

  ghost predicate ValidSegment(g: Grid, s: Segment)
    requires ValidGrid(g)
  {
    g.aligned(s.startMs) && g.aligned(s.endMs) && s.startMs <= s.endMs && s.rowCount == |Walk(g, s.startMs, s.endMs)|
  }

  /** In order and disjoint, possibly touching. */
  ghost predicate OrderedSegments(g: Grid, segments: seq<Segment>)
    requires ValidGrid(g)
  {
    segments != [] ==>
      var front, last := segments[..|segments| - 1], segments[|segments| - 1];
      && OrderedSegments(g, front) && ValidSegment(g, last)
      && (front != [] ==> front[|front| - 1].endMs < last.startMs)
  }

  /** What a catalog publishes: a missing bucket separates consecutive segments. */
  ghost predicate ContinuitySegments(g: Grid, segments: seq<Segment>)
    requires ValidGrid(g)
  {
    segments != [] ==>
      var front, last := segments[..|segments| - 1], segments[|segments| - 1];
      && ContinuitySegments(g, front) && ValidSegment(g, last)
      && (front != [] ==> g.next(front[|front| - 1].endMs) < last.startMs)
  }

  lemma {:induction false} ContinuityAt(g: Grid, segments: seq<Segment>, i: nat)
    requires ValidGrid(g) && ContinuitySegments(g, segments) && i < |segments|
    ensures ValidSegment(g, segments[i])
    ensures i > 0 ==> g.next(segments[i - 1].endMs) < segments[i].startMs
    ensures ContinuitySegments(g, segments[..i])
  {
    var front := segments[..|segments| - 1];
    if i < |front| {
      ContinuityAt(g, front, i);
      assert front[..i] == segments[..i];
    }
  }

  lemma OrderedSnoc(g: Grid, front: seq<Segment>, last: Segment)
    requires ValidGrid(g) && OrderedSegments(g, front) && ValidSegment(g, last)
    requires front != [] ==> front[|front| - 1].endMs < last.startMs
    ensures OrderedSegments(g, front + [last])
  {
    assert (front + [last])[..|front|] == front;
  }

  lemma ContinuitySnoc(g: Grid, front: seq<Segment>, last: Segment)
    requires ValidGrid(g)
    ensures ContinuitySegments(g, front + [last]) <==>
              && ContinuitySegments(g, front) && ValidSegment(g, last)
              && (front != [] ==> g.next(front[|front| - 1].endMs) < last.startMs)
  {
    assert (front + [last])[..|front|] == front;
  }

  /** The bucket opens that segments cover. */
  ghost function OpensOf(g: Grid, segments: seq<Segment>): set<int>
    requires ValidGrid(g)
  {
    if segments == [] then {}
    else OpensOf(g, segments[..|segments| - 1]) + AsSet(Walk(g, segments[|segments| - 1].startMs, segments[|segments| - 1].endMs))
  }

  ghost predicate Covers(segments: seq<Segment>, t: int) {
    exists i | 0 <= i < |segments| :: segments[i].startMs <= t <= segments[i].endMs
  }

  lemma CoversSnoc(front: seq<Segment>, last: Segment, t: int)
    ensures Covers(front + [last], t) <==> Covers(front, t) || last.startMs <= t <= last.endMs
  {
    var all := front + [last];
    if Covers(front, t) {
      var i :| 0 <= i < |front| && front[i].startMs <= t <= front[i].endMs;
      assert all[i] == front[i];
    }
    assert all[|front|] == last;
  }

  lemma {:induction false} OpenIsCovered(g: Grid, segments: seq<Segment>, t: int)
    requires ValidGrid(g) && OrderedSegments(g, segments)
    ensures t in OpensOf(g, segments) <==> g.aligned(t) && Covers(segments, t)
  {
    hide ValidGrid, Walk, Covers, OpensOf, OrderedSegments, ValidSegment;
    if segments == [] {
      NothingCovered(g, t);
    } else {
      var front, last := segments[..|segments| - 1], segments[|segments| - 1];
      assert segments == front + [last];
      OrderedFront(g, segments);
      OpenIsCovered(g, front, t);
      OpensOfSnoc(g, front, last);
      WalkMember(g, last, t);
      CoversSnoc(front, last, t);
    }
  }

  lemma NothingCovered(g: Grid, t: int)
    requires ValidGrid(g)
    ensures t !in OpensOf(g, []) && !Covers([], t)
  {
  }

  lemma OrderedFront(g: Grid, segments: seq<Segment>)
    requires ValidGrid(g) && OrderedSegments(g, segments) && segments != []
    ensures OrderedSegments(g, segments[..|segments| - 1]) && ValidSegment(g, segments[|segments| - 1])
  {
  }

  lemma WalkMember(g: Grid, s: Segment, t: int)
    requires ValidGrid(g) && ValidSegment(g, s)
    ensures t in AsSet(Walk(g, s.startMs, s.endMs)) <==> g.aligned(t) && s.startMs <= t <= s.endMs
  {
    hide ValidGrid, Walk;
    WalkListsWindow(g, s.startMs, s.endMs);
  }

  /** Merging one more segment into the list built so far. */
  function AppendSegment(g: Grid, merged: seq<Segment>, s: Segment): seq<Segment> {
    if merged != [] && s.startMs == g.next(merged[|merged| - 1].endMs) then
      var last := merged[|merged| - 1];
      merged[..|merged| - 1] + [Segment(last.startMs, s.endMs, last.rowCount + s.rowCount)]
    else merged + [s]
  }

  function MergeAll(g: Grid, segments: seq<Segment>): seq<Segment> {
    if segments == [] then [] else AppendSegment(g, MergeAll(g, segments[..|segments| - 1]), segments[|segments| - 1])
  }

  /** The segments of all objects, in catalog order. */
  function AllSegments(objects: seq<HistoryObject>): seq<Segment> {
    if objects == [] then [] else AllSegments(objects[..|objects| - 1]) + objects[|objects| - 1].segments
  }

  lemma MergeSnoc(g: Grid, segments: seq<Segment>, s: Segment)
    ensures MergeAll(g, segments + [s]) == AppendSegment(g, MergeAll(g, segments), s)
  {
    assert (segments + [s])[..|segments|] == segments;
  }

  lemma AllSegmentsSnoc(objects: seq<HistoryObject>, item: HistoryObject)
    ensures AllSegments(objects + [item]) == AllSegments(objects) + item.segments
  {
    assert (objects + [item])[..|objects|] == objects;
  }

  lemma NextPrefix<T>(before: seq<T>, s: seq<T>, j: nat)
    requires j < |s|
    ensures before + s[..j + 1] == before + s[..j] + [s[j]]
  {
  }

  /** One step of the merge: a touching segment extends the last one. */
  method MergeNext(g: Grid, merged: seq<Segment>, segment: Segment) returns (r: seq<Segment>)
    ensures r == AppendSegment(g, merged, segment)
  {
    if merged != [] && segment.startMs == g.next(merged[|merged| - 1].endMs) {
      var previous := merged[|merged| - 1];
      r := merged[..|merged| - 1] + [Segment(previous.startMs, segment.endMs, previous.rowCount + segment.rowCount)];
    } else {
      r := merged + [segment];
    }
  }

  /** Appends one object's segments to the merged list. */
  method MergeObject(g: Grid, merged: seq<Segment>, ghost before: seq<Segment>, item: HistoryObject) returns (r: seq<Segment>)
    requires merged == MergeAll(g, before)
    ensures r == MergeAll(g, before + item.segments)
  {
    hide MergeAll, AppendSegment;
    r := merged;
    assert before + item.segments[..0] == before;
    for j := 0 to |item.segments|
      invariant r == MergeAll(g, before + item.segments[..j])
    {
      var segment := item.segments[j];
      MergeSnoc(g, before + item.segments[..j], segment);
      NextPrefix(before, item.segments, j);
      r := MergeNext(g, r, segment);
    }
    assert item.segments[..|item.segments|] == item.segments;
  }

  method MergeSegments(g: Grid, objects: seq<HistoryObject>) returns (merged: seq<Segment>)
    ensures merged == MergeAll(g, AllSegments(objects))
  {
    merged := [];
    for i := 0 to |objects|
      invariant merged == MergeAll(g, AllSegments(objects[..i]))
    {
      AllSegmentsSnoc(objects[..i], objects[i]);
      assert objects[..i + 1] == objects[..i] + [objects[i]];
      merged := MergeObject(g, merged, AllSegments(objects[..i]), objects[i]);
    }
    assert objects[..|objects|] == objects;
  }

  lemma AdjacentWalks(g: Grid, a: int, b: int, d: int)
    requires ValidGrid(g) && g.aligned(a) && g.aligned(b) && g.aligned(d) && a <= b && g.next(b) <= d
    ensures Walk(g, a, d) == Walk(g, a, b) + Walk(g, g.next(b), d)
  {
    WalkSplits(g, a, g.next(b), d);
  }

  lemma OpensOfSnoc(g: Grid, segments: seq<Segment>, s: Segment)
    requires ValidGrid(g)
    ensures OpensOf(g, segments + [s]) == OpensOf(g, segments) + AsSet(Walk(g, s.startMs, s.endMs))
  {
    assert (segments + [s])[..|segments|] == segments;
  }

  /** Touching segments fuse into one that covers the opens of both. */
  lemma SegmentsFuse(g: Grid, front: seq<Segment>, last: Segment, s: Segment)
    requires ValidGrid(g) && ContinuitySegments(g, front + [last]) && ValidSegment(g, s)
    requires s.startMs == g.next(last.endMs)
    ensures var fused := Segment(last.startMs, s.endMs, last.rowCount + s.rowCount);
            && ContinuitySegments(g, front + [fused])
            && OpensOf(g, front + [fused]) == OpensOf(g, front + [last]) + AsSet(Walk(g, s.startMs, s.endMs))
  {
    var fused := Segment(last.startMs, s.endMs, last.rowCount + s.rowCount);
    ContinuitySnoc(g, front, last);
    AdjacentWalks(g, last.startMs, last.endMs, s.endMs);
    ContinuitySnoc(g, front, fused);
    OpensOfSnoc(g, front, fused);
    OpensOfSnoc(g, front, last);
    UnionOfWalks(Walk(g, last.startMs, last.endMs), Walk(g, s.startMs, s.endMs));
  }

  lemma SegmentStandsApart(g: Grid, merged: seq<Segment>, s: Segment)
    requires ValidGrid(g) && ContinuitySegments(g, merged) && ValidSegment(g, s)
    requires merged != [] ==> merged[|merged| - 1].endMs < s.startMs != g.next(merged[|merged| - 1].endMs)
    ensures ContinuitySegments(g, merged + [s])
  {
    ContinuitySnoc(g, merged, s);
    if merged != [] { ContinuityAt(g, merged, |merged| - 1); }
  }

  /** Merging keeps the covered opens, the outer bounds and a missing bucket between segments. */
  lemma MergeStep(g: Grid, merged: seq<Segment>, s: Segment)
    requires ValidGrid(g) && ContinuitySegments(g, merged) && ValidSegment(g, s)
    requires merged != [] ==> merged[|merged| - 1].endMs < s.startMs
    ensures var after := AppendSegment(g, merged, s);
            && ContinuitySegments(g, after)
            && OpensOf(g, after) == OpensOf(g, merged) + AsSet(Walk(g, s.startMs, s.endMs))
            && after != [] && after[|after| - 1].endMs == s.endMs
            && after[0].startMs == (if merged == [] then s.startMs else merged[0].startMs)
  {
    hide ValidGrid, OpensOf, ContinuitySegments, Walk;
    var after := AppendSegment(g, merged, s);
    if merged != [] && s.startMs == g.next(merged[|merged| - 1].endMs) {
      var last, front := merged[|merged| - 1], merged[..|merged| - 1];
      assert merged == front + [last];
      SegmentsFuse(g, front, last, s);
      assert after == front + [Segment(last.startMs, s.endMs, last.rowCount + s.rowCount)];
    } else {
      assert after == merged + [s];
      OpensOfSnoc(g, merged, s);
      SegmentStandsApart(g, merged, s);
    }
  }

  lemma UnionOfWalks(a: seq<int>, b: seq<int>)
    ensures AsSet(a + b) == AsSet(a) + AsSet(b)
  {
  }

  lemma {:induction false} MergeKeepsOpens(g: Grid, segments: seq<Segment>)
    requires ValidGrid(g) && OrderedSegments(g, segments)
    ensures ContinuitySegments(g, MergeAll(g, segments))
    ensures OpensOf(g, MergeAll(g, segments)) == OpensOf(g, segments)
    ensures segments != [] ==>
              var m := MergeAll(g, segments);
              m != [] && m[0].startMs == segments[0].startMs && m[|m| - 1].endMs == segments[|segments| - 1].endMs
  {
    if segments != [] {
      var front, last := segments[..|segments| - 1], segments[|segments| - 1];
      MergeKeepsOpens(g, front);
      if front != [] { assert front[|front| - 1] == segments[|front| - 1]; }
      MergeStep(g, MergeAll(g, front), last);
    }
  }

  // ----- _source_bucket_count

  /** Counts the buckets of a range by walking the successor; rejects an end off the grid. */
  method SourceBucketCount(g: Grid, startMs: int, endMs: int) returns (r: Result<int, CatalogError>)
    requires ValidGrid(g) && g.aligned(startMs)
    ensures r.Success? <==> startMs > endMs || g.aligned(endMs)
    ensures r.Success? ==> r.value == |Walk(g, startMs, endMs)|
  {
    if startMs > endMs {
      return Success(0);
    }
    var count := 1;
    var cursor := startMs;
    SinglePointWalk(g, startMs);
    while cursor < endMs
      invariant g.aligned(cursor) && startMs <= cursor <= endMs
      invariant count == |Walk(g, startMs, cursor)|
      decreases endMs - cursor
    {
      var nextMs := g.next(cursor);
      if nextMs <= cursor || nextMs > endMs {
        return Failure(BucketRangeMisaligned);
      }
      WalkEnds(g, startMs, nextMs);
      cursor := nextMs;
      count := count + 1;
    }
    return Success(count);
  }

  /** On a fixed-width grid that count is the distance divided by the step, plus one. */
  lemma {:induction false} FixedBucketCount(step: int, anchor: int, a: int, n: nat)
    requires step > 0 && FixedGrid(step, anchor).aligned(a) && ValidGrid(FixedGrid(step, anchor))
    ensures |Walk(FixedGrid(step, anchor), a, a + n * step)| == n + 1
    decreases n
  {
    hide ValidGrid, Walk, FixedGrid;
    var g := FixedGrid(step, anchor);
    if n == 0 {
      SinglePointWalk(g, a);
    } else {
      FixedStep(step, anchor, a);
      FixedBucketCount(step, anchor, a + step, n - 1);
      MultipleSplits(n, step);
      WalkBegins(g, a, a + n * step);
    }
  }

  lemma FixedStep(step: int, anchor: int, a: int)
    requires step > 0 && FixedGrid(step, anchor).aligned(a) && ValidGrid(FixedGrid(step, anchor))
    ensures FixedGrid(step, anchor).next(a) == a + step && FixedGrid(step, anchor).aligned(a + step)
  {
    StepUp(FixedGrid(step, anchor), a);
  }

  lemma MultipleSplits(n: int, step: int)
    requires n > 0 && step > 0
    ensures n * step == step + (n - 1) * step && n * step >= 0
  {
  }

  lemma WalkBegins(g: Grid, a: int, b: int)
    requires ValidGrid(g) && a <= b
    ensures Walk(g, a, b) == [a] + Walk(g, g.next(a), b)
  {
  }

  // ----- _scan_manifest_gaps

  lemma {:induction false} AllAbsent(s: seq<int>, p: set<int>)
    requires forall t | t in s :: t !in p
    ensures Absent(s, p) == s
  {
    AbsentDependsOnMembers(s, p, {});
    if s != [] {
      AllAbsent(s[..|s| - 1], {});
      assert s == s[..|s| - 1] + [s[|s| - 1]];
    }
  }

  lemma {:induction false} NoneAbsent(s: seq<int>, p: set<int>)
    requires forall t | t in s :: t in p
    ensures Absent(s, p) == []
  {
    if s != [] {
      var front, last := s[..|s| - 1], s[|s| - 1];
      assert last in s && forall t | t in front :: t in s;
      NoneAbsent(front, p);
      assert Absent(s, p) == Absent(front, p) + (if last in p then [] else [last]);
    }
  }

  /** A hole up to `os` followed by covered opens through `oe` adds exactly the hole. */
  lemma HoleThenSegment(g: Grid, opens: set<int>, start: int, cursor: int, os: int, oe: int)
    requires ValidGrid(g) && g.aligned(start) && g.aligned(cursor) && g.aligned(os) && g.aligned(oe)
    requires start <= cursor <= os <= oe
    requires forall t | g.aligned(t) && cursor <= t < os :: t !in opens
    requires forall t | g.aligned(t) && os <= t <= oe :: t in opens
    ensures AbsentInWindow(g, start, oe, opens) == AbsentInWindow(g, start, g.prev(cursor), opens) + Walk(g, cursor, g.prev(os))
  {
    HoleAdds(g, opens, start, cursor, os, oe);
    WalkListsWindow(g, os, oe);
    NoneAbsent(Walk(g, os, oe), opens);
    WalkSplits(g, start, os, oe);
    AbsentAppends(Walk(g, start, g.prev(os)), Walk(g, os, oe), opens);
  }

  lemma HoleAdds(g: Grid, opens: set<int>, start: int, cursor: int, os: int, oe: int)
    requires ValidGrid(g) && g.aligned(start) && g.aligned(cursor) && g.aligned(os) && start <= cursor <= os
    requires forall t | g.aligned(t) && cursor <= t < os :: t !in opens
    ensures AbsentInWindow(g, start, g.prev(os), opens) == AbsentInWindow(g, start, g.prev(cursor), opens) + Walk(g, cursor, g.prev(os))
  {
    assert g.next(g.prev(os)) == os && g.next(g.prev(cursor)) == cursor;
    if cursor == os {
      assert Walk(g, cursor, g.prev(os)) == [];
    } else {
      assert cursor <= g.prev(os);
      WalkSplits(g, start, cursor, g.prev(os));
      AbsentAppends(Walk(g, start, g.prev(cursor)), Walk(g, cursor, g.prev(os)), opens);
      WalkListsWindow(g, cursor, g.prev(os));
      AllAbsent(Walk(g, cursor, g.prev(os)), opens);
    }
  }

  lemma {:induction false} ContinuityIsOrdered(g: Grid, segments: seq<Segment>)
    requires ValidGrid(g) && ContinuitySegments(g, segments)
    ensures OrderedSegments(g, segments)
  {
    if segments != [] {
      var front, last := segments[..|segments| - 1], segments[|segments| - 1];
      ContinuityIsOrdered(g, front);
    }
  }

  lemma {:induction false} SegmentsInOrder(g: Grid, segments: seq<Segment>, i: nat, j: nat)
    requires ValidGrid(g) && ContinuitySegments(g, segments) && i <= j < |segments|
    ensures segments[i].startMs <= segments[j].startMs
    ensures i < j ==> g.next(segments[i].endMs) < segments[j].startMs
    ensures ValidSegment(g, segments[j])
  {
    ContinuityAt(g, segments, j);
    if i < j {
      SegmentsInOrder(g, segments, i, j - 1);
    }
  }

  /** Where the scan stands after `i` segments. */
  ghost predicate ScanAt(g: Grid, segments: seq<Segment>, i: nat, start: int, end: int, cursor: int)
    requires ValidGrid(g) && i <= |segments|
  {
    && g.aligned(cursor) && start <= cursor
    && (cursor == start || g.prev(cursor) <= end)
    && (cursor == start || (i > 0 && cursor <= g.next(segments[i - 1].endMs)))
    && (forall k | 0 <= k < i :: segments[k].endMs < cursor || end < cursor || end < segments[k].startMs)
  }

  /** Opens of the window before the next segment are not covered by any segment. */
  lemma HoleIsUncovered(g: Grid, segments: seq<Segment>, i: nat, start: int, end: int, cursor: int, t: int)
    requires ValidGrid(g) && ContinuitySegments(g, segments) && i <= |segments|
    requires ScanAt(g, segments, i, start, end, cursor)
    requires g.aligned(t) && cursor <= t <= end
    requires i < |segments| ==> t < segments[i].startMs
    ensures t !in OpensOf(g, segments)
  {
    ContinuityIsOrdered(g, segments);
    OpenIsCovered(g, segments, t);
    forall k | 0 <= k < |segments| ensures !(segments[k].startMs <= t <= segments[k].endMs) {
      if k >= i { SegmentsInOrder(g, segments, i, k); }
    }
  }

  lemma SegmentIsCovered(g: Grid, segments: seq<Segment>, i: nat, t: int)
    requires ValidGrid(g) && ContinuitySegments(g, segments) && i < |segments|
    requires g.aligned(t) && segments[i].startMs <= t <= segments[i].endMs
    ensures t in OpensOf(g, segments)
  {
    ContinuityIsOrdered(g, segments);
    OpenIsCovered(g, segments, t);
  }

  /** The absent opens found when the scan's cursor has moved up to `cursor`. */
  ghost predicate ScanFound(g: Grid, segments: seq<Segment>, start: int, cursor: int, gaps: seq<Gap>)
    requires ValidGrid(g)
  {
    var absent := AbsentInWindow(g, start, g.prev(cursor), OpensOf(g, segments));
    && gaps == Compress(g, absent)
    && (absent != [] ==> g.next(absent[|absent| - 1]) < cursor)
  }

  lemma NextIsMonotone(g: Grid, a: int, b: int)
    requires ValidGrid(g) && g.aligned(a) && g.aligned(b) && a <= b
    ensures g.next(a) <= g.next(b)
  {
    if a < b { assert g.next(a) <= b < g.next(b); }
  }

  lemma ScanMoves(g: Grid, segments: seq<Segment>, i: nat, start: int, end: int, cursor: int, os: int, oe: int)
    requires ValidGrid(g) && ContinuitySegments(g, segments) && i < |segments| && g.aligned(start) && g.aligned(end)
    requires ScanAt(g, segments, i, start, end, cursor)
    requires os == MaxInt(start, segments[i].startMs) && oe == MinInt(end, segments[i].endMs) && os <= oe
    ensures cursor <= os && g.aligned(os) && g.aligned(oe)
    ensures ScanAt(g, segments, i + 1, start, end, g.next(oe))
  {
    ContinuityAt(g, segments, i);
    assert g.prev(g.next(oe)) == oe;
    if i > 0 { SegmentsInOrder(g, segments, i - 1, i); }
    assert cursor <= os <= oe < g.next(oe);
    NextIsMonotone(g, oe, segments[i].endMs);
  }

  /** One overlapping segment: the hole before it, if any, becomes one gap. */
  lemma ScanStep(g: Grid, segments: seq<Segment>, i: nat, start: int, end: int, cursor: int, gaps: seq<Gap>, os: int, oe: int)
    requires ValidGrid(g) && ContinuitySegments(g, segments) && i < |segments| && g.aligned(start) && g.aligned(end)
    requires ScanAt(g, segments, i, start, end, cursor) && ScanFound(g, segments, start, cursor, gaps)
    requires os == MaxInt(start, segments[i].startMs) && oe == MinInt(end, segments[i].endMs) && os <= oe
    ensures cursor <= os && g.aligned(os) && g.aligned(oe)
    ensures ScanAt(g, segments, i + 1, start, end, g.next(oe))
    ensures ScanFound(g, segments, start, g.next(oe),
                      if cursor < os then gaps + [Gap(cursor, g.prev(os), |Walk(g, cursor, g.prev(os))|)] else gaps)
  {
    ScanMoves(g, segments, i, start, end, cursor, os, oe);
    var opens := OpensOf(g, segments);
    forall t | g.aligned(t) && cursor <= t < os ensures t !in opens {
      HoleIsUncovered(g, segments, i, start, end, cursor, t);
    }
    forall t | g.aligned(t) && os <= t <= oe ensures t in opens {
      SegmentIsCovered(g, segments, i, t);
    }
    HoleThenSegment(g, opens, start, cursor, os, oe);
    ScanFoundGrows(g, segments, start, cursor, gaps, os, oe);
  }

  lemma ScanFoundGrows(g: Grid, segments: seq<Segment>, start: int, cursor: int, gaps: seq<Gap>, os: int, oe: int)
    requires ValidGrid(g) && g.aligned(cursor) && g.aligned(os) && g.aligned(oe) && cursor <= os <= oe
    requires ScanFound(g, segments, start, cursor, gaps)
    requires AbsentInWindow(g, start, oe, OpensOf(g, segments))
          == AbsentInWindow(g, start, g.prev(cursor), OpensOf(g, segments)) + Walk(g, cursor, g.prev(os))
    ensures ScanFound(g, segments, start, g.next(oe),
                      if cursor < os then gaps + [Gap(cursor, g.prev(os), |Walk(g, cursor, g.prev(os))|)] else gaps)
  {
    assert g.prev(g.next(oe)) == oe && g.next(g.prev(os)) == os;
    var before := AbsentInWindow(g, start, g.prev(cursor), OpensOf(g, segments));
    if cursor < os {
      assert cursor <= g.prev(os);
      CompressAppendsRun(g, before, cursor, g.prev(os));
      WalkEnds(g, cursor, g.prev(os));
    } else {
      assert before + Walk(g, cursor, g.prev(os)) == before;
    }
  }


  lemma ScanSkips(g: Grid, segments: seq<Segment>, i: nat, start: int, end: int, cursor: int)
    requires ValidGrid(g) && ContinuitySegments(g, segments) && i < |segments|
    requires ScanAt(g, segments, i, start, end, cursor)
    requires MaxInt(start, segments[i].startMs) > MinInt(end, segments[i].endMs) && start <= end
    ensures ScanAt(g, segments, i + 1, start, end, cursor)
  {
    ContinuityAt(g, segments, i);
    if i > 0 { SegmentsInOrder(g, segments, i - 1, i); }
  }

  lemma ScanEnds(g: Grid, segments: seq<Segment>, start: int, end: int, cursor: int, gaps: seq<Gap>)
    requires ValidGrid(g) && ContinuitySegments(g, segments) && g.aligned(start) && g.aligned(end) && start <= end
    requires ScanAt(g, segments, |segments|, start, end, cursor) && ScanFound(g, segments, start, cursor, gaps)
    ensures Compress(g, AbsentInWindow(g, start, end, OpensOf(g, segments)))
         == if cursor <= end then gaps + [Gap(cursor, end, |Walk(g, cursor, end)|)] else gaps
  {
    hide ValidGrid, Walk, Compress, Absent, OpensOf, ContinuitySegments;
    var opens := OpensOf(g, segments);
    StepDown(g, cursor, cursor);
    StepUp(g, end);
    if cursor <= end {
      forall t | g.aligned(t) && cursor <= t < g.next(end) ensures t !in opens {
        BelowNext(g, t, end);
        HoleIsUncovered(g, segments, |segments|, start, end, cursor, t);
      }
      HoleAdds(g, opens, start, cursor, g.next(end), end);
      CompressAppendsRun(g, AbsentInWindow(g, start, g.prev(cursor), opens), cursor, end);
    } else {
      WalkStopsBefore(g, start, cursor, end);
    }
  }

  /** Covered buckets counted so far: what is left of the walked prefix once its absent opens are gone. */
  ghost predicate ScanCounted(g: Grid, segments: seq<Segment>, start: int, cursor: int, rows: int)
    requires ValidGrid(g)
  {
    rows + |AbsentInWindow(g, start, g.prev(cursor), OpensOf(g, segments))| == |Walk(g, start, g.prev(cursor))|
  }

  lemma CountGrows(g: Grid, segments: seq<Segment>, i: nat, start: int, end: int, cursor: int, rows: int, os: int, oe: int)
    requires ValidGrid(g) && ContinuitySegments(g, segments) && i < |segments| && g.aligned(start) && g.aligned(end)
    requires ScanAt(g, segments, i, start, end, cursor) && ScanCounted(g, segments, start, cursor, rows)
    requires os == MaxInt(start, segments[i].startMs) && oe == MinInt(end, segments[i].endMs) && os <= oe
    ensures g.aligned(os) && g.aligned(oe)
    ensures ScanCounted(g, segments, start, g.next(oe), rows + |Walk(g, os, oe)|)
  {
    ScanMoves(g, segments, i, start, end, cursor, os, oe);
    var opens := OpensOf(g, segments);
    forall t | g.aligned(t) && cursor <= t < os ensures t !in opens {
      HoleIsUncovered(g, segments, i, start, end, cursor, t);
    }
    forall t | g.aligned(t) && os <= t <= oe ensures t in opens {
      SegmentIsCovered(g, segments, i, t);
    }
    HoleThenSegment(g, opens, start, cursor, os, oe);
    assert g.next(g.prev(os)) == os && g.prev(g.next(oe)) == oe;
    WalkSplits(g, start, os, oe);
    if cursor < os {
      assert cursor <= g.prev(os);
      WalkSplits(g, start, cursor, g.prev(os));
    }
  }

  lemma CountEnds(g: Grid, segments: seq<Segment>, start: int, end: int, cursor: int, rows: int)
    requires ValidGrid(g) && ContinuitySegments(g, segments) && g.aligned(start) && g.aligned(end) && start <= end
    requires ScanAt(g, segments, |segments|, start, end, cursor) && ScanCounted(g, segments, start, cursor, rows)
    ensures rows + |AbsentInWindow(g, start, end, OpensOf(g, segments))| == |Walk(g, start, end)|
  {
    var opens := OpensOf(g, segments);
    assert g.next(g.prev(cursor)) == cursor && g.prev(g.next(end)) == end;
    if cursor <= end {
      forall t | g.aligned(t) && cursor <= t < g.next(end) ensures t !in opens {
        HoleIsUncovered(g, segments, |segments|, start, end, cursor, t);
      }
      HoleAdds(g, opens, start, cursor, g.next(end), end);
      WalkSplits(g, start, cursor, end);
    } else {
      WalkStopsBefore(g, start, cursor, end);
    }
  }

  /**
   * Gap scan over the segment index of a pinned catalog: the reported gaps are the maximal runs of
   * the window's uncovered opens, and scanned plus missing buckets make up the window.
   */
  method ScanManifestGaps(g: Grid, segments: seq<Segment>, start: int, end: int) returns (r: Result<GapReport, CatalogError>)
    requires ValidGrid(g) && ContinuitySegments(g, segments)
    ensures r.Success? <==> start > end || (g.aligned(start) && g.aligned(end))
    ensures r.Success? ==>
              && r.value.gaps == Compress(g, AbsentInWindow(g, start, end, OpensOf(g, segments)))
              && r.value.missingBars == TotalMissing(r.value.gaps)
              && r.value.scannedBars + |AbsentInWindow(g, start, end, OpensOf(g, segments))| == |Walk(g, start, end)|
              && !r.value.truncated
  {
    if start > end {
      return Success(GapReport([], 0, 0, false));
    }
    if !g.aligned(start) || !g.aligned(end) {
      return Failure(BoundsNotAligned);
    }
    var gaps: seq<Gap> := [];
    var cursor := start;
    var presentRows: nat := 0;
    assert g.next(g.prev(start)) == start;
    for i := 0 to |segments|
      invariant ScanAt(g, segments, i, start, end, cursor)
      invariant ScanFound(g, segments, start, cursor, gaps)
      invariant ScanCounted(g, segments, start, cursor, presentRows)
    {
      var segment := segments[i];
      var overlapStart := MaxInt(start, segment.startMs);
      var overlapEnd := MinInt(end, segment.endMs);
      if overlapStart > overlapEnd {
        ScanSkips(g, segments, i, start, end, cursor);
        continue;
      }
      ScanStep(g, segments, i, start, end, cursor, gaps, overlapStart, overlapEnd);
      CountGrows(g, segments, i, start, end, cursor, presentRows, overlapStart, overlapEnd);
      if cursor < overlapStart {
        var missing := SourceBucketCount(g, cursor, g.prev(overlapStart));
        gaps := gaps + [Gap(cursor, g.prev(overlapStart), missing.value)];
      }
      var rows := SourceBucketCount(g, overlapStart, overlapEnd);
      presentRows := presentRows + rows.value;
      cursor := MaxInt(cursor, g.next(overlapEnd));
    }
    ScanEnds(g, segments, start, end, cursor, gaps);
    CountEnds(g, segments, start, end, cursor, presentRows);
    if cursor <= end {
      var missing := SourceBucketCount(g, cursor, end);
      gaps := gaps + [Gap(cursor, end, missing.value)];
    }
    var total := SumMissing(gaps);
    return Success(GapReport(gaps, total, presentRows, false));
  }
}