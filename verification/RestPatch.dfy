/**
 * Patching a pinned replay-history catalog from exchange answers: probe every missing bucket,
 * persist the evidence, publish if the catalog is still current, and audit the result.
 */
module RestPatch {
  import opened Results
  import opened Sorting
  import opened Grids
  import opened GapReports
  import opened GapExpansion
  import opened Catalogs
  import opened CatalogObjects
  import Evidence
  import ExactResponse

  datatype PatchError =
    | InvalidArguments
    | BaseRevisionMismatch
    | TailPrecedesCatalog
    | TailOffGrid
    | UnexpectedGaps
    | PlacementBlocked(blocker: Blocker)
    | HttpFailed
    | ContentTypeNotJson
    | BadResponse(parse: ExactResponse.ParseError)
    | EvidenceFailed(evidence: Evidence.EvidenceError)
    | ObjectWriteFailed
    | CatalogChanged
    | ObjectMissing
    | MergeFailed(merge: CatalogError)
    | EpochReused
    | PublishFailed
    | RollbackFailed
    | AuditFailed
    | ObjectAuditFailed

  /** Errors a run can only raise before it starts to publish. */
  predicate BeforePublication(e: PatchError) {
    e.InvalidArguments? || e.BaseRevisionMismatch? || e.TailPrecedesCatalog? || e.TailOffGrid? || e.UnexpectedGaps?
    || e.PlacementBlocked? || e.HttpFailed? || e.ContentTypeNotJson? || e.BadResponse? || e.EvidenceFailed?
  }

  datatype PatchArgs = PatchArgs(
    baseRevision: Digest, expectedGapCount: int, expectedMissingBars: Option<int>, requiredEndOpenMs: Option<int>)

  // ----- _missing_opens

  ghost function ScanEnd(c: Catalog, args: PatchArgs): int
    requires c.objects != []
  {
    args.requiredEndOpenMs.GetOr(LatestOpen(c))
  }

  /** The last bucket a run must account for: the required end, or the last bucket of the catalog's last object. */
  ghost predicate WindowEnds(c: Catalog, args: PatchArgs, end: int)
    requires c.objects != []
  {
    match args.requiredEndOpenMs
    case Some(required) => end == required
    case None => end == c.objects[|c.objects| - 1].lastOpenMs
  }

  /** Bucket `t` of the window is in no published segment. */
  ghost predicate Uncovered(g: Grid, c: Catalog, end: int, t: int)
    requires c.objects != []
  {
    g.aligned(t) && c.objects[0].firstOpenMs <= t <= end && forall s | s in c.segments :: t < s.startMs || s.endMs < t
  }

  lemma MissingIsUncovered(g: Grid, c: Catalog, end: int)
    requires ValidGrid(g) && ValidCatalog(g, c)
    ensures forall t :: t in Missing(g, c, end) <==> Uncovered(g, c, end, t)
    ensures Increasing(Missing(g, c, end))
  {
    hide ValidGrid, ValidObjects, MergeAll, Missing, OpensOf, Covers, ContinuitySegments, OrderedSegments;
    MissingIsGridPoints(g, c, end);
    CatalogBoundsAligned(g, c);
    ContinuityIsOrdered(g, c.segments);
    forall t ensures t in Missing(g, c, end) <==> Uncovered(g, c, end, t) {
      OpenIsCovered(g, c.segments, t);
      CoveredBySegment(c.segments, t);
    }
  }

  lemma CoveredBySegment(segments: seq<Segment>, t: int)
    ensures Covers(segments, t) <==> exists s | s in segments :: s.startMs <= t <= s.endMs
  {
    if exists s | s in segments :: s.startMs <= t <= s.endMs {
      var s :| s in segments && s.startMs <= t <= s.endMs;
      var i :| 0 <= i < |segments| && segments[i] == s;
    }
  }

  /** The bucket opens from the first one through `end` that the catalog does not cover. */
  ghost function Missing(g: Grid, c: Catalog, end: int): seq<int>
    requires ValidGrid(g) && c.objects != []
  {
    AbsentInWindow(g, EarliestOpen(c), end, OpensOf(g, c.segments))
  }

  ghost predicate TailAccepted(g: Grid, c: Catalog, args: PatchArgs)
    requires c.objects != []
  {
    args.requiredEndOpenMs.Some? ==> LatestOpen(c) <= args.requiredEndOpenMs.value && g.aligned(args.requiredEndOpenMs.value)
  }

  lemma CatalogBoundsAligned(g: Grid, c: Catalog)
    requires ValidGrid(g) && ValidCatalog(g, c)
    ensures g.aligned(EarliestOpen(c)) && g.aligned(LatestOpen(c)) && EarliestOpen(c) <= LatestOpen(c)
    ensures ContinuitySegments(g, c.segments)
    ensures EarliestOpen(c) in OpensOf(g, c.segments)
  {
    CatalogSegmentsIndexObjects(g, c);
    ContinuityAt(g, c.segments, 0);
    ContinuityAt(g, c.segments, |c.segments| - 1);
    if |c.segments| > 1 { SegmentsInOrder(g, c.segments, 0, |c.segments| - 1); }
    SegmentIsCovered(g, c.segments, 0, EarliestOpen(c));
  }

  lemma MissingIsGridPoints(g: Grid, c: Catalog, end: int)
    requires ValidGrid(g) && ValidCatalog(g, c)
    ensures GridPoints(g, Missing(g, c, end))
    ensures forall t :: t in Missing(g, c, end) <==>
              g.aligned(t) && EarliestOpen(c) <= t <= end && t !in OpensOf(g, c.segments)
  {
    CatalogBoundsAligned(g, c);
    WalkListsWindow(g, EarliestOpen(c), end);
    AbsentIsFilter(Walk(g, EarliestOpen(c), end), OpensOf(g, c.segments));
  }

  lemma {:induction false} RunsOfOne(g: Grid, runs: seq<Gap>)
    requires ValidGrid(g) && MaximalRuns(g, runs)
    ensures |runs| <= TotalMissing(runs)
    ensures TotalMissing(runs) == |runs| ==> forall gap | gap in runs :: gap.startMs == gap.endMs && gap.missingBars == 1
  {
    if runs != [] {
      var front, last := runs[..|runs| - 1], runs[|runs| - 1];
      assert runs == front + [last];
      RunsOfOne(g, front);
      WalkEnds(g, last.startMs, last.endMs);
      if last.startMs < last.endMs {
        assert g.next(g.prev(last.endMs)) == last.endMs && last.startMs <= g.prev(last.endMs);
        assert Walk(g, last.startMs, g.prev(last.endMs)) != [];
      }
    }
  }

  lemma CountedReportIsAccepted(g: Grid, points: seq<int>, report: GapReport, requireSingletons: bool)
    requires ValidGrid(g) && GridPoints(g, points)
    requires report.gaps == Compress(g, points) && report.missingBars == TotalMissing(report.gaps)
    requires requireSingletons ==> |report.gaps| == report.missingBars
    ensures report.missingBars == |points|
    ensures ReportAccepted(g.next, report, requireSingletons)
    ensures Sort(LessEq, AllOrbits(g.next, report.gaps)) == points
  {
    ExpandCompress(g, points);
    ExpansionInvertsReport(g, points, report.scannedBars);
    ReportFieldsDecide(g.next, report, GapReport(report.gaps, |points|, report.scannedBars, false));
    if requireSingletons { RunsOfOne(g, report.gaps); }
  }

  /** Walks the catalog grid from its tail to the pinned end. */
  method CheckTail(g: Grid, latestMs: int, scanEndMs: int) returns (r: Result<(), PatchError>)
    requires ValidGrid(g) && g.aligned(latestMs)
    ensures r.Success? <==> latestMs <= scanEndMs && g.aligned(scanEndMs)
    ensures r == Failure(TailPrecedesCatalog) <==> scanEndMs < latestMs
    ensures r.Failure? ==> r.error == TailPrecedesCatalog || r.error == TailOffGrid
  {
    if scanEndMs < latestMs {
      return Failure(TailPrecedesCatalog);
    }
    var cursor := latestMs;
    while cursor < scanEndMs
      invariant g.aligned(cursor) && latestMs <= cursor <= scanEndMs
      decreases scanEndMs - cursor
    {
      var nextOpenMs := g.next(cursor);
      if nextOpenMs <= cursor || nextOpenMs > scanEndMs {
        return Failure(TailOffGrid);
      }
      cursor := nextOpenMs;
    }
    return Success(());
  }

  /** Why the opens to probe cannot be listed. */
  ghost predicate OpensFault(error: PatchError, g: Grid, c: Catalog, args: PatchArgs)
    requires ValidGrid(g) && c.objects != []
  {
    match error
    case TailPrecedesCatalog => args.requiredEndOpenMs.Some? && args.requiredEndOpenMs.value < c.objects[|c.objects| - 1].lastOpenMs
    case TailOffGrid => args.requiredEndOpenMs.Some? && !g.aligned(args.requiredEndOpenMs.value)
    case UnexpectedGaps =>
      forall end | WindowEnds(c, args, end) ::
        || |Compress(g, Missing(g, c, end))| != args.expectedGapCount
        || |Missing(g, c, end)| != (match args.expectedMissingBars case Some(bars) => bars case None => args.expectedGapCount)
    case _ => false
  }

  /**
   * The opens to probe: every uncovered bucket of the window, accepted only when the pinned catalog
   * has exactly the expected gaps and missing buckets.
   */
  method MissingOpens(g: Grid, c: Catalog, args: PatchArgs) returns (r: Result<seq<int>, PatchError>)
    requires ValidGrid(g) && ValidCatalog(g, c)
    ensures r.Success? <==>
              && TailAccepted(g, c, args)
              && |Compress(g, Missing(g, c, ScanEnd(c, args)))| == args.expectedGapCount
              && |Missing(g, c, ScanEnd(c, args))| == args.expectedMissingBars.GetOr(args.expectedGapCount)
    ensures r.Success? ==> r.value == Missing(g, c, ScanEnd(c, args))
    ensures r.Success? ==> |r.value| == (match args.expectedMissingBars case Some(bars) => bars case None => args.expectedGapCount)
    ensures r.Success? ==>
              forall end | WindowEnds(c, args, end) ::
                && Increasing(r.value) && (forall t :: t in r.value <==> Uncovered(g, c, end, t))
                && |Compress(g, r.value)| == args.expectedGapCount
    ensures r.Failure? ==> OpensFault(r.error, g, c, args)
  {
    CatalogBoundsAligned(g, c);
    MissingIsUncovered(g, c, ScanEnd(c, args));
    var scanEndMs := LatestOpen(c);
    if args.requiredEndOpenMs.Some? {
      scanEndMs := args.requiredEndOpenMs.value;
      var tail := CheckTail(g, LatestOpen(c), scanEndMs);
      if tail.Failure? {
        return Failure(tail.error);
      }
    }
    MissingIsGridPoints(g, c, scanEndMs);
    var scan := ScanManifestGaps(g, c.segments, EarliestOpen(c), scanEndMs);
    assert scan.Success?;
    var gaps := scan.value;
    CountedReportIsAccepted(g, Missing(g, c, scanEndMs), gaps, false);
    var requiredMissingBars := args.expectedMissingBars.GetOr(args.expectedGapCount);
    if gaps.truncated || |gaps.gaps| != args.expectedGapCount || gaps.missingBars != requiredMissingBars {
      return Failure(UnexpectedGaps);
    }
    CountedReportIsAccepted(g, Missing(g, c, scanEndMs), gaps, args.expectedMissingBars.None?);
    var opens := OpensFromGapScan(g.next, gaps, args.expectedMissingBars.None?);
    return Success(opens.value);
  }
}
