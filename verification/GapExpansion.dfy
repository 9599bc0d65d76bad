/** Expanding reported gaps back into the individual bucket opens that must be probed. */
module GapExpansion {
  import opened Results
  import opened Sorting
  import opened Grids
  import opened GapReports

  /** `count` steps of the successor starting at `start`. */
  function Orbit(next: int -> int, start: int, count: nat): (r: seq<int>)
    ensures |r| == count
  {
    if count == 0 then [] else Orbit(next, start, count - 1) + [Nth(next, start, count - 1)]
  }

  /** Every one of the first `count` points has a later successor. */
  ghost predicate Advances(next: int -> int, start: int, count: nat) {
    forall i: nat | i < count :: Nth(next, start, i) < next(Nth(next, start, i))
  }

  /** What the enumeration accepts: the end is exactly `declared - 1` advancing steps from the start. */
  ghost predicate Enumerable(next: int -> int, gap: Gap) {
    && gap.missingBars >= 1
    && Advances(next, gap.startMs, gap.missingBars)
    && Nth(next, gap.startMs, gap.missingBars - 1) == gap.endMs
  }

  lemma {:induction false} NthGrows(next: int -> int, start: int, count: nat, i: nat, j: nat)
    requires Advances(next, start, count) && i <= j <= count
    ensures Nth(next, start, i) <= Nth(next, start, j)
    ensures i < j ==> Nth(next, start, i) < Nth(next, start, j)
  {
    if i < j {
      NthGrows(next, start, count, i, j - 1);
      assert Nth(next, start, j - 1) < next(Nth(next, start, j - 1));
    }
  }

  lemma {:induction false} OrbitPoints(next: int -> int, start: int, count: nat)
    ensures forall i | 0 <= i < count :: Orbit(next, start, count)[i] == Nth(next, start, i)
  {
    if count > 0 { OrbitPoints(next, start, count - 1); }
  }

  lemma AdvancesExtends(next: int -> int, start: int, count: nat)
    requires Advances(next, start, count) && Nth(next, start, count) < next(Nth(next, start, count))
    ensures Advances(next, start, count + 1)
  {
  }

  /**
   * The enumeration needs no assumption on the successor: it ends on every input and accepts
   * exactly the gaps whose end is `missingBars - 1` advancing steps from their start.
   */
  method EnumerateGapOpens(next: int -> int, gap: Gap) returns (r: Result<seq<int>, GapError>)
    ensures r.Success? <==> Enumerable(next, gap)
    ensures r.Success? ==> r.value == Orbit(next, gap.startMs, gap.missingBars)
  {
    if gap.startMs > gap.endMs || gap.missingBars < 1 {
      RejectsReversed(next, gap);
      return Failure(BoundsInvalid);
    }
    hide Orbit, Nth, Advances, Enumerable;
    var opens: seq<int> := [];
    var cursor := gap.startMs;
    OrbitStarts(next, gap.startMs);
    while cursor <= gap.endMs
      invariant |opens| <= gap.missingBars
      invariant opens == Orbit(next, gap.startMs, |opens|)
      invariant cursor == Nth(next, gap.startMs, |opens|)
      invariant Advances(next, gap.startMs, |opens|)
      invariant |opens| > 0 ==> opens[|opens| - 1] == Nth(next, gap.startMs, |opens| - 1)
      decreases gap.missingBars - |opens|
    {
      OrbitStep(next, gap.startMs, |opens|);
      opens := opens + [cursor];
      if |opens| > gap.missingBars {
        RejectsTooMany(next, gap, |opens| - 1);
        return Failure(CountMismatch);
      }
      var nextOpenMs := next(cursor);
      if nextOpenMs <= cursor {
        RejectsStuck(next, gap, |opens| - 1);
        return Failure(DoesNotAdvance);
      }
      AdvancesExtends(next, gap.startMs, |opens| - 1);
      cursor := nextOpenMs;
    }
    if opens[|opens| - 1] != gap.endMs || |opens| != gap.missingBars {
      RejectsOtherEnd(next, gap, |opens|);
      return Failure(CountMismatch);
    }
    AcceptsEnd(next, gap);
    return Success(opens);
  }

  lemma OrbitStarts(next: int -> int, start: int)
    ensures Orbit(next, start, 0) == [] && Nth(next, start, 0) == start && Advances(next, start, 0)
  {
  }

  lemma OrbitStep(next: int -> int, start: int, n: nat)
    ensures Orbit(next, start, n + 1) == Orbit(next, start, n) + [Nth(next, start, n)]
    ensures Nth(next, start, n + 1) == next(Nth(next, start, n))
  {
  }

  lemma AcceptsEnd(next: int -> int, gap: Gap)
    requires gap.missingBars >= 1 && Advances(next, gap.startMs, gap.missingBars)
    requires Nth(next, gap.startMs, gap.missingBars - 1) == gap.endMs
    ensures Enumerable(next, gap)
  {
  }

  lemma RejectsStuck(next: int -> int, gap: Gap, n: nat)
    requires n < gap.missingBars && next(Nth(next, gap.startMs, n)) <= Nth(next, gap.startMs, n)
    ensures !Enumerable(next, gap)
  {
  }

  lemma RejectsReversed(next: int -> int, gap: Gap)
    requires gap.startMs > gap.endMs || gap.missingBars < 1
    ensures !Enumerable(next, gap)
  {
    if Enumerable(next, gap) {
      NthGrows(next, gap.startMs, gap.missingBars, 0, gap.missingBars - 1);
    }
  }

  lemma RejectsTooMany(next: int -> int, gap: Gap, n: nat)
    requires n >= 1 && n == gap.missingBars && Advances(next, gap.startMs, n)
    requires Nth(next, gap.startMs, n) <= gap.endMs
    ensures !Enumerable(next, gap)
  {
    NthGrows(next, gap.startMs, n, n - 1, n);
  }

  lemma RejectsOtherEnd(next: int -> int, gap: Gap, n: nat)
    requires 1 <= n <= gap.missingBars && Advances(next, gap.startMs, n)
    requires gap.endMs < Nth(next, gap.startMs, n)
    requires n != gap.missingBars || Nth(next, gap.startMs, n - 1) != gap.endMs
    ensures !Enumerable(next, gap)
  {
    if Enumerable(next, gap) && n < gap.missingBars {
      NthGrows(next, gap.startMs, gap.missingBars, n, gap.missingBars - 1);
    }
  }

  // ----- whole reports

  /** All opens of the given gaps, in report order. */
  function AllOrbits(next: int -> int, gaps: seq<Gap>): seq<int> {
    if gaps == [] then []
    else
      var last := gaps[|gaps| - 1];
      AllOrbits(next, gaps[..|gaps| - 1]) + (if last.missingBars >= 0 then Orbit(next, last.startMs, last.missingBars) else [])
  }

  ghost predicate ReportAccepted(next: int -> int, report: GapReport, requireSingletons: bool) {
    && (forall gap | gap in report.gaps :: Enumerable(next, gap))
    && (requireSingletons ==> forall gap | gap in report.gaps :: gap.startMs == gap.endMs && gap.missingBars == 1)
    && |AllOrbits(next, report.gaps)| == report.missingBars
    && |AsSet(AllOrbits(next, report.gaps))| == report.missingBars
  }

  /** Accepts exactly the well-counted, duplicate-free reports and returns their opens sorted. */
  method OpensFromGapScan(next: int -> int, report: GapReport, requireSingletons: bool)
    returns (r: Result<seq<int>, GapError>)
    ensures r.Success? <==> ReportAccepted(next, report, requireSingletons)
    ensures r.Success? ==> r.value == Sort(LessEq, AllOrbits(next, report.gaps))
  {
    var opens: seq<int> := [];
    for i := 0 to |report.gaps|
      invariant opens == AllOrbits(next, report.gaps[..i])
      invariant forall gap | gap in report.gaps[..i] :: Enumerable(next, gap)
      invariant requireSingletons ==> forall gap | gap in report.gaps[..i] :: gap.startMs == gap.endMs && gap.missingBars == 1
    {
      var item := report.gaps[i];
      assert item in report.gaps;
      if requireSingletons && (item.startMs != item.endMs || item.missingBars != 1) {
        return Failure(NotSingleton);
      }
      var expanded := EnumerateGapOpens(next, item);
      if expanded.Failure? {
        return Failure(expanded.error);
      }
      assert report.gaps[..i + 1] == report.gaps[..i] + [item];
      opens := opens + expanded.value;
    }
    assert report.gaps[..|report.gaps|] == report.gaps;
    if |opens| != report.missingBars || |AsSet(opens)| != |opens| {
      return Failure(DuplicateOrMissing);
    }
    return Success(Sort(LessEq, opens));
  }

  // ----- composition with the scanners

  /** On a valid grid, a counted run is enumerable and its orbit is the walk. */
  lemma {:induction false} OrbitIsWalk(g: Grid, a: int, b: int)
    requires ValidGrid(g) && g.aligned(a) && g.aligned(b) && a <= b
    ensures Orbit(g.next, a, |Walk(g, a, b)|) == Walk(g, a, b)
    ensures Enumerable(g.next, Gap(a, b, |Walk(g, a, b)|))
  {
    var w := Walk(g, a, b);
    OrbitPoints(g.next, a, |w|);
    forall i | 0 <= i < |w| ensures w[i] == Orbit(g.next, a, |w|)[i] {
      WalkIsOrbit(g, a, b, i);
    }
    WalkEnds(g, a, b);
    WalkIsOrbit(g, a, b, |w| - 1);
  }

  lemma {:induction false} AllOrbitsIsExpand(g: Grid, gaps: seq<Gap>)
    requires ValidGrid(g) && MaximalRuns(g, gaps)
    ensures AllOrbits(g.next, gaps) == Expand(g, gaps)
    ensures forall gap | gap in gaps :: Enumerable(g.next, gap)
  {
    if gaps != [] {
      var front, last := gaps[..|gaps| - 1], gaps[|gaps| - 1];
      assert gaps == front + [last];
      AllOrbitsIsExpand(g, front);
      OrbitIsWalk(g, last.startMs, last.endMs);
    }
  }

  /**
   * Expansion inverts reporting: for every increasing sequence of grid points, the report of its
   * maximal runs is accepted and expands to exactly that sequence.
   */
  lemma ExpansionInvertsReport(g: Grid, points: seq<int>, scanned: nat)
    requires ValidGrid(g) && GridPoints(g, points)
    ensures var report := GapReport(Compress(g, points), |points|, scanned, false);
            && ReportAccepted(g.next, report, false)
            && Sort(LessEq, AllOrbits(g.next, report.gaps)) == points
  {
    ExpandCompress(g, points);
    AllOrbitsIsExpand(g, Compress(g, points));
    IncreasingSize(points);
    assert SortedBy(LessEq, points);
    SortKeepsSorted(LessEq, points);
  }

  /** Reporting inverts expansion: maximal runs are recovered from the opens they expand to. */
  lemma ReportInvertsExpansion(g: Grid, gaps: seq<Gap>)
    requires ValidGrid(g) && MaximalRuns(g, gaps)
    ensures GridPoints(g, AllOrbits(g.next, gaps))
    ensures Compress(g, AllOrbits(g.next, gaps)) == gaps
  {
    AllOrbitsIsExpand(g, gaps);
    CompressExpand(g, gaps);
  }

  /**
   * An untruncated fixed-step report lists the maximal absent runs of its window, and expanding it
   * returns every absent grid point of the window and nothing else.
   */
  lemma UntruncatedReportIsExact(opens: seq<int>, startMs: int, endMs: int, limit: int, report: GapReport)
    requires |AsSet(opens)| <= limit
    requires StepsByInterval(WindowGrid(startMs))
    requires report.gaps == Compress(WindowGrid(startMs), AbsentInWindow(WindowGrid(startMs), startMs, endMs, Kept(opens, limit)))
    requires report.missingBars == TotalMissing(report.gaps)
    ensures MaximalRuns(WindowGrid(startMs), report.gaps)
    ensures ReportAccepted(WindowGrid(startMs).next, report, false)
    ensures var expanded := Sort(LessEq, AllOrbits(WindowGrid(startMs).next, report.gaps));
            && Increasing(expanded)
            && forall t :: t in expanded <==> startMs <= t <= endMs && WindowGrid(startMs).aligned(t) && t !in opens
  {
    var g := WindowGrid(startMs);
    WindowGridSteps(startMs);
    KeptUntruncated(opens, limit);
    var absent := AbsentInWindow(g, startMs, endMs, Kept(opens, limit));
    WalkListsWindow(g, startMs, endMs);
    AbsentIsFilter(Walk(g, startMs, endMs), Kept(opens, limit));
    ExpandCompress(g, absent);
    ExpansionInvertsReport(g, absent, report.scannedBars);
    ReportFieldsDecide(g.next, report, GapReport(report.gaps, |absent|, report.scannedBars, false));
  }

  lemma ReportFieldsDecide(next: int -> int, a: GapReport, b: GapReport)
    requires a.gaps == b.gaps && a.missingBars == b.missingBars && ReportAccepted(next, b, false)
    ensures ReportAccepted(next, a, false)
  {
  }
}
