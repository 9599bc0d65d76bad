/**
 * Gap reports: maximal runs of absent bucket opens, and their expansion back into opens.
 * `RowsGapReport` walks the window point by point; `EnumerateGapOpens` and `OpensFromGapScan`
 * turn reported runs back into the individual opens that must be probed.
 */
module GapReports {
  import opened Results
  import opened Sorting
  import opened Sums
  import opened Grids

  datatype Gap = Gap(startMs: int, endMs: int, missingBars: int)

  datatype GapReport = GapReport(gaps: seq<Gap>, missingBars: int, scannedBars: nat, truncated: bool)

  datatype GapError =
    | BoundsInvalid
    | CountMismatch
    | DoesNotAdvance
    | NotSingleton
    | DuplicateOrMissing

  function LessEq(a: int, b: int): bool { a <= b }

  // ----- specification: absent points and their maximal runs

  /** The points of `s` that are not in `present`, in order. */
  function Absent(s: seq<int>, present: set<int>): (r: seq<int>)
    ensures |r| <= |s|
  {
    if s == [] then []
    else Absent(s[..|s| - 1], present) + (if s[|s| - 1] in present then [] else [s[|s| - 1]])
  }

  function TotalMissing(gaps: seq<Gap>): int {
    if gaps == [] then 0 else TotalMissing(gaps[..|gaps| - 1]) + gaps[|gaps| - 1].missingBars
  }

  /** Adds one absent point after the runs found so far. */
  function AppendPoint(g: Grid, runs: seq<Gap>, t: int): seq<Gap> {
    if runs != [] && g.next(runs[|runs| - 1].endMs) == t then
      var last := runs[|runs| - 1];
      runs[..|runs| - 1] + [Gap(last.startMs, t, last.missingBars + 1)]
    else
      runs + [Gap(t, t, 1)]
  }

  /** The maximal runs of an increasing sequence of grid points. */
  function Compress(g: Grid, points: seq<int>): seq<Gap> {
    if points == [] then [] else AppendPoint(g, Compress(g, points[..|points| - 1]), points[|points| - 1])
  }

  /** The points a list of runs stands for. */
  ghost function Expand(g: Grid, gaps: seq<Gap>): seq<int>
    requires ValidGrid(g)
  {
    if gaps == [] then []
    else Expand(g, gaps[..|gaps| - 1]) + Walk(g, gaps[|gaps| - 1].startMs, gaps[|gaps| - 1].endMs)
  }

  ghost predicate GridPoints(g: Grid, points: seq<int>) {
    Increasing(points) && forall t | t in points :: g.aligned(t)
  }

  /** Runs on the grid, counted right, in order, with at least one present point between two of them. */
  ghost predicate MaximalRuns(g: Grid, gaps: seq<Gap>)
    requires ValidGrid(g)
  {
    && (forall i | 0 <= i < |gaps| ::
          && g.aligned(gaps[i].startMs) && g.aligned(gaps[i].endMs)
          && gaps[i].startMs <= gaps[i].endMs
          && gaps[i].missingBars == |Walk(g, gaps[i].startMs, gaps[i].endMs)|)
    && (forall i | 0 <= i < |gaps| - 1 :: g.next(gaps[i].endMs) < gaps[i + 1].startMs)
  }

  lemma {:induction false} AbsentIsFilter(s: seq<int>, present: set<int>)
    ensures forall t :: t in Absent(s, present) <==> t in s && t !in present
    ensures Increasing(s) ==> Increasing(Absent(s, present))
  {
    if s != [] {
      var front, last := s[..|s| - 1], s[|s| - 1];
      AbsentIsFilter(front, present);
      assert s == front + [last];
      if Increasing(s) && last !in present {
        assert Increasing(front);
        var a := Absent(front, present);
        if a != [] {
          assert a[|a| - 1] in a;
          assert a[|a| - 1] in front;
        }
        IncreasingAppends(a, [last]);
      }
    }
  }

  lemma {:induction false} AbsentAppends(a: seq<int>, b: seq<int>, present: set<int>)
    ensures Absent(a + b, present) == Absent(a, present) + Absent(b, present)
  {
    if b == [] {
      assert a + b == a;
    } else {
      AbsentAppends(a, b[..|b| - 1], present);
      assert (a + b)[..|a + b| - 1] == a + b[..|b| - 1];
    }
  }

  lemma {:induction false} AbsentDependsOnMembers(s: seq<int>, p: set<int>, q: set<int>)
    requires forall t | t in s :: t in p <==> t in q
    ensures Absent(s, p) == Absent(s, q)
  {
    if s != [] {
      var front, last := s[..|s| - 1], s[|s| - 1];
      assert last in s && forall t | t in front :: t in s;
      AbsentDependsOnMembers(front, p, q);
      assert Absent(s, p) == Absent(front, p) + (if last in p then [] else [last]);
      assert Absent(s, q) == Absent(front, q) + (if last in q then [] else [last]);
    }
  }

  // ----- the two directions are inverse

  /** The last run ends at the last point. */
  lemma CompressEnds(g: Grid, points: seq<int>)
    ensures points == [] ==> Compress(g, points) == []
    ensures points != [] ==> Compress(g, points) != [] && Compress(g, points)[|Compress(g, points)| - 1].endMs == points[|points| - 1]
  {
  }

  /** Extending the last run by its successor adds exactly that point. */
  lemma RunExtends(g: Grid, runs: seq<Gap>, t: int)
    requires ValidGrid(g) && MaximalRuns(g, runs) && runs != []
    requires g.next(runs[|runs| - 1].endMs) == t
    ensures MaximalRuns(g, AppendPoint(g, runs, t))
    ensures Expand(g, AppendPoint(g, runs, t)) == Expand(g, runs) + [t]
    ensures TotalMissing(AppendPoint(g, runs, t)) == TotalMissing(runs) + 1
  {
    hide ValidGrid, Walk;
    var last, front := runs[|runs| - 1], runs[..|runs| - 1];
    StepUp(g, last.endMs);
    var longer := Gap(last.startMs, t, last.missingBars + 1);
    var after := AppendPoint(g, runs, t);
    WalkEnds(g, last.startMs, t);
    assert after == front + [longer];
    assert after[..|after| - 1] == front;
  }

  /** A point beyond the successor of the last run starts a run of its own. */
  lemma RunStarts(g: Grid, runs: seq<Gap>, t: int)
    requires ValidGrid(g) && MaximalRuns(g, runs) && g.aligned(t)
    requires runs != [] ==> g.next(runs[|runs| - 1].endMs) < t
    ensures MaximalRuns(g, AppendPoint(g, runs, t))
    ensures Expand(g, AppendPoint(g, runs, t)) == Expand(g, runs) + [t]
    ensures TotalMissing(AppendPoint(g, runs, t)) == TotalMissing(runs) + 1
  {
    hide ValidGrid, Walk, Expand, TotalMissing;
    var after := AppendPoint(g, runs, t);
    SinglePointWalk(g, t);
    assert after == runs + [Gap(t, t, 1)];
    ExpandSnoc(g, runs, Gap(t, t, 1));
    TotalSnoc(runs, Gap(t, t, 1));
    RunsSnoc(g, runs, Gap(t, t, 1));
  }

  lemma TotalSnoc(front: seq<Gap>, last: Gap)
    ensures TotalMissing(front + [last]) == TotalMissing(front) + last.missingBars
  {
    assert (front + [last])[..|front|] == front;
  }

  lemma RunsSnoc(g: Grid, front: seq<Gap>, last: Gap)
    requires ValidGrid(g) && MaximalRuns(g, front)
    requires front != [] ==> g.next(front[|front| - 1].endMs) < last.startMs
    requires g.aligned(last.startMs) && g.aligned(last.endMs) && last.startMs <= last.endMs
    requires last.missingBars == |Walk(g, last.startMs, last.endMs)|
    ensures MaximalRuns(g, front + [last])
  {
    hide ValidGrid, Walk;
  }

  lemma SinglePointWalk(g: Grid, t: int)
    requires ValidGrid(g)
    ensures Walk(g, t, t) == [t]
  {
    assert Walk(g, t, t) == [t] + Walk(g, g.next(t), t);
  }

  /** Compressing grid points yields maximal runs that expand to exactly those points. */
  lemma {:induction false} ExpandCompress(g: Grid, points: seq<int>)
    requires ValidGrid(g) && GridPoints(g, points)
    ensures MaximalRuns(g, Compress(g, points))
    ensures Expand(g, Compress(g, points)) == points
    ensures TotalMissing(Compress(g, points)) == |points|
  {
    if points != [] {
      hide ValidGrid, MaximalRuns, AppendPoint, Expand, Compress, TotalMissing, GridPoints;
      LastOfGridPoints(g, points);
      var front, t := points[..|points| - 1], points[|points| - 1];
      assert points == front + [t];
      ExpandCompress(g, front);
      CompressSnoc(g, front, t);
      ExpandCompressStep(g, front, t);
    }
  }

  lemma LastOfGridPoints(g: Grid, points: seq<int>)
    requires GridPoints(g, points) && points != []
    ensures var front, t := points[..|points| - 1], points[|points| - 1];
            && GridPoints(g, front) && g.aligned(t)
            && (front != [] ==> front[|front| - 1] < t && g.aligned(front[|front| - 1]))
  {
    var front := points[..|points| - 1];
    assert points[|points| - 1] in points && forall p | p in front :: p in points;
    assert front != [] ==> front[|front| - 1] == points[|front| - 1] && front[|front| - 1] in points;
  }

  lemma ExpandCompressStep(g: Grid, front: seq<int>, t: int)
    requires ValidGrid(g) && MaximalRuns(g, Compress(g, front)) && g.aligned(t)
    requires front != [] ==> front[|front| - 1] < t && g.aligned(front[|front| - 1])
    ensures var before, after := Compress(g, front), AppendPoint(g, Compress(g, front), t);
            && MaximalRuns(g, after)
            && Expand(g, after) == Expand(g, before) + [t]
            && TotalMissing(after) == TotalMissing(before) + 1
  {
    hide ValidGrid, Compress, MaximalRuns, Expand, AppendPoint, TotalMissing;
    var before := Compress(g, front);
    CompressEnds(g, front);
    if before != [] { StepBelow(g, before[|before| - 1].endMs, t); }
    if before != [] && g.next(before[|before| - 1].endMs) == t {
      RunExtends(g, before, t);
    } else {
      RunStarts(g, before, t);
    }
  }

  /** Appending one whole run behind a hole adds it as it is. */
  lemma {:induction false} CompressAppendsRun(g: Grid, points: seq<int>, c: int, d: int)
    requires ValidGrid(g) && g.aligned(c) && g.aligned(d) && c <= d
    requires points == [] || g.next(points[|points| - 1]) < c
    ensures Compress(g, points + Walk(g, c, d)) == Compress(g, points) + [Gap(c, d, |Walk(g, c, d)|)]
    decreases d - c
  {
    hide ValidGrid, Walk, Compress;
    StepDown(g, c, d);
    WalkEnds(g, c, d);
    var shorter := points + Walk(g, c, g.prev(d));
    assert points + Walk(g, c, d) == shorter + [d];
    CompressSnoc(g, shorter, d);
    if c == d {
      SinglePointWalk(g, c);
      assert shorter == points;
      CompressEnds(g, points);
    } else {
      CompressAppendsRun(g, points, c, g.prev(d));
    }
  }

  lemma CompressSnoc(g: Grid, points: seq<int>, t: int)
    ensures Compress(g, points + [t]) == AppendPoint(g, Compress(g, points), t)
  {
    assert (points + [t])[..|points + [t]| - 1] == points;
  }

  /** Maximal runs survive the round trip through their points. */
  lemma {:induction false} CompressExpand(g: Grid, gaps: seq<Gap>)
    requires ValidGrid(g) && MaximalRuns(g, gaps)
    ensures GridPoints(g, Expand(g, gaps))
    ensures Compress(g, Expand(g, gaps)) == gaps
    ensures gaps != [] ==> Expand(g, gaps) != [] && Expand(g, gaps)[|Expand(g, gaps)| - 1] == gaps[|gaps| - 1].endMs
    ensures gaps == [] ==> Expand(g, gaps) == []
  {
    if gaps == [] {
      NothingExpands(g);
    } else {
      hide ValidGrid, Walk, Compress, Expand, GridPoints, MaximalRuns;
      var front, last := gaps[..|gaps| - 1], gaps[|gaps| - 1];
      MaximalRunsSplit(g, gaps);
      CompressExpand(g, front);
      CompressExpandStep(g, Expand(g, front), front, last);
      ExpandLast(g, gaps);
    }
  }

  lemma NothingExpands(g: Grid)
    requires ValidGrid(g)
    ensures Expand(g, []) == [] && GridPoints(g, []) && Compress(g, []) == []
  {
  }

  lemma ExpandLast(g: Grid, gaps: seq<Gap>)
    requires ValidGrid(g) && gaps != []
    ensures var front, last := gaps[..|gaps| - 1], gaps[|gaps| - 1];
            gaps == front + [last] && Expand(g, gaps) == Expand(g, front) + Walk(g, last.startMs, last.endMs)
  {
    hide ValidGrid, Walk;
  }

  lemma ExpandSnoc(g: Grid, front: seq<Gap>, last: Gap)
    requires ValidGrid(g)
    ensures Expand(g, front + [last]) == Expand(g, front) + Walk(g, last.startMs, last.endMs)
  {
    hide Walk, ValidGrid;
    assert (front + [last])[..|front|] == front;
  }

  lemma CompressExpandStep(g: Grid, points: seq<int>, front: seq<Gap>, last: Gap)
    requires ValidGrid(g) && GridPoints(g, points) && Compress(g, points) == front
    requires points != [] ==> g.next(points[|points| - 1]) < last.startMs && points[|points| - 1] < last.startMs
    requires g.aligned(last.startMs) && g.aligned(last.endMs) && last.startMs <= last.endMs
    requires last.missingBars == |Walk(g, last.startMs, last.endMs)|
    ensures var after := points + Walk(g, last.startMs, last.endMs);
            && GridPoints(g, after) && Compress(g, after) == front + [last]
            && after != [] && after[|after| - 1] == last.endMs
  {
    hide ValidGrid, Walk, Compress, GridPoints;
    WalkBounds(g, last.startMs, last.endMs);
    CompressAppendsRun(g, points, last.startMs, last.endMs);
    GridPointsAppend(g, points, Walk(g, last.startMs, last.endMs));
  }

  lemma MaximalRunsSplit(g: Grid, gaps: seq<Gap>)
    requires ValidGrid(g) && MaximalRuns(g, gaps) && gaps != []
    ensures var front, last := gaps[..|gaps| - 1], gaps[|gaps| - 1];
            && MaximalRuns(g, front) && (front != [] ==> g.next(front[|front| - 1].endMs) < last.startMs && front[|front| - 1].endMs < last.startMs)
            && g.aligned(last.startMs) && g.aligned(last.endMs) && last.startMs <= last.endMs
            && last.missingBars == |Walk(g, last.startMs, last.endMs)|
  {
    hide Walk;
    var front := gaps[..|gaps| - 1];
    if front != [] {
      assert front[|front| - 1] == gaps[|front| - 1];
      StepUp(g, front[|front| - 1].endMs);
    }
  }

  lemma WalkBounds(g: Grid, a: int, b: int)
    requires ValidGrid(g) && g.aligned(a) && g.aligned(b) && a <= b
    ensures var w := Walk(g, a, b); w != [] && w[0] == a && w[|w| - 1] == b
    ensures GridPoints(g, Walk(g, a, b))
  {
    WalkListsWindow(g, a, b);
    WalkEnds(g, a, b);
  }

  lemma GridPointsAppend(g: Grid, a: seq<int>, b: seq<int>)
    requires GridPoints(g, a) && GridPoints(g, b)
    requires a != [] && b != [] ==> a[|a| - 1] < b[0]
    ensures GridPoints(g, a + b)
  {
    IncreasingAppends(a, b);
  }

  lemma IncreasingAppends(a: seq<int>, b: seq<int>)
    requires Increasing(a) && Increasing(b)
    requires a != [] && b != [] ==> a[|a| - 1] < b[0]
    ensures Increasing(a + b)
  {
    var s := a + b;
    forall i, j | 0 <= i < j < |s| ensures s[i] < s[j] {
      if i < |a| <= j {
        assert s[i] <= a[|a| - 1] && b[0] <= s[j];
      }
    }
  }

  // ----- _rows_gap_report

  /** The distinct opens that survive the row limit. */
  function Kept(opens: seq<int>, limit: int): set<int> {
    AsSet(Prefix(SortedSet(AsSet(opens)), limit))
  }

  lemma KeptUntruncated(opens: seq<int>, limit: int)
    requires |AsSet(opens)| <= limit
    ensures Kept(opens, limit) == AsSet(opens)
  {
    var listed := SortedSet(AsSet(opens));
    SortedSetMembers(AsSet(opens));
    assert Prefix(listed, limit) == listed;
    forall t ensures t in Kept(opens, limit) <==> t in AsSet(opens) {
      assert t in Kept(opens, limit) <==> t in listed;
    }
  }

  /** The grid a window is walked on. */
  function WindowGrid(startMs: int): Grid { FixedGrid(INTERVAL_MS, startMs) }

  /** The opens of the window that are not among `present`. */
  ghost function AbsentInWindow(g: Grid, startMs: int, endMs: int, present: set<int>): seq<int>
    requires ValidGrid(g)
  {
    Absent(Walk(g, startMs, endMs), present)
  }

  ghost predicate ScanState(g: Grid, absent: seq<int>, expected: int, gaps: seq<Gap>, missingStart: Option<int>, previousMissing: Option<int>) {
    var runs := Compress(g, absent);
    if missingStart.None? then
      gaps == runs && (runs != [] ==> runs[|runs| - 1].endMs + INTERVAL_MS < expected)
    else
      && previousMissing == Some(expected - INTERVAL_MS)
      && runs == gaps + [Gap(missingStart.value, expected - INTERVAL_MS,
                             (expected - INTERVAL_MS - missingStart.value) / INTERVAL_MS + 1)]
  }

  /** Walking past `e` adds `e` to the absent points unless it is present. */
  lemma AbsentGrows(g: Grid, a: int, e: int, present: set<int>)
    requires ValidGrid(g) && g.aligned(a) && g.aligned(e) && a <= e
    ensures AbsentInWindow(g, a, g.prev(g.next(e)), present)
         == AbsentInWindow(g, a, g.prev(e), present) + (if e in present then [] else [e])
  {
    WalkEnds(g, a, e);
    assert g.prev(g.next(e)) == e;
    AbsentAppends(Walk(g, a, g.prev(e)), [e], present);
    assert Absent([e], present) == Absent([], present) + (if e in present then [] else [e]);
  }

  /** A grid that steps by the scanner's fixed interval. */
  ghost predicate StepsByInterval(g: Grid) {
    && ValidGrid(g)
    && (forall t {:trigger g.next(t)} :: g.next(t) == t + INTERVAL_MS)
    && (forall t {:trigger g.prev(t)} :: g.prev(t) == t - INTERVAL_MS)
  }

  lemma WindowGridSteps(startMs: int)
    ensures StepsByInterval(WindowGrid(startMs)) && WindowGrid(startMs).aligned(startMs)
  {
    FixedGridIsValid(INTERVAL_MS, startMs);
  }

  lemma ScanSeesAbsent(g: Grid, absent: seq<int>, e: int, gaps: seq<Gap>, missingStart: Option<int>, previousMissing: Option<int>)
    requires StepsByInterval(g) && ScanState(g, absent, e, gaps, missingStart, previousMissing)
    ensures ScanState(g, absent + [e], e + INTERVAL_MS, gaps,
                      if missingStart.None? then Some(e) else missingStart, Some(e))
  {
    hide ValidGrid, Compress;
    CompressSnoc(g, absent, e);
  }

  lemma ScanSeesPresent(g: Grid, absent: seq<int>, e: int, gaps: seq<Gap>, missingStart: Option<int>, previousMissing: Option<int>)
    requires StepsByInterval(g) && ScanState(g, absent, e, gaps, missingStart, previousMissing)
    ensures ScanState(g, absent + [], e + INTERVAL_MS, ClosedRuns(gaps, missingStart, previousMissing), None, None)
  {
    assert absent + [] == absent;
  }

  /** The gap list once an open run, if any, has been closed. */
  function ClosedRuns(gaps: seq<Gap>, missingStart: Option<int>, previousMissing: Option<int>): seq<Gap> {
    if missingStart.Some? && previousMissing.Some? then
      gaps + [Gap(missingStart.value, previousMissing.value, (previousMissing.value - missingStart.value) / INTERVAL_MS + 1)]
    else gaps
  }

  lemma ScanCloses(g: Grid, absent: seq<int>, e: int, gaps: seq<Gap>, missingStart: Option<int>, previousMissing: Option<int>)
    requires ScanState(g, absent, e, gaps, missingStart, previousMissing)
    ensures ClosedRuns(gaps, missingStart, previousMissing) == Compress(g, absent)
  {
  }

  /** One pass over the window: the loop of the fixed-step scanner. */
  method ScanWindow(ghost g: Grid, selectedSet: set<int>, startMs: int, endMs: int) returns (gaps: seq<Gap>)
    requires StepsByInterval(g) && g.aligned(startMs)
    ensures gaps == Compress(g, AbsentInWindow(g, startMs, endMs, selectedSet))
  {
    gaps := [];
    var expected := startMs;
    var missingStart: Option<int> := None;
    var previousMissing: Option<int> := None;
    ghost var absent: seq<int> := [];
    while expected <= endMs
      invariant ScanReached(g, startMs, endMs, expected, selectedSet, absent)
      invariant ScanState(g, absent, expected, gaps, missingStart, previousMissing)
      decreases endMs - expected
    {
      ScanAdvances(g, startMs, endMs, expected, selectedSet, absent);
      if expected !in selectedSet {
        ScanSeesAbsent(g, absent, expected, gaps, missingStart, previousMissing);
        absent := absent + [expected];
        if missingStart.None? {
          missingStart := Some(expected);
        }
        previousMissing := Some(expected);
      } else {
        ScanSeesPresent(g, absent, expected, gaps, missingStart, previousMissing);
        absent := absent + [];
        gaps := ClosedRuns(gaps, missingStart, previousMissing);
        missingStart := None;
        previousMissing := None;
      }
      expected := expected + INTERVAL_MS;
    }
    ScanCompletes(g, startMs, endMs, expected, selectedSet, absent);
    ScanCloses(g, absent, expected, gaps, missingStart, previousMissing);
    gaps := ClosedRuns(gaps, missingStart, previousMissing);
  }

  /** The absent points collected when the cursor stands at `e`. */
  ghost predicate ScanReached(g: Grid, startMs: int, endMs: int, e: int, present: set<int>, absent: seq<int>)
    requires StepsByInterval(g)
  {
    && g.aligned(e) && startMs <= e
    && (e == startMs || e - INTERVAL_MS <= endMs)
    && absent == AbsentInWindow(g, startMs, e - INTERVAL_MS, present)
  }

  lemma ScanAdvances(g: Grid, startMs: int, endMs: int, e: int, present: set<int>, absent: seq<int>)
    requires StepsByInterval(g) && g.aligned(startMs)
    requires ScanReached(g, startMs, endMs, e, present, absent) && e <= endMs
    ensures ScanReached(g, startMs, endMs, e + INTERVAL_MS, present, absent + if e in present then [] else [e])
  {
    AbsentGrows(g, startMs, e, present);
  }

  lemma ScanCompletes(g: Grid, startMs: int, endMs: int, e: int, present: set<int>, absent: seq<int>)
    requires StepsByInterval(g) && g.aligned(startMs)
    requires ScanReached(g, startMs, endMs, e, present, absent) && endMs < e
    ensures absent == AbsentInWindow(g, startMs, endMs, present)
  {
    WalkStopsBefore(g, startMs, e, endMs);
  }

  // ----- what a report says, minute by minute

  /** The first `limit` distinct opens: those with fewer than `limit` smaller ones. */
  ghost predicate Looked(opens: seq<int>, limit: int, t: int) {
    t in opens && |set u | u in opens && u < t| < limit
  }

  /** A run of whole minutes inside the window, counted right. */
  ghost predicate RunSays(gap: Gap, startMs: int, endMs: int) {
    && startMs <= gap.startMs <= gap.endMs <= endMs
    && (gap.startMs - startMs) % 60_000 == 0 && (gap.endMs - startMs) % 60_000 == 0
    && gap.missingBars * 60_000 == gap.endMs - gap.startMs + 60_000
  }

  /** The gaps are runs in order with a present minute between two of them, and a minute of the window is in one iff it is not looked at. */
  ghost predicate GapsSay(gaps: seq<Gap>, opens: seq<int>, startMs: int, endMs: int, limit: int) {
    && (forall gap | gap in gaps :: RunSays(gap, startMs, endMs))
    && (forall i | 0 <= i < |gaps| - 1 :: gaps[i].endMs + 60_000 < gaps[i + 1].startMs)
    && (forall t | startMs <= t <= endMs && (t - startMs) % 60_000 == 0 ::
          !Looked(opens, limit, t) <==> InSome(gaps, t))
  }

  ghost predicate InSome(gaps: seq<Gap>, t: int) {
    exists gap | gap in gaps :: gap.startMs <= t <= gap.endMs
  }

  ghost const MISSING_BARS: Gap -> int := (gap: Gap) => gap.missingBars

  lemma {:induction false} ExpandMembers(g: Grid, gaps: seq<Gap>)
    requires ValidGrid(g) && forall gap | gap in gaps :: g.aligned(gap.startMs)
    ensures forall t :: t in Expand(g, gaps) <==> g.aligned(t) && InSome(gaps, t)
  {
    if gaps != [] {
      hide ValidGrid, Walk;
      var front, last := gaps[..|gaps| - 1], gaps[|gaps| - 1];
      assert gaps == front + [last] && last in gaps && forall gap | gap in front :: gap in gaps;
      ExpandMembers(g, front);
      WalkListsWindow(g, last.startMs, last.endMs);
    }
  }

  lemma {:induction false} WalkLength(g: Grid, a: int, b: int)
    requires StepsByInterval(g) && g.aligned(a) && g.aligned(b) && a <= b
    ensures |Walk(g, a, b)| * INTERVAL_MS == b - a + INTERVAL_MS
    decreases b - a
  {
    hide ValidGrid;
    if a == b {
      assert Walk(g, g.next(a), b) == [];
    } else {
      NextAligned(g, a, b);
      WalkLength(g, g.next(a), b);
    }
  }

  lemma NextAligned(g: Grid, a: int, b: int)
    requires StepsByInterval(g) && g.aligned(a) && g.aligned(b) && a < b
    ensures g.aligned(a + INTERVAL_MS) && a + INTERVAL_MS <= b
  {
    assert g.next(a) == a + INTERVAL_MS;
  }

  lemma {:induction false} MissingIsCounted(gaps: seq<Gap>)
    ensures TotalMissing(gaps) == CountBy(MISSING_BARS, gaps)
  {
    if gaps != [] { MissingIsCounted(gaps[..|gaps| - 1]); }
  }

  /** The kept opens are those with fewer than `limit` smaller ones. */
  lemma KeptAreLooked(opens: seq<int>, limit: nat)
    ensures forall t :: t in Kept(opens, limit) <==> Looked(opens, limit, t)
  {
    var listed := SortedSet(AsSet(opens));
    SortedSetListsSet(AsSet(opens));
    forall t ensures t in Kept(opens, limit) <==> Looked(opens, limit, t) {
      if t in listed {
        var i :| 0 <= i < |listed| && listed[i] == t;
        SmallerCount(listed, opens, i);
        PrefixHolds(listed, limit, i);
      } else {
        NotInPrefix(listed, limit, t);
      }
    }
  }

  lemma NotInPrefix(listed: seq<int>, limit: nat, t: int)
    requires t !in listed
    ensures t !in Prefix(listed, limit)
  {
  }

  lemma PrefixHolds(listed: seq<int>, limit: nat, i: nat)
    requires i < |listed| && forall a, b | 0 <= a < b < |listed| :: listed[a] < listed[b]
    ensures listed[i] in AsSet(Prefix(listed, limit)) <==> i < limit
  {
    var front := Prefix(listed, limit);
    if i < limit { assert front[i] == listed[i]; }
    if listed[i] in front {
      var k :| 0 <= k < |front| && front[k] == listed[i];
      assert k == i;
    }
  }

  lemma SmallerCount(listed: seq<int>, opens: seq<int>, i: nat)
    requires i < |listed| && (forall a, b | 0 <= a < b < |listed| :: listed[a] < listed[b]) && forall t :: t in listed <==> t in AsSet(opens)
    ensures |set u | u in opens && u < listed[i]| == i
  {
    var smaller := set u | u in opens && u < listed[i];
    assert smaller == AsSet(listed[..i]) by {
      forall u ensures u in smaller <==> u in listed[..i] {
        if u in smaller {
          assert u in AsSet(opens);
          var k :| 0 <= k < |listed| && listed[k] == u;
          assert k < i;
        }
        if u in listed[..i] {
          var k :| 0 <= k < i && listed[k] == u;
          assert u in listed;
        }
      }
    }
    IncreasingSize(listed[..i]);
  }

  lemma ReportSays(opens: seq<int>, startMs: int, endMs: int, limit: nat)
    ensures ValidGrid(WindowGrid(startMs))
    ensures GapsSay(Compress(WindowGrid(startMs), AbsentInWindow(WindowGrid(startMs), startMs, endMs, Kept(opens, limit))), opens, startMs, endMs, limit)
  {
    hide *;
    var g := WindowGrid(startMs);
    WindowGridSteps(startMs);
    StepsAreValid(g);
    var absent := AbsentInWindow(g, startMs, endMs, Kept(opens, limit));
    AbsentPoints(g, startMs, endMs, Kept(opens, limit));
    ExpandCompress(g, absent);
    KeptAreLooked(opens, limit);
    RunsSay(g, Compress(g, absent), absent, opens, startMs, endMs, limit);
  }

  /** Maximal runs of the minutes that are not looked at say what a report has to say. */
  lemma RunsSay(g: Grid, gaps: seq<Gap>, points: seq<int>, opens: seq<int>, startMs: int, endMs: int, limit: int)
    requires g == WindowGrid(startMs) && StepsByInterval(g) && MaximalRuns(g, gaps) && Expand(g, gaps) == points
    requires forall t :: t in points <==> g.aligned(t) && startMs <= t <= endMs && !Looked(opens, limit, t)
    ensures GapsSay(gaps, opens, startMs, endMs, limit)
  {
    hide Walk, Looked, ValidGrid, RunSays, Expand, MaximalRuns, StepsByInterval, InSome, WindowGrid;
    StepsAreValid(g);
    RunsAligned(g, gaps);
    RunsApart(g, gaps);
    ExpandMembers(g, gaps);
    RunsInWindow(g, gaps, points, startMs, endMs);
    MinutesSay(g, gaps, points, opens, startMs, endMs, limit);
  }

  lemma StepsAreValid(g: Grid)
    requires StepsByInterval(g)
    ensures ValidGrid(g)
  {
  }

  lemma RunsApart(g: Grid, gaps: seq<Gap>)
    requires StepsByInterval(g) && MaximalRuns(g, gaps)
    ensures forall i | 0 <= i < |gaps| - 1 :: gaps[i].endMs + 60_000 < gaps[i + 1].startMs
  {
    hide ValidGrid, Walk;
    forall i | 0 <= i < |gaps| - 1 ensures gaps[i].endMs + 60_000 < gaps[i + 1].startMs {
      assert g.next(gaps[i].endMs) < gaps[i + 1].startMs;
    }
  }

  lemma MinutesSay(g: Grid, gaps: seq<Gap>, points: seq<int>, opens: seq<int>, startMs: int, endMs: int, limit: int)
    requires g == WindowGrid(startMs)
    requires forall t :: t in points <==> g.aligned(t) && startMs <= t <= endMs && !Looked(opens, limit, t)
    requires forall t :: t in points <==> g.aligned(t) && InSome(gaps, t)
    ensures forall t | startMs <= t <= endMs && (t - startMs) % 60_000 == 0 ::
              !Looked(opens, limit, t) <==> InSome(gaps, t)
  {
    hide Looked, InSome;
    forall t | startMs <= t <= endMs && (t - startMs) % 60_000 == 0
      ensures !Looked(opens, limit, t) <==> InSome(gaps, t)
    {
      assert g.aligned(t);
    }
  }

  lemma AbsentPoints(g: Grid, startMs: int, endMs: int, present: set<int>)
    requires ValidGrid(g) && g.aligned(startMs)
    ensures GridPoints(g, AbsentInWindow(g, startMs, endMs, present))
    ensures forall t :: t in AbsentInWindow(g, startMs, endMs, present) <==> g.aligned(t) && startMs <= t <= endMs && t !in present
  {
    hide ValidGrid, Walk;
    WalkListsWindow(g, startMs, endMs);
    AbsentIsFilter(Walk(g, startMs, endMs), present);
  }

  lemma RunsAligned(g: Grid, gaps: seq<Gap>)
    requires ValidGrid(g) && MaximalRuns(g, gaps)
    ensures forall gap | gap in gaps :: g.aligned(gap.startMs) && g.aligned(gap.endMs) && gap.startMs <= gap.endMs
    ensures forall gap | gap in gaps :: gap.missingBars == |Walk(g, gap.startMs, gap.endMs)|
  {
    hide ValidGrid, Walk;
    forall gap | gap in gaps
      ensures g.aligned(gap.startMs) && g.aligned(gap.endMs) && gap.startMs <= gap.endMs
      ensures gap.missingBars == |Walk(g, gap.startMs, gap.endMs)|
    {
      var i :| 0 <= i < |gaps| && gaps[i] == gap;
    }
  }

  lemma RunsInWindow(g: Grid, gaps: seq<Gap>, points: seq<int>, startMs: int, endMs: int)
    requires StepsByInterval(g) && g == WindowGrid(startMs)
    requires forall gap | gap in gaps ::
               g.aligned(gap.startMs) && g.aligned(gap.endMs) && gap.startMs <= gap.endMs && gap.missingBars == |Walk(g, gap.startMs, gap.endMs)|
    requires forall t :: t in points <==> g.aligned(t) && InSome(gaps, t)
    requires forall t | t in points :: startMs <= t <= endMs
    ensures forall gap | gap in gaps :: RunSays(gap, startMs, endMs)
  {
    hide Walk, StepsByInterval, RunSays;
    StepsAreValid(g);
    forall gap | gap in gaps ensures RunSays(gap, startMs, endMs) {
      assert InSome(gaps, gap.startMs) && InSome(gaps, gap.endMs);
      assert gap.startMs in points && gap.endMs in points;
      RunInWindow(g, gap, startMs, endMs);
    }
  }

  lemma RunInWindow(g: Grid, gap: Gap, startMs: int, endMs: int)
    requires StepsByInterval(g) && g == WindowGrid(startMs)
    requires g.aligned(gap.startMs) && g.aligned(gap.endMs) && gap.missingBars == |Walk(g, gap.startMs, gap.endMs)|
    requires startMs <= gap.startMs <= gap.endMs <= endMs
    ensures RunSays(gap, startMs, endMs)
  {
    hide Walk, StepsByInterval;
    WalkLength(g, gap.startMs, gap.endMs);
  }

  /** The fixed-step scanner reports exactly the maximal runs of the window's absent opens. */
  method RowsGapReport(opens: seq<int>, startMs: Option<int>, endMs: Option<int>, limit: int) returns (report: GapReport)
    ensures report.truncated <==> |AsSet(opens)| > limit
    ensures report.scannedBars == |Prefix(SortedSet(AsSet(opens)), limit)|
    ensures ValidGrid(WindowGrid(startMs.GetOr(0)))
    ensures startMs.Some? && endMs.Some? ==>
              report.gaps == Compress(WindowGrid(startMs.value),
                                      AbsentInWindow(WindowGrid(startMs.value), startMs.value, endMs.value, Kept(opens, limit)))
    ensures startMs.None? || endMs.None? ==> report.gaps == []
    ensures report.missingBars == TotalMissing(report.gaps) == CountBy(MISSING_BARS, report.gaps)
    ensures limit >= 0 ==>
              && (report.truncated <==> |set t | t in opens| > limit)
              && report.scannedBars == (if report.truncated then limit else |set t | t in opens|)
              && (startMs.Some? && endMs.Some? ==> GapsSay(report.gaps, opens, startMs.value, endMs.value, limit))
  {
    if startMs.Some? && limit >= 0 { ReportSays(opens, startMs.value, endMs.GetOr(0), limit); }
    WindowGridSteps(startMs.GetOr(0));
    var selected := SortedSet(AsSet(opens));
    var truncated := |selected| > limit;
    selected := Prefix(selected, limit);
    var gaps: seq<Gap> := [];
    if startMs.Some? && endMs.Some? {
      gaps := ScanWindow(WindowGrid(startMs.value), AsSet(selected), startMs.value, endMs.value);
    }
    var missing := SumMissing(gaps);
    MissingIsCounted(gaps);
    report := GapReport(gaps, missing, |selected|, truncated);
  }

  /** Past the last open of a window the walk does not grow. */
  lemma WalkStopsBefore(g: Grid, a: int, e: int, b: int)
    requires ValidGrid(g) && g.aligned(a) && g.aligned(e) && a <= e && b < e
    requires g.prev(e) <= b || e == a
    ensures Walk(g, a, g.prev(e)) == Walk(g, a, b)
  {
    if e == a {
      assert g.next(g.prev(a)) == a;
    } else {
      WalkSplits(g, a, e, b);
      assert Walk(g, e, b) == [];
    }
  }

  method SumMissing(gaps: seq<Gap>) returns (total: int)
    ensures total == TotalMissing(gaps)
  {
    total := 0;
    for i := 0 to |gaps|
      invariant total == TotalMissing(gaps[..i])
    {
      assert gaps[..i + 1][..i] == gaps[..i];
      total := total + gaps[i].missingBars;
    }
    assert gaps[..|gaps|] == gaps;
  }
}
