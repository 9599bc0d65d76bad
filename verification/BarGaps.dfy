/** The in-memory bar repository, and the gap scan of a derived series. */
module BarGaps {
  import opened Results
  import opened Sorting
  import opened Grids
  import Catalogs
  import GapReports
  import opened TradePages
  import opened TradeBuckets
  import opened TradeBars

  function ByOpen(a: BarRow, b: BarRow): bool { a.openTime <= b.openTime }
  function ByOpenDescending(a: BarRow, b: BarRow): bool { b.openTime <= a.openTime }

  function Within(startMs: Option<int>, endMs: Option<int>): BarRow -> bool {
    (r: BarRow) => (startMs.None? || r.openTime >= startMs.value) && (endMs.None? || r.openTime <= endMs.value)
  }

  function OpensOfRows(rows: seq<BarRow>): (r: seq<int>)
    ensures |r| == |rows|
  {
    if rows == [] then [] else OpensOfRows(rows[..|rows| - 1]) + [rows[|rows| - 1].openTime]
  }

  /** The rows of a series in memory. */
  class MemoryKlinesRepository {
    const rows: seq<BarRow>

    constructor (rows: seq<BarRow>)
      ensures this.rows == rows
    {
      this.rows := rows;
    }

    /** Earliest and latest open and the row count. */
    function GetBounds(): (r: (int, int, nat))
      requires rows != []
      ensures r.0 in OpensOfRows(rows) && r.1 in OpensOfRows(rows) && r.2 == |rows|
      ensures forall t | t in OpensOfRows(rows) :: r.0 <= t <= r.1
      ensures (exists row | row in rows :: row.openTime == r.0) && (exists row | row in rows :: row.openTime == r.1)
      ensures forall row | row in rows :: r.0 <= row.openTime <= r.1
    {
      OpensNotEmpty(rows);
      OpensAreOfRows(rows);
      var opens := SortedSet(AsSet(OpensOfRows(rows)));
      (opens[0], opens[|opens| - 1], |rows|)
    }

    /** The rows of a window, in the requested order, cut at the limit as a slice `[:limit]` cuts them. */
    function QueryBars(startMs: Option<int>, endMs: Option<int>, limit: Option<int>, descending: bool): seq<BarRow> {
      var selected := Sort(if descending then ByOpenDescending else ByOpen, Filter(Within(startMs, endMs), rows));
      if limit.None? then selected else Prefix(selected, limit.value)
    }

    method ScanGaps(startMs: Option<int>, endMs: Option<int>, limit: int) returns (r: GapReports.GapReport)
      ensures ValidGrid(GapReports.WindowGrid(startMs.GetOr(0)))
      ensures var opens := OpensOfRows(QueryBars(startMs, endMs, Some(limit + 1), false));
              && (r.truncated <==> |AsSet(opens)| > limit)
              && r.scannedBars == |Prefix(SortedSet(AsSet(opens)), limit)|
              && (startMs.Some? && endMs.Some? ==>
                    r.gaps == GapReports.Compress(GapReports.WindowGrid(startMs.value),
                                GapReports.AbsentInWindow(GapReports.WindowGrid(startMs.value), startMs.value, endMs.value, GapReports.Kept(opens, limit))))
              && r.missingBars == GapReports.TotalMissing(r.gaps)
              && (startMs.Some? && endMs.Some? && limit >= 0 ==> GapReports.GapsSay(r.gaps, opens, startMs.value, endMs.value, limit))
    {
      var selected := QueryBars(startMs, endMs, Some(limit + 1), false);
      r := GapReports.RowsGapReport(OpensOfRows(selected), startMs, endMs, limit);
    }
  }

  lemma {:induction false} OpensAreOfRows(rows: seq<BarRow>)
    ensures forall t :: t in OpensOfRows(rows) <==> exists row | row in rows :: row.openTime == t
    ensures forall row | row in rows :: row.openTime in OpensOfRows(rows)
  {
    if rows != [] {
      OpensAreOfRows(rows[..|rows| - 1]);
      assert rows == rows[..|rows| - 1] + [rows[|rows| - 1]];
    }
  }

  lemma OpensNotEmpty(rows: seq<BarRow>)
    requires rows != []
    ensures var opens := OpensOfRows(rows);
            && SortedSet(AsSet(opens)) != []
            && SortedSet(AsSet(opens))[0] in opens && SortedSet(AsSet(opens))[|SortedSet(AsSet(opens))| - 1] in opens
            && forall t | t in opens :: SortedSet(AsSet(opens))[0] <= t <= SortedSet(AsSet(opens))[|SortedSet(AsSet(opens))| - 1]
  {
    var opens := OpensOfRows(rows);
    var sorted := SortedSet(AsSet(opens));
    SortedSetListsSet(AsSet(opens));
    assert opens[|opens| - 1] in AsSet(opens);
    assert opens[|opens| - 1] in sorted;
    assert sorted[0] in sorted && sorted[|sorted| - 1] in sorted;
    forall t | t in opens ensures sorted[0] <= t <= sorted[|sorted| - 1] {
      assert t in AsSet(opens);
      var i :| 0 <= i < |sorted| && sorted[i] == t;
    }
  }

  /** A query returns the rows of its window, in the requested order of their opens, and a limit keeps the first of them. */
  lemma QueryOrdersWindow(repository: MemoryKlinesRepository, startMs: Option<int>, endMs: Option<int>, descending: bool, limit: nat)
    ensures var all := repository.QueryBars(startMs, endMs, None, descending);
            && multiset(all) == multiset(Filter(
                 (r: BarRow) => (startMs.Some? ==> startMs.value <= r.openTime) && (endMs.Some? ==> r.openTime <= endMs.value),
                 repository.rows))
            && (forall i, j | 0 <= i < j < |all| ::
                  if descending then all[j].openTime <= all[i].openTime else all[i].openTime <= all[j].openTime)
            && repository.QueryBars(startMs, endMs, Some(limit), descending) == (if limit <= |all| then all[..limit] else all)
  {
    var inside := Filter(Within(startMs, endMs), repository.rows);
    FilterAlike(Within(startMs, endMs),
                (r: BarRow) => (startMs.Some? ==> startMs.value <= r.openTime) && (endMs.Some? ==> r.openTime <= endMs.value),
                repository.rows);
    SortIsSortedPermutation(ByOpen, inside);
    SortIsSortedPermutation(ByOpenDescending, inside);
  }

  // ----- a derived series has no gaps

  lemma {:induction false} OpenOfRow(rows: seq<BarRow>, i: nat)
    requires i < |rows|
    ensures OpensOfRows(rows)[i] == rows[i].openTime
  {
    if i < |rows| - 1 {
      OpenOfRow(rows[..|rows| - 1], i);
    }
  }

  lemma SeriesOpens(tape: seq<Trade>, first: int, rows: seq<BarRow>, i: nat)
    requires IsBarSeries(tape, first, rows) && i < |rows|
    ensures rows[i].openTime == first + i * INTERVAL_MS
  {
    assert RowFits(tape, first, rows, i);
  }

  /** A filter that accepts exactly one stretch of positions returns that stretch. */
  lemma FilterIsRange(keep: BarRow -> bool, rows: seq<BarRow>, a: nat, b: nat)
    requires a <= b < |rows| && forall i | 0 <= i < |rows| :: keep(rows[i]) <==> a <= i <= b
    ensures Filter(keep, rows) == rows[a..b + 1]
  {
    hide Filter;
    var before, within, after := rows[..a], rows[a..b + 1], rows[b + 1..];
    assert rows == before + within + after;
    FilterAppends(keep, before + within, after);
    FilterAppends(keep, before, within);
    FilterKeepsNone(keep, before);
    FilterKeepsAll(keep, within);
    FilterKeepsNone(keep, after);
    assert [] + within + [] == within;
  }

  lemma SeriesIsSorted(tape: seq<Trade>, first: int, rows: seq<BarRow>, a: nat, b: nat)
    requires IsBarSeries(tape, first, rows) && a <= b < |rows|
    ensures SortedBy(ByOpen, rows[a..b + 1])
  {
    hide IsBarSeries;
    var window := rows[a..b + 1];
    forall i, j | 0 <= i < j < |window| ensures ByOpen(window[i], window[j]) {
      SeriesOpens(tape, first, rows, a + i);
      SeriesOpens(tape, first, rows, a + j);
    }
  }

  /** The query over a window between two opens of a series returns exactly the rows of that window. */
  lemma QueryListsWindow(repository: MemoryKlinesRepository, tape: seq<Trade>, first: int, a: nat, b: nat, limit: int)
    requires IsBarSeries(tape, first, repository.rows) && a <= b < |repository.rows| && limit > b - a
    ensures repository.QueryBars(Some(first + a * INTERVAL_MS), Some(first + b * INTERVAL_MS), Some(limit), false)
         == repository.rows[a..b + 1]
  {
    hide IsBarSeries, Sort;
    var rows, within := repository.rows, Within(Some(first + a * INTERVAL_MS), Some(first + b * INTERVAL_MS));
    forall i | 0 <= i < |rows| ensures within(rows[i]) <==> a <= i <= b {
      SeriesOpens(tape, first, rows, i);
    }
    FilterIsRange(within, rows, a, b);
    SeriesIsSorted(tape, first, rows, a, b);
    SortKeepsSorted(ByOpen, rows[a..b + 1]);
  }

  predicate OnGrid(startMs: int, t: int) { (t - startMs) % INTERVAL_MS == 0 }

  ghost predicate Complete(opens: seq<int>, startMs: int, endMs: int) {
    forall t | OnGrid(startMs, t) && startMs <= t <= endMs :: t in opens
  }

  lemma WindowOpensPresent(tape: seq<Trade>, first: int, rows: seq<BarRow>, a: nat, b: nat)
    requires IsBarSeries(tape, first, rows) && a <= b < |rows|
    ensures |AsSet(OpensOfRows(rows[a..b + 1]))| == b - a + 1
    ensures Complete(OpensOfRows(rows[a..b + 1]), first + a * INTERVAL_MS, first + b * INTERVAL_MS)
  {
    hide IsBarSeries, OpensOfRows;
    var window, startMs := rows[a..b + 1], first + a * INTERVAL_MS;
    var opens := OpensOfRows(window);
    forall i | 0 <= i < |window| ensures opens[i] == first + (a + i) * INTERVAL_MS {
      OpenOfRow(window, i);
      SeriesOpens(tape, first, rows, a + i);
    }
    IncreasingSize(opens);
    forall t | OnGrid(startMs, t) && startMs <= t <= first + b * INTERVAL_MS ensures t in opens {
      var i := (t - startMs) / INTERVAL_MS;
      assert opens[i] == t;
    }
  }

  /** Scanning a derived series between two of its own opens, with room for every row, reports no gap. */
  method ScanSeries(repository: MemoryKlinesRepository, ghost tape: seq<Trade>, first: int, a: nat, b: nat, limit: int)
    returns (r: GapReports.GapReport)
    requires IsBarSeries(tape, first, repository.rows) && a <= b < |repository.rows| && limit > b - a
    ensures r == GapReports.GapReport([], 0, b - a + 1, false)
  {
    hide IsBarSeries, AsSet, SortedSet, Prefix, OpensOfRows, GapReports.Compress, GapReports.AbsentInWindow, GapReports.Kept, Complete, ValidGrid;
    var startMs, endMs := first + a * INTERVAL_MS, first + b * INTERVAL_MS;
    QueryListsWindow(repository, tape, first, a, b, limit + 1);
    WindowOpensPresent(tape, first, repository.rows, a, b);
    r := repository.ScanGaps(Some(startMs), Some(endMs), limit);
    NoGaps(OpensOfRows(repository.rows[a..b + 1]), startMs, endMs, limit);
  }

  /** When every open of the window is among the kept ones, the scanner has nothing to report. */
  lemma NoGaps(opens: seq<int>, startMs: int, endMs: int, limit: int)
    requires |AsSet(opens)| <= limit && ValidGrid(GapReports.WindowGrid(startMs)) && Complete(opens, startMs, endMs)
    ensures GapReports.Compress(GapReports.WindowGrid(startMs),
              GapReports.AbsentInWindow(GapReports.WindowGrid(startMs), startMs, endMs, GapReports.Kept(opens, limit))) == []
    ensures |Prefix(SortedSet(AsSet(opens)), limit)| == |AsSet(opens)| && GapReports.TotalMissing([]) == 0
  {
    hide ValidGrid, Walk, GapReports.Kept, GapReports.Absent, GapReports.Compress, SortedSet, AsSet, Complete;
    var g := GapReports.WindowGrid(startMs);
    GapReports.KeptUntruncated(opens, limit);
    EveryOpenKept(g, opens, startMs, endMs);
    Catalogs.NoneAbsent(Walk(g, startMs, endMs), AsSet(opens));
    NothingToReport(g, opens, limit);
  }

  lemma EveryOpenKept(g: Grid, opens: seq<int>, startMs: int, endMs: int)
    requires g == GapReports.WindowGrid(startMs) && ValidGrid(g) && Complete(opens, startMs, endMs)
    ensures forall t | t in Walk(g, startMs, endMs) :: t in AsSet(opens)
  {
    hide ValidGrid, Walk;
    WalkListsWindow(g, startMs, endMs);
    forall t | t in Walk(g, startMs, endMs) ensures t in AsSet(opens) {
      assert OnGrid(startMs, t);
    }
  }

  lemma NothingToReport(g: Grid, opens: seq<int>, limit: int)
    requires |AsSet(opens)| <= limit
    ensures GapReports.Compress(g, []) == [] && GapReports.TotalMissing([]) == 0
    ensures |Prefix(SortedSet(AsSet(opens)), limit)| == |AsSet(opens)|
  {
  }
}
