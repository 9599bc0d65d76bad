/** The whole parity audit: arguments, overlap, the page loop, and what its verdict means. */
module ParityRun {
  import opened Results
  import opened Sorting
  import Grids
  import opened ParityRows
  import opened ParityAudit

  datatype AuditArgs = AuditArgs(intervalMs: int, pageRows: int, maxSamples: int, startMs: Option<int>, endMs: Option<int>)

  datatype AuditError = ArgumentsInvalid | NoLiveSeries | NoOverlap | NonNumericValue

  datatype Report = Report(exact: bool, overlapStart: int, overlapEnd: int, tally: Tally, samplesTruncated: bool)

  const MAX_PAGE_ROWS: int := 1_000_000
  const MAX_SAMPLES: int := 1_000

  predicate ValidArgs(args: AuditArgs) {
    args.intervalMs >= 1 && 1 <= args.pageRows <= MAX_PAGE_ROWS && 0 <= args.maxSamples <= MAX_SAMPLES
  }

  /** The window both sides claim to hold, narrowed by the requested bounds. */
  function Overlap(liveLo: int, liveHi: int, earliest: int, latest: int, args: AuditArgs): (int, int) {
    var lo, hi := MaxInt(liveLo, earliest), MinInt(liveHi, latest);
    (MaxInt(lo, args.startMs.GetOr(lo)), MinInt(hi, args.endMs.GetOr(hi)))
  }

  ghost predicate IsBounds(live: Table, lo: int, hi: int) {
    lo in live && hi in live && forall t | t in live :: lo <= t <= hi
  }

  /** No page window holds more archive rows than the query's limit, which is one above the page size. */
  ghost predicate PagesFit(archive: Table, intervalMs: int, pageRows: int) {
    forall lo, hi | hi <= lo + (pageRows - 1) * intervalMs :: |KeysIn(archive, lo, hi)| <= pageRows + 1
  }

  /** Between any two archive rows there are at most as many steps as intervals fit, give or take `slack`. */
  ghost predicate Paced(archive: Table, intervalMs: int, slack: int) {
    forall s, t | s in archive && t in archive && s <= t :: (|KeysIn(archive, s, t)| - 1) * intervalMs <= t - s + slack
  }

  /** Archive rows are at least one interval apart, as rows of one fixed grid are. */
  ghost predicate Spaced(archive: Table, intervalMs: int) {
    forall s, t | s in archive && t in archive && s < t :: s + intervalMs <= t
  }

  // ----- the times the pages visit

  /** Times inside some page; the audit steps over what lies between the last grid point of a page and the next page. */
  function Covered(live: Table, archive: Table, intervalMs: int, pageRows: int, lo: int, hi: int): set<int>
    requires intervalMs > 0 && pageRows > 0
  {
    Steps(intervalMs, pageRows);
    set t | t in TimesIn(live, archive, lo, hi) && (t - lo) % (pageRows * intervalMs) <= (pageRows - 1) * intervalMs
  }

  ghost function CoveredTo(live: Table, archive: Table, intervalMs: int, pageRows: int, lo: int, hi: int, cursor: int): set<int>
    requires intervalMs > 0 && pageRows > 0
  {
    set t | t in Covered(live, archive, intervalMs, pageRows, lo, hi) && t < cursor
  }

  lemma Steps(intervalMs: int, pageRows: int)
    requires intervalMs > 0 && pageRows > 0
    ensures pageRows * intervalMs > 0
    ensures pageRows * intervalMs == (pageRows - 1) * intervalMs + intervalMs
    ensures (pageRows - 1) * intervalMs >= 0
  {
  }

  /** Inside the page that starts at `cursor`, the position in the page is the residue. */
  lemma PageResidue(lo: int, cursor: int, page: int, t: int)
    requires page > 0 && (cursor - lo) % page == 0 && cursor <= t < cursor + page
    ensures (t - lo) % page == t - cursor
  {
    var q := (cursor - lo) / page;
    assert cursor - lo == q * page;
    Grids.DivisionIsUnique(page, t - lo, q, t - cursor);
  }

  /** One page extends the visited times by exactly the rows between its bounds. */
  lemma PageExtends(live: Table, archive: Table, intervalMs: int, pageRows: int, lo: int, hi: int, cursor: int, pageEnd: int)
    requires intervalMs > 0 && pageRows > 0 && lo <= cursor <= hi
    requires (cursor - lo) % (pageRows * intervalMs) == 0
    requires pageEnd == MinInt(hi, cursor + (pageRows - 1) * intervalMs)
    ensures CoveredTo(live, archive, intervalMs, pageRows, lo, hi, cursor) !! TimesIn(live, archive, cursor, pageEnd)
    ensures CoveredTo(live, archive, intervalMs, pageRows, lo, hi, cursor) + TimesIn(live, archive, cursor, pageEnd)
         == CoveredTo(live, archive, intervalMs, pageRows, lo, hi, pageEnd + intervalMs)
  {
    Steps(intervalMs, pageRows);
    var page := pageRows * intervalMs;
    forall t | t in live.Keys + archive.Keys && cursor <= t < pageEnd + intervalMs && t <= hi
      ensures t in TimesIn(live, archive, cursor, pageEnd) <==> t in Covered(live, archive, intervalMs, pageRows, lo, hi)
    {
      PageResidue(lo, cursor, page, t);
    }
  }

  /**
   * Every page fits an archive whose rows never run ahead of the nominal step by two of its intervals. Calendar months
   * are such rows: any `m` of them in a row last at least `30 * m - 2` days.
   */
  lemma PacedPagesFit(archive: Table, intervalMs: int, pageRows: int, slack: int)
    requires intervalMs > 0 && pageRows > 0 && Paced(archive, intervalMs, slack) && slack < 2 * intervalMs
    ensures PagesFit(archive, intervalMs, pageRows)
  {
    hide KeysIn;
    forall lo, hi | hi <= lo + (pageRows - 1) * intervalMs ensures |KeysIn(archive, lo, hi)| <= pageRows + 1 {
      var within := KeysIn(archive, lo, hi);
      if within != {} {
        var first, last := OuterRows(archive, lo, hi);
        FewSteps(intervalMs, pageRows, |within|, last - first + slack);
      }
    }
  }

  lemma OuterRows(archive: Table, lo: int, hi: int) returns (first: int, last: int)
    requires KeysIn(archive, lo, hi) != {}
    ensures first in archive && last in archive && lo <= first <= last <= hi
    ensures KeysIn(archive, first, last) == KeysIn(archive, lo, hi)
  {
    var times := SortedSet(KeysIn(archive, lo, hi));
    SortedSetListsSet(KeysIn(archive, lo, hi));
    var some := Member(KeysIn(archive, lo, hi));
    assert some in times;
    first, last := times[0], times[|times| - 1];
    assert first in times && last in times;
    forall t | t in KeysIn(archive, lo, hi) ensures first <= t <= last {
      var i :| 0 <= i < |times| && times[i] == t;
    }
  }

  lemma FewSteps(intervalMs: int, pageRows: int, rows: int, room: int)
    requires intervalMs > 0 && (rows - 1) * intervalMs <= room < (pageRows - 1) * intervalMs + 2 * intervalMs
    ensures rows <= pageRows + 1
  {
    assert (pageRows + 1) * intervalMs == (pageRows - 1) * intervalMs + 2 * intervalMs;
    if rows > pageRows + 1 { Grids.MulOrder(pageRows + 1, rows - 1, intervalMs); }
  }

  /** Rows at least one interval apart are paced without slack. */
  lemma {:induction false} SpacedIsPaced(archive: Table, intervalMs: int)
    requires intervalMs > 0 && Spaced(archive, intervalMs)
    ensures Paced(archive, intervalMs, 0)
  {
    hide KeysIn, Spaced;
    forall s, t | s in archive && t in archive && s <= t ensures (|KeysIn(archive, s, t)| - 1) * intervalMs <= t - s {
      StepsBetween(archive, intervalMs, s, t);
    }
  }

  lemma {:induction false} StepsBetween(archive: Table, intervalMs: int, s: int, t: int)
    requires intervalMs > 0 && Spaced(archive, intervalMs) && s in archive && s <= t
    ensures (|KeysIn(archive, s, t)| - 1) * intervalMs <= t - s
    decreases t - s
  {
    hide Spaced;
    LastStretch(archive, intervalMs, s, t);
    if t - intervalMs >= s {
      StepsBetween(archive, intervalMs, s, t - intervalMs);
      Grids.MulOrder(|KeysIn(archive, s, t)| - 1, |KeysIn(archive, s, t - intervalMs)|, intervalMs);
      assert |KeysIn(archive, s, t - intervalMs)| * intervalMs == (|KeysIn(archive, s, t - intervalMs)| - 1) * intervalMs + intervalMs;
    } else {
      assert KeysIn(archive, s, t - intervalMs) == {};
      Grids.MulOrder(|KeysIn(archive, s, t)| - 1, 0, intervalMs);
    }
  }

  lemma LastStretch(archive: Table, intervalMs: int, lo: int, hi: int)
    requires intervalMs > 0 && Spaced(archive, intervalMs)
    ensures |KeysIn(archive, lo, hi)| <= |KeysIn(archive, lo, hi - intervalMs)| + 1
  {
    var all, before := KeysIn(archive, lo, hi), KeysIn(archive, lo, hi - intervalMs);
    var last := all - before;
    AtMostOne(last);
    assert all == before + last;
  }

  // ----- the run

  ghost predicate Agree(live: Table, archive: Table, times: set<int>)
    requires ShapedTable(live) && ShapedTable(archive)
  {
    forall t | t in times && (t in live || t in archive) :: t in live && t in archive && live[t] == archive[t]
  }

  predicate NoMismatch(mismatches: seq<nat>) {
    forall f: nat | f < |mismatches| :: mismatches[f] == 0
  }

  lemma FieldDifferenceIsRowDifference(live: Table, archive: Table, times: set<int>, f: nat)
    requires ShapedTable(live) && ShapedTable(archive) && f < FIELDS
    ensures FieldDifferingIn(live, archive, times, f) <= DifferingIn(live, archive, times)
  {
    forall t | t in FieldDifferingIn(live, archive, times, f) ensures t in DifferingIn(live, archive, times) {
      assert Differs(live[t], archive[t], f);
    }
  }

  lemma NoMismatchMeansSame(live: Table, archive: Table, times: set<int>, fields: FieldTally)
    requires ShapedTable(live) && ShapedTable(archive) && FieldCounts(live, archive, times, fields)
    ensures NoMismatch(fields.mismatches) <==> DifferingIn(live, archive, times) == {}
  {
    if DifferingIn(live, archive, times) != {} {
      var t := Member(DifferingIn(live, archive, times));
      var f: nat :| f < FIELDS && Differs(live[t], archive[t], f);
      assert t in FieldDifferingIn(live, archive, times, f);
      assert fields.mismatches[f] != 0;
    } else {
      forall f: nat | f < FIELDS ensures fields.mismatches[f] == 0 {
        FieldDifferenceIsRowDifference(live, archive, times, f);
      }
    }
  }

  /** The verdict computed from the counters says that the two tables agree on the compared times. */
  lemma VerdictMeansAgreement(live: Table, archive: Table, times: set<int>, maxSamples: int, tally: Tally)
    requires ShapedTable(live) && ShapedTable(archive) && Compared(live, archive, times, maxSamples, tally)
    ensures tally.onlyLive == 0 && tally.onlyArchive == 0 && NoMismatch(tally.fields.mismatches) <==> Agree(live, archive, times)
  {
    hide RowDiffers, SamplesOf, FieldCounts, ShapedTable;
    NoMismatchMeansSame(live, archive, times, tally.fields);
    var l, a := live.Keys * times, archive.Keys * times;
    assert tally.onlyLive == 0 <==> l - a == {};
    assert tally.onlyArchive == 0 <==> a - l == {};
    EmptyDifferences(live, archive, times);
  }

  lemma EmptyDifferences(live: Table, archive: Table, times: set<int>)
    requires ShapedTable(live) && ShapedTable(archive)
    ensures var l, a := live.Keys * times, archive.Keys * times;
            l - a == {} && a - l == {} && DifferingIn(live, archive, times) == {} <==> Agree(live, archive, times)
  {
    hide RowDiffers;
    var l, a, differing := live.Keys * times, archive.Keys * times, DifferingIn(live, archive, times);
    forall t | t in times && (t in live || t in archive)
      ensures t !in l - a && t !in a - l && t !in differing
         <==> t in live && t in archive && live[t] == archive[t]
    {
      if t in live && t in archive { SameRowsDoNotDiffer(live[t], archive[t]); }
    }
    if Agree(live, archive, times) {
      if l - a != {} { var t := Member(l - a); }
      if a - l != {} { var t := Member(a - l); }
      if differing != {} { var t := Member(differing); }
    }
  }

  lemma NothingCompared(live: Table, archive: Table, maxSamples: int, tally: Tally)
    requires ShapedTable(live) && ShapedTable(archive) && maxSamples >= 0
    requires tally == Tally(0, 0, 0, 0, 0, FieldTally(0, seq(FIELDS, _ => 0), seq(VALUE_FIELDS, _ => 0.0)), [])
    ensures Compared(live, archive, {}, maxSamples, tally)
  {
    assert live.Keys * {} == {} && archive.Keys * {} == {};
    assert DifferingIn(live, archive, {}) == {};
    forall f: nat | f < FIELDS ensures FieldDifferingIn(live, archive, {}, f) == {} {}
  }

  /** Reading more times keeps every value numeric only when both parts are. */
  lemma ReadableUnion(live: Table, archive: Table, a: set<int>, b: set<int>)
    requires ShapedTable(live) && ShapedTable(archive)
    ensures AllReadable(live, archive, a + b) <==> AllReadable(live, archive, a) && AllReadable(live, archive, b)
  {
    hide Readable;
  }

  /** The page loop over one overlap: it compares exactly the visited times. */
  method AuditPages(live: Table, archive: Table, args: AuditArgs, lo: int, hi: int) returns (r: Option<Tally>)
    requires ShapedTable(live) && ShapedTable(archive) && ValidArgs(args) && PagesFit(archive, args.intervalMs, args.pageRows)
    ensures var times := Covered(live, archive, args.intervalMs, args.pageRows, lo, hi);
            && (r.Some? <==> AllReadable(live, archive, times))
            && (r.Some? ==> Compared(live, archive, times, args.maxSamples, r.value))
  {
    hide Compared, AllReadable, ShapedTable, Covered, CoveredTo, TimesIn;
    var interval, pageRows := args.intervalMs, args.pageRows;
    Steps(interval, pageRows);
    ghost var page := pageRows * interval;
    var tally := Tally(0, 0, 0, 0, 0, FieldTally(0, seq(FIELDS, _ => 0), seq(VALUE_FIELDS, _ => 0.0)), []);
    NothingCompared(live, archive, args.maxSamples, tally);
    NothingReadable(live, archive);
    NothingCovered(live, archive, interval, pageRows, lo, hi);
    var cursor := lo;
    ghost var done: set<int> := {};
    while cursor <= hi
      invariant lo <= cursor
      invariant cursor <= hi ==> (cursor - lo) % page == 0
      invariant done == CoveredTo(live, archive, interval, pageRows, lo, hi, cursor)
      invariant Compared(live, archive, done, args.maxSamples, tally)
      invariant AllReadable(live, archive, done)
      decreases hi - cursor
    {
      var pageEnd := MinInt(hi, cursor + (pageRows - 1) * interval);
      PageExtends(live, archive, interval, pageRows, lo, hi, cursor, pageEnd);
      ReadableUnion(live, archive, done, TimesIn(live, archive, cursor, pageEnd));
      var next := AuditPage(live, archive, done, cursor, pageEnd, pageRows, args.maxSamples, tally);
      if next.None? {
        UnreadablePage(live, archive, interval, pageRows, lo, hi, pageEnd + interval);
        return None;
      }
      tally := next.value;
      done := done + TimesIn(live, archive, cursor, pageEnd);
      if pageEnd + interval <= hi {
        assert pageEnd + interval - lo == (cursor - lo) + page;
        Grids.ShiftKeepsResidue(page, cursor - lo);
      }
      cursor := pageEnd + interval;
    }
    EverythingCovered(live, archive, interval, pageRows, lo, hi, cursor);
    return Some(tally);
  }

  lemma NothingReadable(live: Table, archive: Table)
    requires ShapedTable(live) && ShapedTable(archive)
    ensures AllReadable(live, archive, {})
  {
  }

  lemma NothingCovered(live: Table, archive: Table, intervalMs: int, pageRows: int, lo: int, hi: int)
    requires intervalMs > 0 && pageRows > 0
    ensures CoveredTo(live, archive, intervalMs, pageRows, lo, hi, lo) == {}
  {
  }

  lemma EverythingCovered(live: Table, archive: Table, intervalMs: int, pageRows: int, lo: int, hi: int, cursor: int)
    requires intervalMs > 0 && pageRows > 0 && cursor > hi
    ensures CoveredTo(live, archive, intervalMs, pageRows, lo, hi, cursor) == Covered(live, archive, intervalMs, pageRows, lo, hi)
  {
  }

  lemma UnreadablePage(live: Table, archive: Table, intervalMs: int, pageRows: int, lo: int, hi: int, cursor: int)
    requires ShapedTable(live) && ShapedTable(archive) && intervalMs > 0 && pageRows > 0
    requires !AllReadable(live, archive, CoveredTo(live, archive, intervalMs, pageRows, lo, hi, cursor))
    ensures !AllReadable(live, archive, Covered(live, archive, intervalMs, pageRows, lo, hi))
  {
    hide Readable, Covered;
  }

  // ----- what the report says, in the tables' own terms

  /** The overlap starts at the latest of the first live row, the archive's first open and the requested start. */
  ghost predicate StartsAt(live: Table, earliest: int, start: Option<int>, lo: int) {
    && (exists t | t in live :: t <= lo) && earliest <= lo && (start.Some? ==> start.value <= lo)
    && ((lo in live && forall t | t in live :: lo <= t) || lo == earliest || start == Some(lo))
  }

  /** It ends at the earliest of the last live row, the archive's last open and the requested end. */
  ghost predicate EndsAt(live: Table, latest: int, end: Option<int>, hi: int) {
    && (exists t | t in live :: hi <= t) && hi <= latest && (end.Some? ==> hi <= end.value)
    && ((hi in live && forall t | t in live :: t <= hi) || hi == latest || end == Some(hi))
  }

  /** Rows of either table in the overlap, but not those between the last grid point of a page and the next page. */
  ghost function Visited(live: Table, archive: Table, args: AuditArgs, lo: int, hi: int): set<int>
    requires args.intervalMs > 0 && args.pageRows > 0
  {
    Steps(args.intervalMs, args.pageRows);
    set t | t in live.Keys + archive.Keys && lo <= t <= hi && (t - lo) % (args.pageRows * args.intervalMs) <= (args.pageRows - 1) * args.intervalMs
  }

  /** A sample names a compared time and says truly how the tables differ there. */
  ghost predicate TrueSample(live: Table, archive: Table, times: set<int>, sample: Sample) {
    var t := sample.openTimeMs;
    && t in times
    && match sample.difference
       case OnlyLive => t in live && t !in archive
       case OnlyArchive => t in archive && t !in live
       case FieldsDiffer => t in live && t in archive && live[t] != archive[t]
  }

  ghost predicate ReportSays(live: Table, archive: Table, times: set<int>, maxSamples: int, report: Report)
    requires ShapedTable(live) && ShapedTable(archive)
  {
    var tally := report.tally;
    var differences := tally.onlyLive + tally.onlyArchive + tally.fields.differenceRows;
    && tally.liveRows == |set t | t in times && t in live| && tally.archiveRows == |set t | t in times && t in archive|
    && tally.commonRows == |set t | t in times && t in live && t in archive|
    && tally.onlyLive == |set t | t in times && t in live && t !in archive|
    && tally.onlyArchive == |set t | t in times && t in archive && t !in live|
    && FieldsSay(live, archive, times, tally.fields)
    && (report.exact <==> forall t | t in times && (t in live || t in archive) :: t in live && t in archive && live[t] == archive[t])
    && |tally.samples| == (if differences < maxSamples then differences else maxSamples)
    && (forall s | s in tally.samples :: TrueSample(live, archive, times, s))
    && (forall i, j | 0 <= i < j < |tally.samples| :: tally.samples[i].openTimeMs != tally.samples[j].openTimeMs)
    && (report.samplesTruncated <==> differences > maxSamples)
  }

  /** Every compared value of both tables parses as a number or is absent. */
  ghost predicate AllNumeric(live: Table, archive: Table, times: set<int>)
    requires ShapedTable(live) && ShapedTable(archive)
  {
    forall t | t in times && t in live && t in archive :: Bad !in live[t].cells && Bad !in archive[t].cells
  }

  lemma CountedRows(live: Table, archive: Table, times: set<int>, tally: Tally)
    requires SetCounts(live, archive, times, tally)
    ensures tally.liveRows == |set t | t in times && t in live| && tally.archiveRows == |set t | t in times && t in archive|
    ensures tally.commonRows == |set t | t in times && t in live && t in archive|
    ensures tally.onlyLive == |set t | t in times && t in live && t !in archive|
    ensures tally.onlyArchive == |set t | t in times && t in archive && t !in live|
  {
    RowsOfOne(live, times);
    RowsOfOne(archive, times);
    RowsOfBoth(live, archive, times);
    RowsOfOnlyOne(live, archive, times);
    RowsOfOnlyOne(archive, live, times);
  }

  lemma RowsOfOne(table: Table, times: set<int>)
    ensures table.Keys * times == set t | t in times && t in table
  {
  }

  lemma RowsOfBoth(live: Table, archive: Table, times: set<int>)
    ensures (live.Keys * times) * (archive.Keys * times) == set t | t in times && t in live && t in archive
  {
  }

  lemma RowsOfOnlyOne(table: Table, other: Table, times: set<int>)
    ensures (table.Keys * times) - (other.Keys * times) == set t | t in times && t in table && t !in other
  {
  }

  lemma TrueSamples(live: Table, archive: Table, times: set<int>, samples: seq<Sample>)
    requires ShapedTable(live) && ShapedTable(archive) && SamplesOf(live, archive, times, samples)
    ensures forall s | s in samples :: TrueSample(live, archive, times, s)
  {
    hide RowDiffers;
    forall s | s in samples ensures TrueSample(live, archive, times, s) {
      assert Genuine(live, archive, s);
      if s.difference.FieldsDiffer? { SameRowsDoNotDiffer(live[s.openTimeMs], archive[s.openTimeMs]); }
    }
  }

  lemma ReadableIsNumeric(live: Table, archive: Table, times: set<int>)
    requires ShapedTable(live) && ShapedTable(archive)
    ensures AllReadable(live, archive, times) <==> AllNumeric(live, archive, times)
  {
    forall t | t in times && t in live && t in archive
      ensures Readable(live[t], archive[t]) <==> Bad !in live[t].cells && Bad !in archive[t].cells
    {
      NoBadCell(live[t], archive[t]);
    }
  }

  lemma NoBadCell(a: Row, b: Row)
    requires Shaped(a) && Shaped(b)
    ensures Readable(a, b) <==> Bad !in a.cells && Bad !in b.cells
  {
    if Bad in a.cells { var v: nat :| v < |a.cells| && a.cells[v] == Bad; }
    if Bad in b.cells { var v: nat :| v < |b.cells| && b.cells[v] == Bad; }
    if !Readable(a, b) {
      var v: nat :| v < VALUE_FIELDS && (a.cells[v].Bad? || b.cells[v].Bad?);
      assert a.cells[v] in a.cells && b.cells[v] in b.cells;
    }
  }

  lemma ReportIsTrue(live: Table, archive: Table, times: set<int>, maxSamples: int, report: Report)
    requires ShapedTable(live) && ShapedTable(archive) && Compared(live, archive, times, maxSamples, report.tally)
    requires report.exact <==> Agree(live, archive, times)
    requires report.samplesTruncated <==> TotalDifferences(report.tally) > |report.tally.samples|
    ensures ReportSays(live, archive, times, maxSamples, report)
  {
    hide FieldCounts, SamplesOf, FieldsSay, TrueSample;
    ComparedParts(live, archive, times, maxSamples, report.tally);
    CountedRows(live, archive, times, report.tally);
    CountsSay(live, archive, times, report.tally.fields);
    TrueSamples(live, archive, times, report.tally.samples);
    SamplesApart(live, archive, times, report.tally.samples);
  }

  lemma SamplesApart(live: Table, archive: Table, times: set<int>, samples: seq<Sample>)
    requires ShapedTable(live) && ShapedTable(archive) && SamplesOf(live, archive, times, samples)
    ensures forall i, j | 0 <= i < j < |samples| :: samples[i].openTimeMs != samples[j].openTimeMs
  {
  }

  lemma OverlapIsUnique(live: Table, liveLo: int, liveHi: int, earliest: int, latest: int, args: AuditArgs, lo: int, hi: int)
    requires IsBounds(live, liveLo, liveHi) && StartsAt(live, earliest, args.startMs, lo) && EndsAt(live, latest, args.endMs, hi)
    ensures Overlap(liveLo, liveHi, earliest, latest, args) == (lo, hi)
  {
  }

  lemma OverlapStartsAndEnds(live: Table, liveLo: int, liveHi: int, earliest: int, latest: int, args: AuditArgs)
    requires IsBounds(live, liveLo, liveHi)
    ensures var (lo, hi) := Overlap(liveLo, liveHi, earliest, latest, args);
            StartsAt(live, earliest, args.startMs, lo) && EndsAt(live, latest, args.endMs, hi)
  {
  }

  /**
   * The audit: exact error conditions, and a report that is one comparison of the two tables over the visited times,
   * with every counter, maximum and sample stated in the rows' own fields.
   */
  method Audit(live: Table, archive: Table, earliest: int, latest: int, args: AuditArgs) returns (r: Result<Report, AuditError>)
    requires ShapedTable(live) && ShapedTable(archive)
    requires ValidArgs(args) ==> PagesFit(archive, args.intervalMs, args.pageRows)
    ensures r == Failure(ArgumentsInvalid) <==>
              args.intervalMs < 1 || args.pageRows < 1 || args.pageRows > 1_000_000 || args.maxSamples < 0 || args.maxSamples > 1_000
    ensures r != Failure(ArgumentsInvalid) ==> (r == Failure(NoLiveSeries) <==> live == map[])
    ensures r != Failure(ArgumentsInvalid) && live != map[] ==>
              exists lo, hi :: StartsAt(live, earliest, args.startMs, lo) && EndsAt(live, latest, args.endMs, hi)
    ensures r != Failure(ArgumentsInvalid) && live != map[] ==>
              forall lo, hi | StartsAt(live, earliest, args.startMs, lo) && EndsAt(live, latest, args.endMs, hi) ::
                && (r == Failure(NoOverlap) <==> lo > hi)
                && (r == Failure(NonNumericValue) <==> lo <= hi && !AllNumeric(live, archive, Visited(live, archive, args, lo, hi)))
                && (r.Success? ==>
                      && r.value.overlapStart == lo && r.value.overlapEnd == hi
                      && ReportSays(live, archive, Visited(live, archive, args, lo, hi), args.maxSamples, r.value)
                      && Compared(live, archive, Visited(live, archive, args, lo, hi), args.maxSamples, r.value.tally))
  {
    hide Compared, AllReadable, PagesFit, ShapedTable, Agree, NoMismatch, StartsAt, EndsAt, ReportSays, AllNumeric;
    if args.intervalMs < 1 || args.pageRows < 1 || args.pageRows > MAX_PAGE_ROWS || args.maxSamples < 0 || args.maxSamples > MAX_SAMPLES {
      return Failure(ArgumentsInvalid);
    }
    if live == map[] {
      return Failure(NoLiveSeries);
    }
    var liveLo, liveHi := LiveBounds(live);
    var (lo, hi) := Overlap(liveLo, liveHi, earliest, latest, args);
    OverlapStartsAndEnds(live, liveLo, liveHi, earliest, latest, args);
    forall x, y | StartsAt(live, earliest, args.startMs, x) && EndsAt(live, latest, args.endMs, y) ensures x == lo && y == hi {
      OverlapIsUnique(live, liveLo, liveHi, earliest, latest, args, x, y);
    }
    if lo > hi {
      return Failure(NoOverlap);
    }
    ghost var times := Visited(live, archive, args, lo, hi);
    VisitedIsCovered(live, archive, args, lo, hi);
    ReadableIsNumeric(live, archive, times);
    var audited := AuditPages(live, archive, args, lo, hi);
    if audited.None? {
      return Failure(NonNumericValue);
    }
    var tally := audited.value;
    VerdictMeansAgreement(live, archive, times, args.maxSamples, tally);
    var exact := tally.onlyLive == 0 && tally.onlyArchive == 0 && NoMismatch(tally.fields.mismatches);
    var report := Report(exact, lo, hi, tally, TotalDifferences(tally) > |tally.samples|);
    ReportIsTrue(live, archive, times, args.maxSamples, report);
    return Success(report);
  }

  lemma VisitedIsCovered(live: Table, archive: Table, args: AuditArgs, lo: int, hi: int)
    requires args.intervalMs > 0 && args.pageRows > 0
    ensures Visited(live, archive, args, lo, hi) == Covered(live, archive, args.intervalMs, args.pageRows, lo, hi)
  {
  }

  method LiveBounds(live: Table) returns (lo: int, hi: int)
    requires live != map[]
    ensures IsBounds(live, lo, hi)
  {
    var times := SortedSet(live.Keys);
    SortedSetListsSet(live.Keys);
    var some :| some in live;
    assert some in times;
    lo, hi := times[0], times[|times| - 1];
    assert lo in times && hi in times;
  }

  // ----- main results about the verdict

  /** Every row of the window sits a whole number of intervals after the overlap start. */
  ghost predicate Aligned(live: Table, archive: Table, intervalMs: int, lo: int, hi: int)
    requires intervalMs > 0
  {
    forall t | t in TimesIn(live, archive, lo, hi) :: (t - lo) % intervalMs == 0
  }

  /** A multiple of the interval never falls behind the last grid point of a page. */
  lemma AlignedIsVisited(intervalMs: int, pageRows: int, offset: int)
    requires intervalMs > 0 && pageRows > 0 && offset % intervalMs == 0
    ensures pageRows * intervalMs > 0
    ensures offset % (pageRows * intervalMs) <= (pageRows - 1) * intervalMs
  {
    Steps(intervalMs, pageRows);
    var page := pageRows * intervalMs;
    var q, p, k := offset / intervalMs, offset / page, offset % page;
    assert offset == q * intervalMs && offset == p * page + k;
    assert k == (q - p * pageRows) * intervalMs by {
      assert p * page == (p * pageRows) * intervalMs;
    }
    var steps := q - p * pageRows;
    if steps >= pageRows {
      Grids.MulOrder(pageRows, steps, intervalMs);
    } else {
      Grids.MulOrder(steps, pageRows - 1, intervalMs);
    }
  }

  /** The audit visits the whole window for every page size exactly when all its rows are aligned with the overlap start. */
  lemma EveryPageSizeCoversIffAligned(live: Table, archive: Table, intervalMs: int, lo: int, hi: int)
    requires intervalMs > 0
    ensures (forall pageRows | 1 <= pageRows <= MAX_PAGE_ROWS ::
               Covered(live, archive, intervalMs, pageRows, lo, hi) == TimesIn(live, archive, lo, hi))
       <==> Aligned(live, archive, intervalMs, lo, hi)
  {
    if Aligned(live, archive, intervalMs, lo, hi) {
      forall pageRows | 1 <= pageRows <= MAX_PAGE_ROWS
        ensures Covered(live, archive, intervalMs, pageRows, lo, hi) == TimesIn(live, archive, lo, hi)
      {
        forall t | t in TimesIn(live, archive, lo, hi) ensures t in Covered(live, archive, intervalMs, pageRows, lo, hi) {
          AlignedIsVisited(intervalMs, pageRows, t - lo);
        }
      }
    }
    if forall pageRows | 1 <= pageRows <= MAX_PAGE_ROWS ::
         Covered(live, archive, intervalMs, pageRows, lo, hi) == TimesIn(live, archive, lo, hi) {
      assert Covered(live, archive, intervalMs, 1, lo, hi) == TimesIn(live, archive, lo, hi);
      forall t | t in TimesIn(live, archive, lo, hi) ensures (t - lo) % intervalMs == 0 {
        assert t in Covered(live, archive, intervalMs, 1, lo, hi);
        assert 1 * intervalMs == intervalMs && (1 - 1) * intervalMs == 0;
      }
    }
  }

  /** Two audits of the same times agree on every counter, maximum and sample count; only the choice of samples may differ. */
  lemma ReportIsDetermined(live: Table, archive: Table, times: set<int>, maxSamples: int, x: Tally, y: Tally)
    requires ShapedTable(live) && ShapedTable(archive)
    requires Compared(live, archive, times, maxSamples, x) && Compared(live, archive, times, maxSamples, y)
    ensures x.(samples := []) == y.(samples := []) && |x.samples| == |y.samples|
  {
    hide FieldCounts, SamplesOf;
    CountsAreDetermined(live, archive, times, x.fields, y.fields);
  }

  /** For aligned rows the page size is irrelevant: any two page sizes report the same counters and the same verdict. */
  lemma PageSizeIsIrrelevant(live: Table, archive: Table, intervalMs: int, lo: int, hi: int,
                             p: int, q: int, maxSamples: int, x: Tally, y: Tally)
    requires ShapedTable(live) && ShapedTable(archive) && intervalMs > 0
    requires 1 <= p <= MAX_PAGE_ROWS && 1 <= q <= MAX_PAGE_ROWS && Aligned(live, archive, intervalMs, lo, hi)
    requires Compared(live, archive, Covered(live, archive, intervalMs, p, lo, hi), maxSamples, x)
    requires Compared(live, archive, Covered(live, archive, intervalMs, q, lo, hi), maxSamples, y)
    ensures x.(samples := []) == y.(samples := []) && |x.samples| == |y.samples|
    ensures Compared(live, archive, TimesIn(live, archive, lo, hi), maxSamples, x)
  {
    hide Compared, Covered, TimesIn, Aligned;
    EveryPageSizeCoversIffAligned(live, archive, intervalMs, lo, hi);
    ReportIsDetermined(live, archive, TimesIn(live, archive, lo, hi), maxSamples, x, y);
  }

  /** A minute series whose live table has one extra row half a minute in. */
  const MINUTE_AUDIT := AuditArgs(60_000, 1, 0, None, None)

  /** An off-grid live row is stepped over: with pages of one row the audit calls tables exact that differ in the window. */
  method OffGridRowEscapes(row: Row, extra: Row) returns (live: Table, archive: Table, r: Result<Report, AuditError>)
    requires Shaped(row) && Shaped(extra) && Readable(row, row)
    ensures ShapedTable(live) && ShapedTable(archive)
    ensures r.Success? && r.value.exact && r.value.overlapStart == 0 && r.value.overlapEnd == 60_000
    ensures !Agree(live, archive, TimesIn(live, archive, 0, 60_000))
  {
    live, archive := map[0 := row, 30_000 := extra, 60_000 := row], map[0 := row, 60_000 := row];
    MinuteRowsFit(archive, row);
    OffGridRowIsSkipped(live, archive, row, extra);
    hide Covered, Agree, AllReadable, Compared, PagesFit, ShapedTable, TimesIn;
    assert 0 in live;
    r := Audit(live, archive, 0, 60_000, MINUTE_AUDIT);
    assert IsBounds(live, 0, 60_000) && Overlap(0, 60_000, 0, 60_000, MINUTE_AUDIT) == (0, 60_000);
    FourErrors(r);
  }

  lemma FourErrors(r: Result<Report, AuditError>)
    ensures r.Success? || r == Failure(ArgumentsInvalid) || r == Failure(NoLiveSeries) || r == Failure(NoOverlap) || r == Failure(NonNumericValue)
  {
    match r
    case Success(_) =>
    case Failure(error) =>
      match error
      case ArgumentsInvalid =>
      case NoLiveSeries =>
      case NoOverlap =>
      case NonNumericValue =>
  }

  lemma MinuteRowsFit(archive: Table, row: Row)
    requires archive == map[0 := row, 60_000 := row]
    ensures PagesFit(archive, 60_000, 1)
  {
    SpacedIsPaced(archive, 60_000);
    PacedPagesFit(archive, 60_000, 1, 0);
  }

  lemma OffGridRowIsSkipped(live: Table, archive: Table, row: Row, extra: Row)
    requires Shaped(row) && Shaped(extra) && Readable(row, row)
    requires live == map[0 := row, 30_000 := extra, 60_000 := row] && archive == map[0 := row, 60_000 := row]
    ensures ShapedTable(live) && ShapedTable(archive)
    ensures var visited := Covered(live, archive, 60_000, 1, 0, 60_000);
            Agree(live, archive, visited) && AllReadable(live, archive, visited)
    ensures !Agree(live, archive, TimesIn(live, archive, 0, 60_000))
  {
    assert 30_000 in TimesIn(live, archive, 0, 60_000);
    forall t | t in Covered(live, archive, 60_000, 1, 0, 60_000) ensures t == 0 || t == 60_000 {
      assert 1 * 60_000 == 60_000;
    }
    assert !RowDiffers(row, row);
  }
}
