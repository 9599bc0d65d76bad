/** The whole import, and what its report says about the requested days. */
module ImportCoverage {
  import opened Results
  import opened Sorting
  import opened Grids
  import opened ArchivePlan
  import opened ImportWorklist
  import opened ImportRun

  function StartMs(day: int): int { day * DAY_MS }

  function EndMs(day: int): int { (day + 1) * DAY_MS - 1 }

  function Planned(cal: Calendar, supported: bool, args: ImportArgs, nowMs: int): seq<Ref> {
    PlannedObjects(cal, supported, StartMs(args.startDay), EndMs(args.endDay), nowMs)
  }

  /** Everything a run visits. */
  function Worklist(cal: Calendar, planned: seq<Ref>, fetch: Ref -> Fetch): seq<Ref> {
    Visited(cal, planned, fetch, SelectSourceObjects(cal, planned))
  }

  // ----- a plan is fit for the loop

  lemma ApartIsDistinct(cal: Calendar, refs: seq<Ref>, g: Granularity)
    requires ValidCalendar(cal) && Apart(refs) && AllGenuine(cal, refs, g)
    ensures Distinct(refs)
  {
    forall i, j | 0 <= i < j < |refs| ensures refs[i] != refs[j] {
      assert refs[i] in refs;
      RefInMonth(cal, refs[i]);
    }
  }

  /** Among months followed by days, the days kept by a filter stay apart. */
  lemma FallbacksApart(cal: Calendar, monthly: seq<Ref>, daily: seq<Ref>, m: int)
    requires AllGenuine(cal, monthly, Monthly) && Apart(daily)
    ensures Apart(FallbacksOf(cal, monthly + daily, m))
  {
    var all, days := monthly + daily, FallbacksOf(cal, monthly + daily, m);
    forall i, j | 0 <= i < j < |days| ensures days[i].endMs < days[j].startMs {
      var a, b := FilterPosition(DayWithin(cal, m), all, i, j);
      assert a < |monthly| ==> all[a] in monthly;
    }
  }

  lemma ApartIsSortedByStart(cal: Calendar, refs: seq<Ref>)
    requires ValidCalendar(cal) && Apart(refs) && GenuineRefs(cal, refs)
    ensures SortedBy(LessEqStart, refs)
  {
    forall i, j | 0 <= i < j < |refs| ensures LessEqStart(refs[i], refs[j]) {
      assert refs[i] in refs;
      RefInMonth(cal, refs[i]);
    }
  }

  lemma ListsMakePlan(cal: Calendar, monthly: seq<Ref>, daily: seq<Ref>)
    requires ValidCalendar(cal)
    requires Apart(monthly) && AllGenuine(cal, monthly, Monthly) && Apart(daily) && AllGenuine(cal, daily, Daily)
    ensures ValidPlan(cal, monthly + daily)
    ensures forall m :: Sort(LessEqStart, FallbacksOf(cal, monthly + daily, m)) == FallbacksOf(cal, monthly + daily, m)
  {
    hide ValidCalendar, FallbacksOf;
    var planned := monthly + daily;
    ApartIsDistinct(cal, monthly, Monthly);
    ApartIsDistinct(cal, daily, Daily);
    DistinctConcat(monthly, daily);
    forall m
      ensures Apart(FallbacksOf(cal, planned, m))
      ensures Sort(LessEqStart, FallbacksOf(cal, planned, m)) == FallbacksOf(cal, planned, m)
    {
      FallbacksApart(cal, monthly, daily, m);
      FallbackMembers(cal, planned, m);
      ApartIsSortedByStart(cal, FallbacksOf(cal, planned, m));
      SortKeepsSorted(LessEqStart, FallbacksOf(cal, planned, m));
    }
  }

  lemma PlanIsValid(cal: Calendar, supported: bool, startMs: int, endMs: int, nowMs: int)
    requires ValidCalendar(cal)
    ensures var planned := PlannedObjects(cal, supported, startMs, endMs, nowMs);
            && ValidPlan(cal, planned)
            && forall m :: Sort(LessEqStart, FallbacksOf(cal, planned, m)) == FallbacksOf(cal, planned, m)
  {
    hide ValidCalendar, ValidPlan, FallbacksOf;
    if Plannable(supported, startMs, endMs) {
      var start := MaxInt(startMs, EARLIEST_DAY * DAY_MS);
      var monthly, daily := PlannedMonths(cal, start, endMs, nowMs), PlannedDays(start, endMs, nowMs);
      MonthsAreApart(cal, cal.monthOf(start / DAY_MS), |monthly|);
      DaysAreApart(cal, FirstWholeDay(start), |daily|);
      ListsMakePlan(cal, monthly, daily);
    } else {
      ListsMakePlan(cal, [], []);
      assert [] + [] == PlannedObjects(cal, supported, startMs, endMs, nowMs);
    }
  }

  // ----- order, exactly once, disjointness

  /** The visited objects come in time order, each once. */
  lemma WorklistInOrder(cal: Calendar, planned: seq<Ref>, fetch: Ref -> Fetch)
    requires ValidCalendar(cal) && ValidPlan(cal, planned)
    ensures InOrder(fetch, Worklist(cal, planned, fetch)) && Distinct(Worklist(cal, planned, fetch))
    ensures GenuineRefs(cal, Worklist(cal, planned, fetch))
    ensures forall i, j | 0 <= i < j < |Worklist(cal, planned, fetch)| ::
              Worklist(cal, planned, fetch)[i].startMs <= Worklist(cal, planned, fetch)[j].startMs
  {
    hide ValidCalendar, InOrder, Visited, SelectSourceObjects, Genuine, Distinct;
    var selected := SelectSourceObjects(cal, planned);
    SelectionIsApart(cal, planned);
    VisitedInOrder(cal, planned, fetch, selected);
    WorklistGenuine(cal, planned, fetch);
    var all := Worklist(cal, planned, fetch);
    forall r | r in all ensures r.startMs <= r.endMs {
      RefInMonth(cal, r);
    }
    InOrderIsDistinct(fetch, all);
    StartsInOrder(fetch, all);
  }

  lemma StartsInOrder(fetch: Ref -> Fetch, all: seq<Ref>)
    requires InOrder(fetch, all) && forall r | r in all :: r.startMs <= r.endMs
    ensures forall i, j | 0 <= i < j < |all| :: all[i].startMs <= all[j].startMs
  {
    forall i, j | 0 <= i < j < |all| ensures all[i].startMs <= all[j].startMs {
      assert Before(fetch, all[i], all[j]) && all[i] in all;
    }
  }

  lemma WorklistGenuine(cal: Calendar, planned: seq<Ref>, fetch: Ref -> Fetch)
    requires ValidCalendar(cal) && ValidPlan(cal, planned)
    ensures forall x | x in Worklist(cal, planned, fetch) :: x in planned && Genuine(cal, x)
  {
    hide ValidCalendar, Genuine, SelectSourceObjects, Visited;
    var selected := SelectSourceObjects(cal, planned);
    SelectionIsApart(cal, planned);
    forall x | x in Worklist(cal, planned, fetch) ensures x in planned && Genuine(cal, x) {
      VisitedMembers(cal, planned, fetch, selected, x);
      if x !in selected {
        var r :| r in selected && x in NextFallbacks(cal, planned, fetch, r);
        FallbackMembers(cal, planned, r.period);
      }
    }
  }

  lemma {:induction false} OutcomesPartition(fetch: Ref -> Fetch, refs: seq<Ref>)
    requires forall r | r in refs :: !fetch(r).Failed?
    ensures |refs| == |Filter(Fetched(fetch, Imported), refs)| + |Filter(Fetched(fetch, Reused), refs)| + |Filter(Fetched(fetch, NotFound), refs)|
    ensures |Filter(Kept(fetch), refs)| == |Filter(Fetched(fetch, Imported), refs)| + |Filter(Fetched(fetch, Reused), refs)|
  {
    if refs != [] {
      assert refs[|refs| - 1] in refs && forall r | r in refs[..|refs| - 1] :: r in refs;
      OutcomesPartition(fetch, refs[..|refs| - 1]);
    }
  }

  ghost predicate Finished(cal: Calendar, planned: seq<Ref>, fetch: Ref -> Fetch, report: ImportReport) {
    IsReport(fetch, Worklist(cal, planned, fetch), report)
    && forall x | x in Worklist(cal, planned, fetch) :: !fetch(x).Failed?
  }

  /** Every visited object is exactly one of imported, reused and missing, and the counts add up. */
  lemma ProcessedExactlyOnce(cal: Calendar, planned: seq<Ref>, fetch: Ref -> Fetch, report: ImportReport)
    requires ValidCalendar(cal) && ValidPlan(cal, planned) && Finished(cal, planned, fetch, report)
    ensures Distinct(report.refs)
    ensures |report.refs| == |report.imported| + |report.reused| + |report.missing|
    ensures |report.objects| == |report.imported| + |report.reused|
    ensures forall x | x in report.refs ::
              && (x in report.imported || x in report.reused || x in report.missing)
              && !(x in report.imported && x in report.reused) && !(x in report.imported && x in report.missing)
              && !(x in report.reused && x in report.missing)
  {
    hide Worklist, Distinct, ValidCalendar, ValidPlan, Filter;
    var all := Worklist(cal, planned, fetch);
    WorklistInOrder(cal, planned, fetch);
    OutcomesPartition(fetch, all);
    forall x | x in all
      ensures x in report.imported <==> fetch(x).Imported?
      ensures x in report.reused <==> fetch(x).Reused?
      ensures x in report.missing <==> fetch(x).NotFound?
    {
      FilterMember(Fetched(fetch, Imported), all, x);
      FilterMember(Fetched(fetch, Reused), all, x);
      FilterMember(Fetched(fetch, NotFound), all, x);
    }
  }

  /** The published objects cover pairwise disjoint ranges, in time order; in particular no kept day lies in a kept month. */
  lemma KeptRangesAreDisjoint(cal: Calendar, planned: seq<Ref>, fetch: Ref -> Fetch, report: ImportReport)
    requires ValidCalendar(cal) && ValidPlan(cal, planned) && Finished(cal, planned, fetch, report)
    ensures Apart(report.objects)
    ensures forall a, b | a in report.objects && b in report.objects && a.granularity.Monthly? && b.granularity.Daily? ::
              cal.monthOf(b.period) != a.period
  {
    hide Worklist, ValidCalendar, ValidPlan, Filter, InOrder, Distinct;
    var all := Worklist(cal, planned, fetch);
    WorklistInOrder(cal, planned, fetch);
    KeptApart(fetch, all);
    FilterMembers(Kept(fetch), all);
    forall a, b | a in report.objects && b in report.objects && a.granularity.Monthly? && b.granularity.Daily?
      ensures cal.monthOf(b.period) != a.period
    {
      RefInMonth(cal, a);
      RefInMonth(cal, b);
      var i :| 0 <= i < |report.objects| && report.objects[i] == a;
      var j :| 0 <= j < |report.objects| && report.objects[j] == b;
      assert i < j || j < i;
    }
  }

  lemma KeptApart(fetch: Ref -> Fetch, all: seq<Ref>)
    requires InOrder(fetch, all)
    ensures Apart(Filter(Kept(fetch), all))
  {
    var kept := Filter(Kept(fetch), all);
    forall i, j | 0 <= i < j < |kept| ensures kept[i].endMs < kept[j].startMs {
      var a, b := FilterPosition(Kept(fetch), all, i, j);
      assert Before(fetch, all[a], all[b]);
    }
  }

  // ----- coverage

  predicate Covers(r: Ref, d: int) { r.startMs <= d * DAY_MS && (d + 1) * DAY_MS - 1 <= r.endMs }

  /** A missing object nothing was scheduled for: a day, or a month without planned days. */
  predicate Leaf(cal: Calendar, planned: seq<Ref>, r: Ref) {
    r.granularity.Daily? || FallbacksOf(cal, planned, r.period) == []
  }

  /** Day `d` is covered by a kept object or by a recorded missing leaf. */
  ghost predicate Accounted(cal: Calendar, planned: seq<Ref>, report: ImportReport, d: int) {
    || (exists r | r in report.objects :: Covers(r, d))
    || (exists r | r in report.missing :: Covers(r, d) && Leaf(cal, planned, r))
  }

  ghost predicate CoveredBySelection(cal: Calendar, planned: seq<Ref>, d: int) {
    exists r | r in SelectSourceObjects(cal, planned) :: Covers(r, d)
  }

  /** The day's month was requested and is missing, other days of it were scheduled instead, but this day was not planned. */
  predicate LostAtBoundary(cal: Calendar, planned: seq<Ref>, fetch: Ref -> Fetch, d: int) {
    var month := MonthRef(cal, cal.monthOf(d));
    month in planned && fetch(month).NotFound? && FallbacksOf(cal, planned, month.period) != [] && DayRef(d) !in planned
  }

  lemma CoveringObject(cal: Calendar, r: Ref, d: int)
    requires ValidCalendar(cal) && Genuine(cal, r)
    ensures Covers(r, d) <==> r == DayRef(d) || r == MonthRef(cal, cal.monthOf(d))
  {
    InMonth(cal, d);
    if r.granularity.Monthly? {
      MonthIsUnique(cal, r.period, d);
    }
  }

  /** What the report says about one visited object. */
  lemma VisitRecorded(cal: Calendar, planned: seq<Ref>, fetch: Ref -> Fetch, report: ImportReport, r: Ref)
    requires Finished(cal, planned, fetch, report)
    ensures r in report.objects <==> r in Worklist(cal, planned, fetch) && !fetch(r).NotFound?
    ensures r in report.missing <==> r in Worklist(cal, planned, fetch) && fetch(r).NotFound?
  {
    hide Worklist;
    var all := Worklist(cal, planned, fetch);
    FilterMember(Kept(fetch), all, r);
    FilterMember(Fetched(fetch, NotFound), all, r);
  }

  /** An object is visited exactly when it is selected, or it is a planned day of a selected month that is missing. */
  lemma VisitedExactly(cal: Calendar, planned: seq<Ref>, fetch: Ref -> Fetch, r: Ref)
    requires ValidCalendar(cal) && ValidPlan(cal, planned) && Genuine(cal, r)
    ensures r in Worklist(cal, planned, fetch) <==>
              r in planned && (r.granularity.Daily? && MonthRef(cal, cal.monthOf(r.period)) in planned
                               ==> fetch(MonthRef(cal, cal.monthOf(r.period))).NotFound?)
  {
    hide ValidCalendar, SelectSourceObjects, Visited, ValidPlan;
    var selected, m := SelectSourceObjects(cal, planned), MonthOfRef(cal, r);
    PlanGenuine(cal, planned);
    SelectedExactly(cal, planned, r);
    VisitedMembers(cal, planned, fetch, selected, r);
    var month := MonthRef(cal, m);
    SelectedExactly(cal, planned, month);
    FallbackMembers(cal, planned, m);
    if r in planned && r.granularity.Daily? && month in planned && fetch(month).NotFound? {
      assert r in NextFallbacks(cal, planned, fetch, month);
    }
    if r in Worklist(cal, planned, fetch) && r !in selected {
      var s :| s in selected && r in NextFallbacks(cal, planned, fetch, s);
      SelectedExactly(cal, planned, s);
      FallbackMembers(cal, planned, s.period);
      assert s == month;
    }
  }

  lemma PlanGenuine(cal: Calendar, planned: seq<Ref>)
    requires ValidPlan(cal, planned)
    ensures GenuineRefs(cal, planned)
  {
  }

  lemma SelectedExactly(cal: Calendar, planned: seq<Ref>, r: Ref)
    requires ValidCalendar(cal) && ValidPlan(cal, planned)
    ensures r in SelectSourceObjects(cal, planned) <==>
              r in planned && (r.granularity.Daily? ==> MonthRef(cal, cal.monthOf(r.period)) !in planned)
  {
    hide ValidCalendar, SelectSourceObjects;
    SelectionIsApart(cal, planned);
    if r.granularity.Daily? {
      var m := cal.monthOf(r.period);
      if m in CoveredMonths(planned) {
        var s :| s in planned && s.granularity.Monthly? && s.period == m;
        assert Genuine(cal, s);
      }
      if MonthRef(cal, m) in planned {
        assert MonthRef(cal, m).period in CoveredMonths(planned);
      }
    }
  }

  /**
   * A day that the initial selection covers is accounted for, by a kept object or a recorded missing leaf,
   * exactly when it is not lost at the boundary of the requested window.
   */
  lemma DayAccountedIff(cal: Calendar, planned: seq<Ref>, fetch: Ref -> Fetch, report: ImportReport, d: int)
    requires ValidCalendar(cal) && ValidPlan(cal, planned) && Finished(cal, planned, fetch, report)
    requires CoveredBySelection(cal, planned, d)
    ensures Accounted(cal, planned, report, d) <==> !LostAtBoundary(cal, planned, fetch, d)
  {
    hide ValidCalendar, ValidPlan, Finished, FallbacksOf, SelectSourceObjects, Worklist, Genuine;
    var day, month := DayRef(d), MonthRef(cal, cal.monthOf(d));
    BothGenuine(cal, d);
    VisitedExactly(cal, planned, fetch, day);
    VisitedExactly(cal, planned, fetch, month);
    VisitRecorded(cal, planned, fetch, report, day);
    VisitRecorded(cal, planned, fetch, report, month);
    CoveringObject(cal, day, d);
    CoveringObject(cal, month, d);
    SelectionCovers(cal, planned, d);
    OnlyTwoCover(cal, planned, fetch, report, d);
    FallbackMembers(cal, planned, cal.monthOf(d));
  }

  lemma BothGenuine(cal: Calendar, d: int)
    ensures Genuine(cal, DayRef(d)) && Genuine(cal, MonthRef(cal, cal.monthOf(d)))
  {
  }

  lemma SelectionCovers(cal: Calendar, planned: seq<Ref>, d: int)
    requires ValidCalendar(cal) && ValidPlan(cal, planned)
    ensures CoveredBySelection(cal, planned, d) <==> DayRef(d) in planned || MonthRef(cal, cal.monthOf(d)) in planned
  {
    hide ValidCalendar, ValidPlan, SelectSourceObjects, Genuine;
    var day, month := DayRef(d), MonthRef(cal, cal.monthOf(d));
    BothGenuine(cal, d);
    SelectedExactly(cal, planned, day);
    SelectedExactly(cal, planned, month);
    CoveringObject(cal, day, d);
    CoveringObject(cal, month, d);
    PlanGenuine(cal, planned);
    if CoveredBySelection(cal, planned, d) {
      var r :| r in SelectSourceObjects(cal, planned) && Covers(r, d);
      SelectedExactly(cal, planned, r);
      CoveringObject(cal, r, d);
    }
  }

  lemma OnlyTwoCover(cal: Calendar, planned: seq<Ref>, fetch: Ref -> Fetch, report: ImportReport, d: int)
    requires ValidCalendar(cal) && ValidPlan(cal, planned) && Finished(cal, planned, fetch, report)
    ensures forall r | (r in report.objects || r in report.missing) && Covers(r, d) ::
              r == DayRef(d) || r == MonthRef(cal, cal.monthOf(d))
  {
    hide ValidCalendar, ValidPlan, Finished, Worklist, Genuine, Covers;
    WorklistGenuine(cal, planned, fetch);
    forall r | (r in report.objects || r in report.missing) && Covers(r, d)
      ensures r == DayRef(d) || r == MonthRef(cal, cal.monthOf(d))
    {
      VisitRecorded(cal, planned, fetch, report, r);
      CoveringObject(cal, r, d);
    }
  }

  /** Every day that was asked for, that the provider publishes and that is over, is accounted for after an import. */
  lemma RequestedDaysAreAccounted(cal: Calendar, supported: bool, args: ImportArgs, nowMs: int, fetch: Ref -> Fetch, report: ImportReport, d: int)
    requires ValidCalendar(cal) && supported
    requires args.startDay <= d <= args.endDay && EARLIEST_DAY <= d < nowMs / DAY_MS
    requires Finished(cal, Planned(cal, supported, args, nowMs), fetch, report)
    ensures Accounted(cal, Planned(cal, supported, args, nowMs), report, d)
  {
    hide ValidCalendar, ValidPlan, Finished, FallbacksOf, SelectSourceObjects, Worklist, Genuine, PlannedMonths, PlannedDays, Accounted;
    var planned := Planned(cal, supported, args, nowMs);
    var start := MaxInt(StartMs(args.startDay), EARLIEST_DAY * DAY_MS);
    PlanIsValid(cal, supported, StartMs(args.startDay), EndMs(args.endDay), nowMs);
    PlanHoldsPlanned(cal, start, EndMs(args.endDay), nowMs);
    assert DayPlanned(d, start, EndMs(args.endDay), nowMs);
    assert DayRef(d) in planned;
    SelectionCovers(cal, planned, d);
    DayAccountedIff(cal, planned, fetch, report, d);
  }

  /**
   * The days outside the window are not: if the window starts inside a month whose object is missing, the first day
   * of that month was covered by the selection and is accounted for by nothing.
   */
  lemma FirstDayOfBoundaryMonthIsLost(cal: Calendar, args: ImportArgs, nowMs: int, fetch: Ref -> Fetch, report: ImportReport)
    requires ValidCalendar(cal) && args.startDay <= args.endDay && EARLIEST_DAY <= args.startDay
    requires cal.firstDay(cal.monthOf(args.startDay)) < args.startDay
    requires cal.monthOf(args.startDay) < cal.monthOf(nowMs / DAY_MS)
    requires fetch(MonthRef(cal, cal.monthOf(args.startDay))).NotFound?
    requires Finished(cal, Planned(cal, true, args, nowMs), fetch, report)
    ensures var planned, first := Planned(cal, true, args, nowMs), cal.firstDay(cal.monthOf(args.startDay));
            CoveredBySelection(cal, planned, first) && !Accounted(cal, planned, report, first)
  {
    hide ValidCalendar, ValidPlan, Finished, FallbacksOf, SelectSourceObjects, Worklist, Genuine, PlannedMonths, PlannedDays, Accounted;
    var planned, m := Planned(cal, true, args, nowMs), cal.monthOf(args.startDay);
    var first, start := cal.firstDay(m), MaxInt(StartMs(args.startDay), EARLIEST_DAY * DAY_MS);
    PlanIsValid(cal, true, StartMs(args.startDay), EndMs(args.endDay), nowMs);
    PlanHoldsPlanned(cal, start, EndMs(args.endDay), nowMs);
    PlanGenuine(cal, planned);
    MonthsOrdered(cal, m, m + 1);
    InMonth(cal, args.startDay);
    MonthIsUnique(cal, m, first);
    MonthsOrdered(cal, m + 1, cal.monthOf(nowMs / DAY_MS));
    InMonth(cal, nowMs / DAY_MS);
    assert MonthPlanned(cal, m, start, EndMs(args.endDay), nowMs);
    assert DayPlanned(args.startDay, start, EndMs(args.endDay), nowMs);
    FallbackMembers(cal, planned, m);
    assert DayRef(args.startDay) in FallbacksOf(cal, planned, m);
    DayOutsidePlan(cal, start, EndMs(args.endDay), nowMs, first);
    SelectionCovers(cal, planned, first);
    DayAccountedIff(cal, planned, fetch, report, first);
  }

  lemma DayOutsidePlan(cal: Calendar, startMs: int, endMs: int, nowMs: int, d: int)
    requires ValidCalendar(cal) && d * DAY_MS < startMs
    ensures DayRef(d) !in PlannedMonths(cal, startMs, endMs, nowMs) + PlannedDays(startMs, endMs, nowMs)
  {
    PlanHoldsPlanned(cal, startMs, endMs, nowMs);
    MonthsAreApart(cal, cal.monthOf(startMs / DAY_MS), |PlannedMonths(cal, startMs, endMs, nowMs)|);
  }

  // ----- the run

  // ----- the run in plain terms

  /**
   * A source object of the request: a closed month that shares a day with the requested days, or a requested day that is
   * over; neither before the provider's first day, 2017-07-01.
   */
  ghost predicate Requested(cal: Calendar, supported: bool, args: ImportArgs, nowMs: int, r: Ref) {
    && supported && args.endDay >= 17_348
    && match r.granularity
       case Monthly =>
         var first, next := cal.firstDay(r.period), cal.firstDay(r.period + 1);
         && r.startMs == first * 86_400_000 && r.endMs == next * 86_400_000 - 1
         && first <= args.endDay && args.startDay < next && 17_348 < next && next * 86_400_000 <= nowMs
       case Daily =>
         && r.startMs == r.period * 86_400_000 && r.endMs == r.startMs + 86_399_999
         && args.startDay <= r.period <= args.endDay && 17_348 <= r.period && r.endMs < nowMs
  }

  /** What a run visits: every requested object, except days inside a requested month that was not missing. */
  ghost predicate Due(cal: Calendar, supported: bool, args: ImportArgs, nowMs: int, fetch: Ref -> Fetch, r: Ref) {
    && Requested(cal, supported, args, nowMs, r)
    && (r.granularity.Daily? ==>
          forall m | Requested(cal, supported, args, nowMs, m) && m.granularity.Monthly? && m.startMs <= r.startMs && r.endMs <= m.endMs ::
            fetch(m).NotFound?)
  }

  /** The visited objects in time order, a missing month before its days, and each in the lists of its outcome, in that order. */
  ghost predicate ReportSays(cal: Calendar, supported: bool, args: ImportArgs, nowMs: int, fetch: Ref -> Fetch, report: ImportReport) {
    && (forall x :: x in report.refs <==> Due(cal, supported, args, nowMs, fetch, x))
    && (forall i, j | 0 <= i < j < |report.refs| ::
          var a, b := report.refs[i], report.refs[j];
          a.endMs < b.startMs || (a.granularity.Monthly? && b.granularity.Daily? && a.startMs <= b.startMs && b.endMs <= a.endMs))
    && report.objects == Filter((x: Ref) => fetch(x) == Imported || fetch(x) == Reused, report.refs)
    && report.imported == Filter((x: Ref) => fetch(x) == Imported, report.refs)
    && report.reused == Filter((x: Ref) => fetch(x) == Reused, report.refs)
    && report.missing == Filter((x: Ref) => fetch(x) == NotFound, report.refs)
  }

  /** A month reaches a day exactly when the next month starts after it. */
  lemma MonthReaches(cal: Calendar, m: int, d: int)
    requires ValidCalendar(cal)
    ensures cal.monthOf(d) <= m <==> d < cal.firstDay(m + 1)
  {
    hide ValidCalendar;
    InMonth(cal, d);
    MonthsOrdered(cal, cal.monthOf(d) + 1, m + 1);
    MonthsOrdered(cal, m + 1, cal.monthOf(d));
  }

  /** When a month shares a day with the days from `first` through `endDay` and is over. */
  lemma MonthIsRequested(cal: Calendar, m: int, first: int, endDay: int, nowMs: int)
    requires ValidCalendar(cal)
    ensures MonthPlanned(cal, m, first * DAY_MS, EndMs(endDay), nowMs) <==>
              first < cal.firstDay(m + 1) && cal.firstDay(m + 1) * DAY_MS <= nowMs && cal.firstDay(m) <= endDay
  {
    hide ValidCalendar;
    MonthReaches(cal, m, first);
    MonthReaches(cal, m, nowMs / DAY_MS);
    assert first * DAY_MS / DAY_MS == first;
  }

  lemma DayIsRequested(d: int, first: int, endDay: int, nowMs: int)
    ensures DayPlanned(d, first * DAY_MS, EndMs(endDay), nowMs) <==> first <= d <= endDay && d * DAY_MS + 86_399_999 < nowMs
  {
  }

  lemma PlanIsRequested(cal: Calendar, supported: bool, args: ImportArgs, nowMs: int)
    requires ValidCalendar(cal) && args.startDay <= args.endDay
    ensures forall r :: r in Planned(cal, supported, args, nowMs) <==> Requested(cal, supported, args, nowMs, r)
  {
    hide ValidCalendar, PlannedMonths, PlannedDays, MonthPlanned, DayPlanned, Planned, Requested;
    PlannedParts(cal, supported, args, nowMs);
    if supported && args.endDay >= EARLIEST_DAY {
      var first := MaxInt(args.startDay, EARLIEST_DAY);
      PlanHoldsPlanned(cal, first * DAY_MS, EndMs(args.endDay), nowMs);
      PlannedAreGenuine(cal, first * DAY_MS, EndMs(args.endDay), nowMs);
      forall r ensures r in Planned(cal, supported, args, nowMs) <==> Requested(cal, supported, args, nowMs, r) {
        RefIsRequested(cal, args, nowMs, first, r);
      }
    }
  }

  lemma PlannedParts(cal: Calendar, supported: bool, args: ImportArgs, nowMs: int)
    requires args.startDay <= args.endDay
    ensures supported && args.endDay >= EARLIEST_DAY ==>
              var start := MaxInt(args.startDay, EARLIEST_DAY) * DAY_MS;
              Planned(cal, supported, args, nowMs) == PlannedMonths(cal, start, EndMs(args.endDay), nowMs) + PlannedDays(start, EndMs(args.endDay), nowMs)
    ensures !(supported && args.endDay >= EARLIEST_DAY) ==>
              Planned(cal, supported, args, nowMs) == [] && forall r :: !Requested(cal, supported, args, nowMs, r)
  {
    hide PlannedMonths, PlannedDays;
    assert MaxInt(StartMs(args.startDay), EARLIEST_DAY * DAY_MS) == MaxInt(args.startDay, EARLIEST_DAY) * DAY_MS;
  }

  lemma RefIsRequested(cal: Calendar, args: ImportArgs, nowMs: int, first: int, r: Ref)
    requires ValidCalendar(cal) && args.endDay >= EARLIEST_DAY && first == MaxInt(args.startDay, EARLIEST_DAY)
    requires r in PlannedMonths(cal, first * DAY_MS, EndMs(args.endDay), nowMs) <==>
               r == MonthRef(cal, r.period) && MonthPlanned(cal, r.period, first * DAY_MS, EndMs(args.endDay), nowMs)
    requires r in PlannedDays(first * DAY_MS, EndMs(args.endDay), nowMs) <==>
               r == DayRef(r.period) && DayPlanned(r.period, first * DAY_MS, EndMs(args.endDay), nowMs)
    ensures r in PlannedMonths(cal, first * DAY_MS, EndMs(args.endDay), nowMs) + PlannedDays(first * DAY_MS, EndMs(args.endDay), nowMs)
       <==> Requested(cal, true, args, nowMs, r)
  {
    hide ValidCalendar, PlannedMonths, PlannedDays, MonthPlanned, DayPlanned;
    if r.granularity.Monthly? {
      MonthIsRequested(cal, r.period, first, args.endDay, nowMs);
    } else {
      DayIsRequested(r.period, first, args.endDay, nowMs);
    }
  }

  lemma PlannedAreGenuine(cal: Calendar, startMs: int, endMs: int, nowMs: int)
    requires ValidCalendar(cal)
    ensures forall r | r in PlannedMonths(cal, startMs, endMs, nowMs) :: r == MonthRef(cal, r.period)
    ensures forall r | r in PlannedDays(startMs, endMs, nowMs) :: r == DayRef(r.period)
  {
    hide ValidCalendar;
    MonthsAreApart(cal, cal.monthOf(startMs / DAY_MS), |PlannedMonths(cal, startMs, endMs, nowMs)|);
    DaysAreApart(cal, FirstWholeDay(startMs), |PlannedDays(startMs, endMs, nowMs)|);
  }

  lemma RequestedIsGenuine(cal: Calendar, supported: bool, args: ImportArgs, nowMs: int, r: Ref)
    requires Requested(cal, supported, args, nowMs, r)
    ensures Genuine(cal, r)
  {
  }

  lemma MonthHoldsDay(cal: Calendar, m: Ref, r: Ref)
    requires ValidCalendar(cal) && Genuine(cal, m) && Genuine(cal, r) && m.granularity.Monthly? && r.granularity.Daily?
    ensures m.startMs <= r.startMs && r.endMs <= m.endMs <==> m == MonthRef(cal, cal.monthOf(r.period))
  {
    MonthIsUnique(cal, m.period, r.period);
  }

  lemma WorklistIsDue(cal: Calendar, supported: bool, args: ImportArgs, nowMs: int, fetch: Ref -> Fetch)
    requires ValidCalendar(cal) && args.startDay <= args.endDay
    ensures forall x :: x in Worklist(cal, Planned(cal, supported, args, nowMs), fetch) <==> Due(cal, supported, args, nowMs, fetch, x)
  {
    hide ValidCalendar, Requested, Worklist, Planned, Genuine, ValidPlan;
    var planned := Planned(cal, supported, args, nowMs);
    PlannedIsValid(cal, supported, args, nowMs);
    PlanIsRequested(cal, supported, args, nowMs);
    WorklistGenuine(cal, planned, fetch);
    forall x ensures x in Worklist(cal, planned, fetch) <==> Due(cal, supported, args, nowMs, fetch, x) {
      if x in planned {
        RequestedIsGenuine(cal, supported, args, nowMs, x);
        VisitedExactly(cal, planned, fetch, x);
        if x.granularity.Daily? { DueDay(cal, supported, args, nowMs, fetch, x); }
      }
    }
  }

  lemma PlannedIsValid(cal: Calendar, supported: bool, args: ImportArgs, nowMs: int)
    requires ValidCalendar(cal)
    ensures ValidPlan(cal, Planned(cal, supported, args, nowMs))
  {
    hide ValidCalendar, ValidPlan;
    PlanIsValid(cal, supported, StartMs(args.startDay), EndMs(args.endDay), nowMs);
  }

  lemma DueDay(cal: Calendar, supported: bool, args: ImportArgs, nowMs: int, fetch: Ref -> Fetch, r: Ref)
    requires ValidCalendar(cal) && Genuine(cal, r) && r.granularity.Daily? && Requested(cal, supported, args, nowMs, r)
    ensures var month := MonthRef(cal, cal.monthOf(r.period));
            Due(cal, supported, args, nowMs, fetch, r) <==> (Requested(cal, supported, args, nowMs, month) ==> fetch(month).NotFound?)
  {
    hide ValidCalendar, Requested, Genuine;
    var month := MonthRef(cal, cal.monthOf(r.period));
    BothGenuine(cal, r.period);
    MonthHoldsDay(cal, month, r);
    forall m | Requested(cal, supported, args, nowMs, m) && m.granularity.Monthly? && m.startMs <= r.startMs && r.endMs <= m.endMs
      ensures m == month
    {
      RequestedIsGenuine(cal, supported, args, nowMs, m);
      MonthHoldsDay(cal, m, r);
    }
  }

  lemma ReportIsTrue(cal: Calendar, supported: bool, args: ImportArgs, nowMs: int, fetch: Ref -> Fetch, report: ImportReport)
    requires ValidCalendar(cal) && args.startDay <= args.endDay
    requires IsReport(fetch, Worklist(cal, Planned(cal, supported, args, nowMs), fetch), report)
    ensures ReportSays(cal, supported, args, nowMs, fetch, report)
  {
    hide ValidCalendar, Worklist, Planned, Due, ValidPlan, Filter;
    PlannedIsValid(cal, supported, args, nowMs);
    WorklistIsDue(cal, supported, args, nowMs, fetch);
    WorklistInOrder(cal, Planned(cal, supported, args, nowMs), fetch);
    FilterAlike(Kept(fetch), (x: Ref) => fetch(x) == Imported || fetch(x) == Reused, report.refs);
    FilterAlike(Fetched(fetch, Imported), (x: Ref) => fetch(x) == Imported, report.refs);
    FilterAlike(Fetched(fetch, Reused), (x: Ref) => fetch(x) == Reused, report.refs);
    FilterAlike(Fetched(fetch, NotFound), (x: Ref) => fetch(x) == NotFound, report.refs);
    forall i, j | 0 <= i < j < |report.refs|
      ensures var a, b := report.refs[i], report.refs[j];
              a.endMs < b.startMs || (a.granularity.Monthly? && b.granularity.Daily? && a.startMs <= b.startMs && b.endMs <= a.endMs)
    {
      assert Before(fetch, report.refs[i], report.refs[j]);
    }
  }

  /**
   * The import: argument checks, plan, selection, worklist. It succeeds exactly when something is requested and nothing it
   * visits fails, and what it visits is exactly what is due. Publication of the kept objects follows it.
   */
  method ImportHistory(cal: Calendar, supported: bool, args: ImportArgs, nowMs: int, fetch: Ref -> Fetch)
    returns (r: Result<ImportReport, ImportError>)
    requires ValidCalendar(cal)
    ensures r == Failure(InvalidArguments) <==> args.startDay > args.endDay || args.cacheMaxBytes < 1 || args.timeoutSeconds < 1.0
    ensures r == Failure(NothingPlanned) <==>
              r != Failure(InvalidArguments) && forall x :: !Requested(cal, supported, args, nowMs, x)
    ensures r.Success? <==>
              && r != Failure(InvalidArguments) && r != Failure(NothingPlanned)
              && forall x | Due(cal, supported, args, nowMs, fetch, x) :: fetch(x) != Failed && !(fetch(x) == NotFound && args.failOnMissing)
    ensures r == Failure(SourceFailed) ==> exists x :: Due(cal, supported, args, nowMs, fetch, x) && fetch(x) == Failed
    ensures r == Failure(SourceMissing) ==>
              args.failOnMissing && exists x :: Due(cal, supported, args, nowMs, fetch, x) && fetch(x) == NotFound
    ensures r.Success? ==>
              && ReportSays(cal, supported, args, nowMs, fetch, r.value)
              && IsReport(fetch, Worklist(cal, Planned(cal, supported, args, nowMs), fetch), r.value)
  {
    if args.startDay > args.endDay || args.cacheMaxBytes < 1 || args.timeoutSeconds < 1.0 {
      return Failure(InvalidArguments);
    }
    hide ValidCalendar, IsReport, PlannedObjects, Worklist, Requested, Due, ReportSays, Accepted;
    PlanIsRequested(cal, supported, args, nowMs);
    WorklistIsDue(cal, supported, args, nowMs, fetch);
    AcceptedOutcomes(fetch, args.failOnMissing);
    r := ImportPlanned(cal, supported, args, nowMs, fetch);
    ghost var planned := Planned(cal, supported, args, nowMs);
    assert planned != [] ==> planned[0] in planned;
    if r.Success? { ReportIsTrue(cal, supported, args, nowMs, fetch, r.value); }
  }

  lemma AcceptedOutcomes(fetch: Ref -> Fetch, failOnMissing: bool)
    ensures forall x :: Accepted(fetch, failOnMissing, x) <==> fetch(x) != Failed && !(fetch(x) == NotFound && failOnMissing)
  {
  }

  /** Plan, selection and worklist of a valid request. */
  method ImportPlanned(cal: Calendar, supported: bool, args: ImportArgs, nowMs: int, fetch: Ref -> Fetch)
    returns (r: Result<ImportReport, ImportError>)
    requires ValidCalendar(cal)
    ensures var planned := Planned(cal, supported, args, nowMs);
            && (r == Failure(NothingPlanned) <==> planned == [])
            && (planned != [] ==>
                  && (r.Success? <==> forall x | x in Worklist(cal, planned, fetch) :: Accepted(fetch, args.failOnMissing, x))
                  && (r.Success? ==> IsReport(fetch, Worklist(cal, planned, fetch), r.value))
                  && (r.Failure? ==>
                        || (r.error == SourceFailed && exists x | x in Worklist(cal, planned, fetch) :: fetch(x).Failed?)
                        || (r.error == SourceMissing && args.failOnMissing
                            && exists x | x in Worklist(cal, planned, fetch) :: fetch(x).NotFound?)))
  {
    hide ValidCalendar, ValidPlan, FallbacksOf, IsReport, Accepted, PlannedObjects, Distinct, Visited;
    var planned := PlanObjects(cal, supported, StartMs(args.startDay), EndMs(args.endDay), nowMs);
    PlanIsValid(cal, supported, StartMs(args.startDay), EndMs(args.endDay), nowMs);
    var refs := SelectSourceObjects(cal, planned);
    var fallbacks := DailyFallbacksByMonth(cal, planned);
    SelectionIsEmpty(cal, planned);
    if refs == [] {
      return Failure(NothingPlanned);
    }
    WorklistInOrder(cal, planned, fetch);
    r := VisitAll(cal, planned, refs, fallbacks, fetch, args.failOnMissing);
  }

  lemma SelectionIsEmpty(cal: Calendar, planned: seq<Ref>)
    requires ValidCalendar(cal) && ValidPlan(cal, planned)
    ensures SelectSourceObjects(cal, planned) == [] <==> planned == []
  {
    if planned != [] {
      var r := planned[0];
      var month := MonthRef(cal, MonthOfRef(cal, r));
      assert r in planned;
      SelectedExactly(cal, planned, r);
      SelectedExactly(cal, planned, month);
    }
  }
}
