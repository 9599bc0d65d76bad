/** The provider's plan: monthly and daily source objects of a requested window. */
module ArchivePlan {
  import opened Results
  import opened Sorting
  import opened Grids

  /** 2017-07-01, the first day the provider publishes. */
  const EARLIEST_DAY: int := 17_348

  /** Months as a partition of the days; the Gregorian calendar is one instance. */
  datatype Calendar = Calendar(monthOf: int -> int, firstDay: int -> int)

  ghost predicate ValidCalendar(cal: Calendar) {
    && (forall a, b {:trigger cal.firstDay(a), cal.firstDay(b)} | a < b :: cal.firstDay(a) < cal.firstDay(b))
    && (forall d {:trigger cal.monthOf(d)} :: cal.firstDay(cal.monthOf(d)) <= d < cal.firstDay(cal.monthOf(d) + 1))
  }

  /** Months of thirty days: a simple calendar. */
  function ThirtyDayMonths(): Calendar {
    Calendar((d: int) => d / 30, (m: int) => m * 30)
  }

  lemma ThirtyDayMonthsAreValid()
    ensures ValidCalendar(ThirtyDayMonths())
  {
  }

  datatype Granularity = Monthly | Daily

  /** One source object; granularity and period name it, so the reference stands for its object key. */
  datatype Ref = Ref(granularity: Granularity, period: int, startMs: int, endMs: int)

  function MonthRef(cal: Calendar, m: int): Ref {
    Ref(Monthly, m, cal.firstDay(m) * DAY_MS, cal.firstDay(m + 1) * DAY_MS - 1)
  }

  function DayRef(d: int): Ref {
    Ref(Daily, d, d * DAY_MS, (d + 1) * DAY_MS - 1)
  }

  function Months(cal: Calendar, m: int, n: nat): (r: seq<Ref>)
    ensures |r| == n
  {
    if n == 0 then [] else Months(cal, m, n - 1) + [MonthRef(cal, m + n - 1)]
  }

  function Days(d: int, n: nat): (r: seq<Ref>)
    ensures |r| == n
  {
    if n == 0 then [] else Days(d, n - 1) + [DayRef(d + n - 1)]
  }

  lemma {:induction false} MonthsAt(cal: Calendar, m: int, n: nat)
    ensures forall i | 0 <= i < n :: Months(cal, m, n)[i] == MonthRef(cal, m + i)
  {
    if n > 0 { MonthsAt(cal, m, n - 1); }
  }

  lemma {:induction false} DaysAt(d: int, n: nat)
    ensures forall i | 0 <= i < n :: Days(d, n)[i] == DayRef(d + i)
  {
    if n > 0 { DaysAt(d, n - 1); }
  }

  /** Exactly one month contains a day. */
  lemma MonthIsUnique(cal: Calendar, m: int, d: int)
    requires ValidCalendar(cal)
    ensures cal.firstDay(m) <= d < cal.firstDay(m + 1) <==> m == cal.monthOf(d)
  {
    var k := cal.monthOf(d);
    if m < k && m + 1 < k { assert cal.firstDay(m + 1) < cal.firstDay(k); }
    if k < m && k + 1 < m { assert cal.firstDay(k + 1) < cal.firstDay(m); }
  }

  lemma MonthsOrdered(cal: Calendar, a: int, b: int)
    requires ValidCalendar(cal)
    ensures a <= b ==> cal.firstDay(a) <= cal.firstDay(b)
    ensures a < b ==> cal.firstDay(a + 1) <= cal.firstDay(b)
  {
    if a < b && a + 1 < b { assert cal.firstDay(a + 1) < cal.firstDay(b); }
  }

  lemma InMonth(cal: Calendar, d: int)
    requires ValidCalendar(cal)
    ensures cal.firstDay(cal.monthOf(d)) <= d < cal.firstDay(cal.monthOf(d) + 1)
  {
  }


  /** First day that lies wholly at or after a time. */
  function FirstWholeDay(startMs: int): int {
    if startMs > startMs / DAY_MS * DAY_MS then startMs / DAY_MS + 1 else startMs / DAY_MS
  }

  /** Whether the plan holds month `m`: closed before now, and touched by the window. */
  predicate MonthPlanned(cal: Calendar, m: int, startMs: int, endMs: int, nowMs: int) {
    cal.monthOf(startMs / DAY_MS) <= m < cal.monthOf(nowMs / DAY_MS) && cal.firstDay(m) * DAY_MS <= endMs
  }

  /** Whether the plan holds day `d`: over before now, and wholly inside the window. */
  predicate DayPlanned(d: int, startMs: int, endMs: int, nowMs: int) {
    startMs <= d * DAY_MS && (d + 1) * DAY_MS - 1 <= endMs && d < nowMs / DAY_MS
  }


  /** The months of a plan in closed form. */
  function PlannedMonths(cal: Calendar, startMs: int, endMs: int, nowMs: int): seq<Ref> {
    var first := cal.monthOf(startMs / DAY_MS);
    Months(cal, first, MaxInt(0, MinInt(cal.monthOf(nowMs / DAY_MS), cal.monthOf(endMs / DAY_MS) + 1) - first))
  }

  /** The days of a plan in closed form. */
  function PlannedDays(startMs: int, endMs: int, nowMs: int): seq<Ref> {
    Days(FirstWholeDay(startMs), MaxInt(0, MinInt(nowMs / DAY_MS, (endMs + 1) / DAY_MS) - FirstWholeDay(startMs)))
  }

  predicate Plannable(supported: bool, startMs: int, endMs: int) {
    supported && startMs <= endMs && endMs >= EARLIEST_DAY * DAY_MS
  }

  /** The whole plan, from the provider's first day on. */
  function PlannedObjects(cal: Calendar, supported: bool, startMs: int, endMs: int, nowMs: int): seq<Ref> {
    if Plannable(supported, startMs, endMs) then
      var start := MaxInt(startMs, EARLIEST_DAY * DAY_MS);
      PlannedMonths(cal, start, endMs, nowMs) + PlannedDays(start, endMs, nowMs)
    else []
  }

  lemma MonthStartsBefore(cal: Calendar, m: int, endMs: int)
    requires ValidCalendar(cal)
    ensures cal.firstDay(m) * DAY_MS <= endMs <==> m <= cal.monthOf(endMs / DAY_MS)
  {
    var day, k := endMs / DAY_MS, cal.monthOf(endMs / DAY_MS);
    InMonth(cal, day);
    MonthsOrdered(cal, m, k);
    MonthsOrdered(cal, k, m);
    assert cal.firstDay(m) * DAY_MS <= endMs <==> cal.firstDay(m) <= day;
  }

  /** The plan holds exactly the planned months and days. */
  lemma PlanHoldsPlanned(cal: Calendar, startMs: int, endMs: int, nowMs: int)
    requires ValidCalendar(cal)
    ensures forall m :: MonthRef(cal, m) in PlannedMonths(cal, startMs, endMs, nowMs) <==> MonthPlanned(cal, m, startMs, endMs, nowMs)
    ensures forall d :: DayRef(d) in PlannedDays(startMs, endMs, nowMs) <==> DayPlanned(d, startMs, endMs, nowMs)
  {
    hide ValidCalendar, Months, Days;
    var first := cal.monthOf(startMs / DAY_MS);
    MonthsListed(cal, first, |PlannedMonths(cal, startMs, endMs, nowMs)|);
    forall m ensures MonthRef(cal, m) in PlannedMonths(cal, startMs, endMs, nowMs) <==> MonthPlanned(cal, m, startMs, endMs, nowMs) {
      MonthStartsBefore(cal, m, endMs);
    }
    DaysListed(FirstWholeDay(startMs), |PlannedDays(startMs, endMs, nowMs)|);
  }

  method PlanMonths(cal: Calendar, startMs: int, endMs: int, nowMs: int) returns (monthly: seq<Ref>)
    requires ValidCalendar(cal)
    ensures monthly == PlannedMonths(cal, startMs, endMs, nowMs)
  {
    hide ValidCalendar;
    InMonth(cal, startMs / DAY_MS);
    var currentMonth := cal.monthOf(nowMs / DAY_MS);
    ghost var first := cal.monthOf(startMs / DAY_MS);
    monthly := [];
    var month := cal.monthOf(startMs / DAY_MS);
    while month < currentMonth && cal.firstDay(month) * DAY_MS <= endMs
      invariant monthly == Months(cal, first, |monthly|) && month == first + |monthly|
      invariant month > first ==> month - 1 < currentMonth && cal.firstDay(month - 1) * DAY_MS <= endMs
      decreases currentMonth - month
    {
      MonthsOrdered(cal, first + 1, month + 1);
      if cal.firstDay(month + 1) * DAY_MS - 1 >= startMs {
        monthly := monthly + [MonthRef(cal, month)];
      }
      month := month + 1;
    }
    MonthStartsBefore(cal, month, endMs);
    MonthStartsBefore(cal, month - 1, endMs);
  }

  /** A list of consecutive months holds exactly those months. */
  lemma MonthsListed(cal: Calendar, first: int, n: nat)
    ensures forall m :: MonthRef(cal, m) in Months(cal, first, n) <==> first <= m < first + n
  {
    MonthsAt(cal, first, n);
    var listed := Months(cal, first, n);
    forall m ensures MonthRef(cal, m) in listed <==> first <= m < first + n {
      if first <= m < first + n { assert listed[m - first] == MonthRef(cal, m); }
      if MonthRef(cal, m) in listed {
        var i :| 0 <= i < n && listed[i] == MonthRef(cal, m);
        assert listed[i].period == first + i;
      }
    }
  }

  lemma DaysListed(first: int, n: nat)
    ensures forall d :: DayRef(d) in Days(first, n) <==> first <= d < first + n
  {
    DaysAt(first, n);
    var listed := Days(first, n);
    forall d ensures DayRef(d) in listed <==> first <= d < first + n {
      if first <= d < first + n { assert listed[d - first] == DayRef(d); }
      if DayRef(d) in listed {
        var i :| 0 <= i < n && listed[i] == DayRef(d);
        assert listed[i].period == first + i;
      }
    }
  }

  method PlanDays(startMs: int, endMs: int, nowMs: int) returns (daily: seq<Ref>)
    ensures daily == PlannedDays(startMs, endMs, nowMs)
  {
    var currentDay := nowMs / DAY_MS;
    var day := startMs / DAY_MS;
    if startMs > day * DAY_MS {
      day := day + 1;
    }
    ghost var first := day;
    daily := [];
    while day < currentDay && (day + 1) * DAY_MS - 1 <= endMs
      invariant daily == Days(first, |daily|) && day == first + |daily|
      invariant day > first ==> day - 1 < currentDay && day * DAY_MS - 1 <= endMs
      decreases currentDay - day
    {
      daily := daily + [DayRef(day)];
      day := day + 1;
    }
  }

  /** Monthly objects of every closed month the window touches, and daily objects of every whole past day in it. */
  method PlanObjects(cal: Calendar, supported: bool, startMs: int, endMs: int, nowMs: int) returns (planned: seq<Ref>)
    requires ValidCalendar(cal)
    ensures planned == PlannedObjects(cal, supported, startMs, endMs, nowMs)
  {
    if !supported || startMs > endMs || endMs < EARLIEST_DAY * DAY_MS {
      return [];
    }
    var start := MaxInt(startMs, EARLIEST_DAY * DAY_MS);
    var monthly := PlanMonths(cal, start, endMs, nowMs);
    var daily := PlanDays(start, endMs, nowMs);
    return monthly + daily;
  }

  // ----- what a plan looks like to its readers

  /** Refs built by the provider. */
  predicate Genuine(cal: Calendar, r: Ref) {
    if r.granularity.Monthly? then r == MonthRef(cal, r.period) else r == DayRef(r.period)
  }

  function MonthOfRef(cal: Calendar, r: Ref): int {
    if r.granularity.Monthly? then r.period else cal.monthOf(r.period)
  }

  /** Consecutive ranges in time order, none overlapping. */
  ghost predicate Apart(refs: seq<Ref>) {
    forall i, j | 0 <= i < j < |refs| :: refs[i].endMs < refs[j].startMs
  }

  ghost predicate AllGenuine(cal: Calendar, refs: seq<Ref>, g: Granularity) {
    forall r | r in refs :: Genuine(cal, r) && r.granularity == g
  }

  lemma MonthsAreApart(cal: Calendar, m: int, n: nat)
    requires ValidCalendar(cal)
    ensures Apart(Months(cal, m, n)) && AllGenuine(cal, Months(cal, m, n), Monthly)
  {
    hide ValidCalendar, Months;
    MonthsAt(cal, m, n);
    forall i, j | 0 <= i < j < n ensures Months(cal, m, n)[i].endMs < Months(cal, m, n)[j].startMs {
      MonthsOrdered(cal, m + i, m + j);
    }
  }

  lemma DaysAreApart(cal: Calendar, d: int, n: nat)
    ensures Apart(Days(d, n)) && AllGenuine(cal, Days(d, n), Daily)
  {
    DaysAt(d, n);
  }

  /** Two different objects overlap only if one is the month of the other. */
  lemma RefsOverlapOnlyInMonth(cal: Calendar, a: Ref, b: Ref)
    requires ValidCalendar(cal) && Genuine(cal, a) && Genuine(cal, b) && a != b
    requires a.granularity == b.granularity || MonthOfRef(cal, a) != MonthOfRef(cal, b)
    ensures a.endMs < b.startMs || b.endMs < a.startMs
  {
    hide ValidCalendar;
    var ma, mb := MonthOfRef(cal, a), MonthOfRef(cal, b);
    RefInMonth(cal, a);
    RefInMonth(cal, b);
    MonthsOrdered(cal, ma, mb);
    MonthsOrdered(cal, mb, ma);
  }

  lemma RefInMonth(cal: Calendar, r: Ref)
    requires ValidCalendar(cal) && Genuine(cal, r)
    ensures cal.firstDay(MonthOfRef(cal, r)) * DAY_MS <= r.startMs <= r.endMs < cal.firstDay(MonthOfRef(cal, r) + 1) * DAY_MS
  {
    var m := MonthOfRef(cal, r);
    assert cal.firstDay(m) < cal.firstDay(m + 1);
  }
}
