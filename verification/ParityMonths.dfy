/** Archives of calendar months: the audit's pages, sized by thirty-day months, still fit them. */
module ParityMonths {
  import opened Results
  import opened Sorting
  import opened Grids
  import opened ParityRows
  import opened ParityAudit
  import opened ParityRun

  const MONTH_MS: int := 30 * DAY_MS

  predicate Leap(year: int) { year % 4 == 0 && (year % 100 != 0 || year % 400 == 0) }

  /** Days from the start of a year to the start of its month `m`, counted from zero. */
  function DaysBefore(m: nat, leap: bool): int
    requires m < 12
  {
    [0, 31, 59, 90, 120, 151, 181, 212, 243, 273, 304, 334][m] + if leap && m > 1 then 1 else 0
  }

  /** Days from 1970 to the start of a year. */
  function YearStart(year: nat): int {
    if year == 0 then 0 else YearStart(year - 1) + if Leap(1970 + year - 1) then 366 else 365
  }

  function DaysTo(year: nat, m: nat): int
    requires m < 12
  {
    YearStart(year) + DaysBefore(m, Leap(1970 + year))
  }

  /** The open time of month `i`, counted from January 1970. */
  function MonthOpen(i: nat): int {
    DAY_MS * DaysTo(i / 12, i % 12)
  }

  /** A month lasts as long as the calendar says. */
  lemma MonthLasts(i: nat)
    ensures MonthOpen(i + 1) - MonthOpen(i) == 86_400_000 * DaysIn(1970 + i / 12, i % 12)
  {
    hide DaysBefore, Leap, DaysIn, YearStart;
    var year, m := i / 12, i % 12;
    if m == 11 {
      assert (i + 1) / 12 == year + 1 && (i + 1) % 12 == 0;
      DecemberEnds(year);
    } else {
      assert (i + 1) / 12 == year && (i + 1) % 12 == m + 1;
      MonthEnds(1970 + year, m);
    }
  }

  /** The length of a month of the Gregorian calendar, counted from zero. */
  function DaysIn(year: int, m: nat): int {
    if m == 1 then if year % 400 == 0 || (year % 4 == 0 && year % 100 != 0) then 29 else 28
    else if m in {3, 5, 8, 10} then 30
    else 31
  }

  lemma MonthEnds(year: int, m: nat)
    requires m < 11
    ensures DaysBefore(m + 1, Leap(year)) - DaysBefore(m, Leap(year)) == DaysIn(year, m)
  {
  }

  lemma DecemberEnds(year: nat)
    ensures DaysTo(year + 1, 0) - DaysTo(year, 11) == DaysIn(1970 + year, 11)
  {
  }

  lemma {:induction false} YearsPass(a: nat, b: nat)
    requires a < b
    ensures YearStart(b) - YearStart(a) >= 365 * (b - a) + if Leap(1970 + a) then 1 else 0
    decreases b
  {
    if b > a + 1 { YearsPass(a, b - 1); }
  }

  lemma {:induction false} LaterMonths(m: nat, n: nat, leap: bool)
    requires 2 <= m <= n < 12
    ensures DaysBefore(n, leap) - DaysBefore(m, leap) >= 30 * (n - m)
  {
    if m < n { LaterMonths(m, n - 1, leap); }
  }

  lemma MonthsOfYear(m: nat, n: nat, leap: bool)
    requires m <= n < 12
    ensures DaysBefore(n, leap) - DaysBefore(m, leap) >= 30 * (n - m) - 2
  {
    if 2 <= n {
      LaterMonths(MaxInt(m, 2), n, leap);
    }
  }

  lemma YearHoldsMonths(m: nat, leap: bool)
    requires m < 12
    ensures 30 * m - 1 <= DaysBefore(m, leap) <= 30 * m + 4 + if leap then 1 else 0
  {
  }

  lemma DaysKeepPace(a: nat, m: nat, b: nat, n: nat)
    requires m < 12 && n < 12 && (a < b || (a == b && m <= n))
    ensures DaysTo(b, n) - DaysTo(a, m) >= 30 * (12 * (b - a) + n - m) - 2
  {
    hide DaysBefore, YearStart, Leap;
    if a == b {
      MonthsOfYear(m, n, Leap(1970 + a));
    } else {
      YearsPass(a, b);
      YearHoldsMonths(m, Leap(1970 + a));
      YearHoldsMonths(n, Leap(1970 + b));
    }
  }

  /** Months never run ahead of thirty-day months by more than two days. */
  lemma MonthsKeepPace(i: nat, j: nat)
    requires i <= j
    ensures MonthOpen(j) - MonthOpen(i) >= (j - i) * MONTH_MS - 2 * DAY_MS
  {
    hide DaysTo;
    DaysKeepPace(i / 12, i % 12, j / 12, j % 12);
  }

  lemma MonthsIncrease(i: nat, j: nat)
    requires i < j
    ensures MonthOpen(i) < MonthOpen(j)
  {
    MonthsKeepPace(i, j);
  }

  /** Every row opens a calendar month. */
  ghost predicate Monthly(archive: Table) {
    forall t | t in archive :: exists i: nat :: t == MonthOpen(i)
  }

  lemma {:induction false} MonthsBetween(archive: Table, i: nat, j: nat)
    requires Monthly(archive) && i <= j
    ensures |KeysIn(archive, MonthOpen(i), MonthOpen(j))| <= j - i + 1
    decreases j
  {
    hide MonthOpen;
    var within := KeysIn(archive, MonthOpen(i), MonthOpen(j));
    if i == j {
      AtMostOne(within);
    } else {
      MonthsBetween(archive, i, j - 1);
      var before := KeysIn(archive, MonthOpen(i), MonthOpen(j - 1));
      forall t | t in within - before ensures t == MonthOpen(j) {
        NoMonthBetween(archive, j, t);
      }
      AtMostOne(within - before);
      SizeOfParts(within, before);
    }
  }

  lemma NoMonthBetween(archive: Table, j: nat, t: int)
    requires Monthly(archive) && t in archive && j > 0 && MonthOpen(j - 1) < t <= MonthOpen(j)
    ensures t == MonthOpen(j)
  {
    hide MonthOpen;
    var i: nat :| t == MonthOpen(i);
    if i < j - 1 { MonthsIncrease(i, j - 1); }
    if i > j { MonthsIncrease(j, i); }
  }

  lemma SizeOfParts(all: set<int>, some: set<int>)
    ensures |all| <= |some| + |all - some|
  {
    assert all == (all * some) + (all - some);
    assert some == (all * some) + (some - all);
  }

  /** The audit's requirement holds of every monthly archive and every page size. */
  lemma MonthlyPagesFit(archive: Table, pageRows: int)
    requires Monthly(archive) && pageRows > 0
    ensures PagesFit(archive, MONTH_MS, pageRows)
  {
    hide MonthOpen, KeysIn;
    forall s, t | s in archive && t in archive && s <= t ensures (|KeysIn(archive, s, t)| - 1) * MONTH_MS <= t - s + 2 * DAY_MS {
      var i: nat :| s == MonthOpen(i);
      var j: nat :| t == MonthOpen(j);
      if j < i { MonthsIncrease(j, i); }
      MonthsBetween(archive, i, j);
      MonthsKeepPace(i, j);
    }
    PacedPagesFit(archive, MONTH_MS, pageRows, 2 * DAY_MS);
  }
}
