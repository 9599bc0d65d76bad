/** Rebuilding closed 89-minute bars from stored minute rows. */
module Aggregation {
  import opened Results
  import opened Sorting
  import opened Grids

  const SOURCE_MS: int := 60_000
  const BUCKET_ROWS: nat := 89
  const TARGET_MS: int := 5_340_000

  datatype Row = Row(openTime: int, closeTime: int, open: real, high: real, low: real, close: real, volume: real, quoteVolume: real,
                     trades: int, takerBuyBase: real, takerBuyQuote: real)

  /** Target values; how components are folded into them is a parameter, `None` when a component is malformed. */
  type Fold<!Bar> = seq<Row> -> Option<Bar>

  /** Component rows by open time; `None` marks an open that occurred more than once. */
  type Components = map<int, Option<Row>>

  function FloorBucket(t: int): int { t / TARGET_MS * TARGET_MS }

  /** The open of the last bucket closed by now. */
  function LastClosed(nowMs: int): Option<int> {
    if FloorBucket(nowMs) <= 0 then None else Some(FloorBucket(nowMs) - TARGET_MS)
  }

  predicate Closed(row: Row, openMs: int, nowMs: int) {
    row.closeTime == openMs + SOURCE_MS - 1 && row.closeTime < nowMs
  }

  /** The `i`-th component of the bucket at `b` is there, unambiguous and closed. */
  predicate Present(m: Components, nowMs: int, b: int, i: nat) {
    var t := b + i * SOURCE_MS;
    t in m && m[t].Some? && Closed(m[t].value, t, nowMs)
  }

  predicate Complete(m: Components, nowMs: int, b: int) {
    forall i: nat | i < BUCKET_ROWS :: Present(m, nowMs, b, i)
  }

  function Parts(m: Components, nowMs: int, b: int, n: nat): seq<Row>
    requires n <= BUCKET_ROWS && Complete(m, nowMs, b)
  {
    if n == 0 then []
    else
      assert Present(m, nowMs, b, n - 1);
      Parts(m, nowMs, b, n - 1) + [m[b + (n - 1) * SOURCE_MS].value]
  }

  /** The bar of one bucket, when it may be rebuilt. */
  function BucketBar<Bar>(fold: Fold<Bar>, m: Components, nowMs: int, b: int): Option<Bar> {
    if LastClosed(nowMs).Some? && b <= LastClosed(nowMs).value && Complete(m, nowMs, b) then fold(Parts(m, nowMs, b, BUCKET_ROWS)) else None
  }

  /** The rebuilt bars of listed bucket opens, in that order. */
  function BarsOf<Bar>(fold: Fold<Bar>, m: Components, nowMs: int, opens: seq<int>): seq<(int, Bar)> {
    if opens == [] then []
    else
      var b := opens[|opens| - 1];
      BarsOf(fold, m, nowMs, opens[..|opens| - 1])
      + (if BucketBar(fold, m, nowMs, b).Some? then [(b, BucketBar(fold, m, nowMs, b).value)] else [])
  }

  /** The opens of `n` consecutive buckets. */
  function Buckets(first: int, n: nat): (r: seq<int>)
    ensures |r| == n
  {
    if n == 0 then [] else Buckets(first, n - 1) + [(first + n - 1) * TARGET_MS]
  }

  // ----- the aggregator

  function ByOpen(rows: seq<Row>): Components {
    if rows == [] then map[]
    else
      var before, row := ByOpen(rows[..|rows| - 1]), rows[|rows| - 1];
      before[row.openTime := if row.openTime in before then None else Some(row)]
  }

  function BucketOpens(m: Components): set<int> { set t | t in m :: FloorBucket(t) }

  /** Every bucket some component falls into, in order, rebuilt if it may be. */
  function Rebuilt<Bar>(fold: Fold<Bar>, rows: seq<Row>, nowMs: int): seq<(int, Bar)> {
    BarsOf(fold, ByOpen(rows), nowMs, SortedSet(BucketOpens(ByOpen(rows))))
  }

  method GroupByOpen(rows: seq<Row>) returns (m: Components)
    ensures m == ByOpen(rows)
  {
    m := map[];
    for i := 0 to |rows|
      invariant m == ByOpen(rows[..i])
    {
      assert rows[..i + 1][..i] == rows[..i];
      m := m[rows[i].openTime := if rows[i].openTime in m then None else Some(rows[i])];
    }
    assert rows[..|rows|] == rows;
  }

  /** Collects one bucket's components; fails when one is missing, ambiguous or open. */
  method CollectParts(m: Components, nowMs: int, bucketOpenMs: int) returns (r: Option<seq<Row>>)
    ensures r.Some? <==> Complete(m, nowMs, bucketOpenMs)
    ensures r.Some? ==> r.value == Parts(m, nowMs, bucketOpenMs, BUCKET_ROWS)
  {
    var bucketEndMs := bucketOpenMs + TARGET_MS;
    var expectedOpens: seq<int> := [];
    var componentOpenMs := bucketOpenMs;
    while componentOpenMs < bucketEndMs
      invariant componentOpenMs == bucketOpenMs + |expectedOpens| * SOURCE_MS && |expectedOpens| <= BUCKET_ROWS
      invariant forall i | 0 <= i < |expectedOpens| :: expectedOpens[i] == bucketOpenMs + i * SOURCE_MS
      decreases bucketEndMs - componentOpenMs
    {
      expectedOpens := expectedOpens + [componentOpenMs];
      componentOpenMs := componentOpenMs + SOURCE_MS;
    }
    if componentOpenMs != bucketEndMs {
      return None;
    }
    if exists i | 0 <= i < |expectedOpens| :: !Present(m, nowMs, bucketOpenMs, i) {
      return None;
    }
    return Some(Parts(m, nowMs, bucketOpenMs, BUCKET_ROWS));
  }

  // ----- what is rebuilt, in the rows' own fields

  /** The given rows that open at `t`. */
  ghost function OpenedAt(rows: seq<Row>, t: int): seq<Row> {
    Filter((row: Row) => row.openTime == t, rows)
  }

  /** The 89 minutes of the bucket at `b`, in time order: each is the only given row at its open, ends with its minute, and is over. */
  ghost predicate IsParts(rows: seq<Row>, nowMs: int, b: int, parts: seq<Row>) {
    && |parts| == 89
    && forall i | 0 <= i < 89 ::
         OpenedAt(rows, b + i * 60_000) == [parts[i]] && parts[i].closeTime == b + i * 60_000 + 59_999 && parts[i].closeTime < nowMs
  }

  /** A bar of a bucket that is over by now, folded from the bucket's minutes. */
  ghost predicate IsRebuilt<Bar>(fold: Fold<Bar>, rows: seq<Row>, nowMs: int, x: (int, Bar)) {
    && x.0 % 5_340_000 == 0 && x.0 + 5_340_000 <= nowMs && nowMs >= 5_340_000
    && exists parts :: IsParts(rows, nowMs, x.0, parts) && fold(parts) == Some(x.1)
  }

  /** A row by its open: there is none, one, or more than one. */
  lemma {:induction false} GroupedAs(rows: seq<Row>, t: int)
    ensures t in ByOpen(rows) <==> OpenedAt(rows, t) != []
    ensures t in ByOpen(rows) ==> (ByOpen(rows)[t].Some? <==> |OpenedAt(rows, t)| == 1)
    ensures t in ByOpen(rows) && ByOpen(rows)[t].Some? ==> OpenedAt(rows, t) == [ByOpen(rows)[t].value]
  {
    if rows != [] {
      GroupedAs(rows[..|rows| - 1], t);
    }
  }

  lemma {:induction false} PartsAt(m: Components, nowMs: int, b: int, n: nat)
    requires n <= BUCKET_ROWS && Complete(m, nowMs, b)
    ensures |Parts(m, nowMs, b, n)| == n
    ensures forall i: nat | i < n :: Present(m, nowMs, b, i) && Parts(m, nowMs, b, n)[i] == m[b + i * SOURCE_MS].value
  {
    if n > 0 { PartsAt(m, nowMs, b, n - 1); }
  }

  lemma PartIsPresent(rows: seq<Row>, nowMs: int, b: int, i: nat, row: Row)
    requires OpenedAt(rows, b + i * 60_000) == [row]
    ensures Present(ByOpen(rows), nowMs, b, i) <==> row.closeTime == b + i * 60_000 + 59_999 && row.closeTime < nowMs
    ensures b + i * 60_000 in ByOpen(rows) && ByOpen(rows)[b + i * 60_000] == Some(row)
  {
    hide OpenedAt;
    GroupedAs(rows, b + i * 60_000);
  }

  lemma PresentPart(rows: seq<Row>, nowMs: int, b: int, i: nat)
    requires Present(ByOpen(rows), nowMs, b, i)
    ensures var row := ByOpen(rows)[b + i * 60_000].value;
            OpenedAt(rows, b + i * 60_000) == [row] && row.closeTime == b + i * 60_000 + 59_999 && row.closeTime < nowMs
  {
    hide OpenedAt;
    GroupedAs(rows, b + i * 60_000);
  }

  /** Complete buckets are those whose minutes are all there, and their parts are those minutes. */
  lemma PartsAreMinutes(rows: seq<Row>, nowMs: int, b: int)
    ensures Complete(ByOpen(rows), nowMs, b) ==> IsParts(rows, nowMs, b, Parts(ByOpen(rows), nowMs, b, BUCKET_ROWS))
    ensures forall parts | IsParts(rows, nowMs, b, parts) ::
              Complete(ByOpen(rows), nowMs, b) && parts == Parts(ByOpen(rows), nowMs, b, BUCKET_ROWS)
  {
    hide OpenedAt, Present, Parts;
    if Complete(ByOpen(rows), nowMs, b) {
      PartsAt(ByOpen(rows), nowMs, b, BUCKET_ROWS);
      forall i: nat | i < 89 { PresentPart(rows, nowMs, b, i); }
    }
    forall parts | IsParts(rows, nowMs, b, parts)
      ensures Complete(ByOpen(rows), nowMs, b) && parts == Parts(ByOpen(rows), nowMs, b, BUCKET_ROWS)
    {
      forall i: nat | i < 89 ensures Present(ByOpen(rows), nowMs, b, i) { PartIsPresent(rows, nowMs, b, i, parts[i]); }
      PartsAt(ByOpen(rows), nowMs, b, BUCKET_ROWS);
      forall i: nat | i < 89 ensures parts[i] == Parts(ByOpen(rows), nowMs, b, BUCKET_ROWS)[i] {
        PartIsPresent(rows, nowMs, b, i, parts[i]);
      }
    }
  }

  lemma ClosedBucket(nowMs: int, b: int)
    requires b % TARGET_MS == 0
    ensures LastClosed(nowMs).Some? && b <= LastClosed(nowMs).value <==> b + 5_340_000 <= nowMs && nowMs >= 5_340_000
  {
  }

  /** The rebuilt bars are exactly those of complete buckets, in time order. */
  lemma RebuiltExactly<Bar>(fold: Fold<Bar>, rows: seq<Row>, nowMs: int)
    ensures forall x :: x in Rebuilt(fold, rows, nowMs) <==> IsRebuilt(fold, rows, nowMs, x)
    ensures IncreasingBars(Rebuilt(fold, rows, nowMs))
  {
    hide BarsOf, SortedSet, IsParts, BucketOpens, Complete, IncreasingBars, LastClosed;
    var m := ByOpen(rows);
    var opens := SortedSet(BucketOpens(m));
    SortedSetListsSet(BucketOpens(m));
    BarsIncrease(fold, m, nowMs, opens);
    forall x ensures x in Rebuilt(fold, rows, nowMs) <==> IsRebuilt(fold, rows, nowMs, x) {
      BarsMembers(fold, m, nowMs, opens, x);
      OneRebuilt(fold, rows, nowMs, x);
    }
  }

  lemma OneRebuilt<Bar>(fold: Fold<Bar>, rows: seq<Row>, nowMs: int, x: (int, Bar))
    ensures x.0 in BucketOpens(ByOpen(rows)) && BucketBar(fold, ByOpen(rows), nowMs, x.0) == Some(x.1) <==> IsRebuilt(fold, rows, nowMs, x)
  {
    hide IsParts, Complete, BucketOpens, LastClosed;
    var m := ByOpen(rows);
    PartsAreMinutes(rows, nowMs, x.0);
    if x.0 in BucketOpens(m) { OpensAligned(m, x.0); }
    if x.0 % TARGET_MS == 0 {
      ClosedBucket(nowMs, x.0);
      if Complete(m, nowMs, x.0) { CompleteBucketIsListed(m, nowMs, x.0); }
    }
  }

  lemma OpensAligned(m: Components, b: int)
    requires b in BucketOpens(m)
    ensures b % TARGET_MS == 0
  {
  }

  /** A bar for every bucket that is over and has all its minutes, unambiguous and closed; and no other bar. */
  method AggregateKlineRows<Bar>(fold: Fold<Bar>, rows: seq<Row>, nowMs: int) returns (rebuilt: seq<(int, Bar)>)
    ensures rebuilt == Rebuilt(fold, rows, nowMs)
    ensures forall x :: x in rebuilt <==> IsRebuilt(fold, rows, nowMs, x)
    ensures forall i, j | 0 <= i < j < |rebuilt| :: rebuilt[i].0 < rebuilt[j].0
  {
    hide Complete, Parts, IsRebuilt;
    var m := GroupByOpen(rows);
    var bucketOpens := SortedSet(BucketOpens(m));
    rebuilt := [];
    var lastClosed := LastClosed(nowMs);
    if rows == [] || lastClosed.None? {
      NothingRebuilt(fold, m, nowMs, bucketOpens);
      RebuiltExactly(fold, rows, nowMs);
      return;
    }
    for i := 0 to |bucketOpens|
      invariant rebuilt == BarsOf(fold, m, nowMs, bucketOpens[..i])
    {
      var b := bucketOpens[i];
      assert bucketOpens[..i + 1][..i] == bucketOpens[..i];
      if b <= lastClosed.value {
        var parts := CollectParts(m, nowMs, b);
        if parts.Some? && fold(parts.value).Some? {
          rebuilt := rebuilt + [(b, fold(parts.value).value)];
        }
      }
    }
    assert bucketOpens[..|bucketOpens|] == bucketOpens;
    RebuiltExactly(fold, rows, nowMs);
  }

  lemma {:induction false} NothingRebuilt<Bar>(fold: Fold<Bar>, m: Components, nowMs: int, opens: seq<int>)
    requires LastClosed(nowMs).None? || m == map[]
    ensures BarsOf(fold, m, nowMs, opens) == []
  {
    if opens != [] {
      NothingRebuilt(fold, m, nowMs, opens[..|opens| - 1]);
      if m == map[] { assert !Present(m, nowMs, opens[|opens| - 1], 0); }
    }
  }

  // ----- which buckets count

  /** A complete bucket has a component of its own, so it is among the bucket opens. */
  lemma CompleteBucketIsListed(m: Components, nowMs: int, b: int)
    requires b % TARGET_MS == 0 && Complete(m, nowMs, b)
    ensures b in BucketOpens(m)
  {
    assert Present(m, nowMs, b, 0);
    assert b == FloorBucket(b) && b in m;
  }

  lemma {:induction false} BarsMembers<Bar>(fold: Fold<Bar>, m: Components, nowMs: int, opens: seq<int>, x: (int, Bar))
    ensures x in BarsOf(fold, m, nowMs, opens) <==> x.0 in opens && BucketBar(fold, m, nowMs, x.0) == Some(x.1)
  {
    if opens != [] {
      hide BucketBar;
      BarsMembers(fold, m, nowMs, opens[..|opens| - 1], x);
      assert opens == opens[..|opens| - 1] + [opens[|opens| - 1]];
    }
  }

  lemma {:induction false} BarsOfAppends<Bar>(fold: Fold<Bar>, m: Components, nowMs: int, a: seq<int>, b: seq<int>)
    ensures BarsOf(fold, m, nowMs, a + b) == BarsOf(fold, m, nowMs, a) + BarsOf(fold, m, nowMs, b)
  {
    hide BucketBar;
    if b == [] {
      assert a + b == a;
    } else {
      BarsOfAppends(fold, m, nowMs, a, b[..|b| - 1]);
      assert (a + b)[..|a + b| - 1] == a + b[..|b| - 1];
    }
  }

  lemma {:induction false} BucketsSplit(first: int, a: nat, b: nat)
    ensures Buckets(first, a + b) == Buckets(first, a) + Buckets(first + a, b)
  {
    if b > 0 {
      BucketsSplit(first, a, b - 1);
    }
  }

  ghost predicate IncreasingBars<Bar>(bars: seq<(int, Bar)>) {
    forall i, j | 0 <= i < j < |bars| :: bars[i].0 < bars[j].0
  }

  lemma {:induction false} BarsIncrease<Bar>(fold: Fold<Bar>, m: Components, nowMs: int, opens: seq<int>)
    requires Increasing(opens)
    ensures IncreasingBars(BarsOf(fold, m, nowMs, opens))
  {
    if opens != [] {
      hide BucketBar;
      var front, b := opens[..|opens| - 1], opens[|opens| - 1];
      BarsIncrease(fold, m, nowMs, front);
      var bars := BarsOf(fold, m, nowMs, front);
      forall i | 0 <= i < |bars| ensures bars[i].0 < b {
        assert bars[i] in bars;
        BarsMembers(fold, m, nowMs, front, bars[i]);
      }
    }
  }

  /** Increasing lists with the same members are the same list. */
  lemma {:induction false} SameBars<Bar>(a: seq<(int, Bar)>, b: seq<(int, Bar)>)
    requires IncreasingBars(a) && IncreasingBars(b) && forall x :: x in a <==> x in b
    ensures a == b
    decreases |a|
  {
    EmptyHasNoMember(a);
    EmptyHasNoMember(b);
    if a != [] {
      hide IncreasingBars;
      SameLast(a, b);
      FrontMembers(a);
      FrontMembers(b);
      var fa, fb := a[..|a| - 1], b[..|b| - 1];
      forall z ensures z in fa <==> z in fb {
        assert z in fa <==> z in a && z != a[|a| - 1];
        assert z in fb <==> z in b && z != b[|b| - 1];
      }
      SameBars(fa, fb);
      assert a == a[..|a| - 1] + [a[|a| - 1]] && b == b[..|b| - 1] + [b[|b| - 1]];
    }
  }

  lemma SameLast<Bar>(a: seq<(int, Bar)>, b: seq<(int, Bar)>)
    requires IncreasingBars(a) && IncreasingBars(b) && a != [] && b != [] && forall x :: x in a <==> x in b
    ensures a[|a| - 1] == b[|b| - 1]
  {
    hide IncreasingBars;
    var x, y := a[|a| - 1], b[|b| - 1];
    assert x in a && y in b;
    LastIsGreatest(a, y);
    LastIsGreatest(b, x);
    OpensAreUnique(a, x, y);
  }

  /** Everything but the last is the list without its last. */
  lemma FrontMembers<Bar>(a: seq<(int, Bar)>)
    requires IncreasingBars(a) && a != []
    ensures IncreasingBars(a[..|a| - 1])
    ensures forall z :: z in a[..|a| - 1] <==> z in a && z != a[|a| - 1]
  {
    assert a == a[..|a| - 1] + [a[|a| - 1]];
  }

  lemma EmptyHasNoMember<T>(s: seq<T>)
    ensures s == [] <==> forall x :: x !in s
  {
    if s != [] { assert s[0] in s; }
  }

  lemma LastIsGreatest<Bar>(a: seq<(int, Bar)>, x: (int, Bar))
    requires IncreasingBars(a) && x in a
    ensures x.0 <= a[|a| - 1].0
  {
  }

  lemma OpensAreUnique<Bar>(a: seq<(int, Bar)>, x: (int, Bar), y: (int, Bar))
    requires IncreasingBars(a) && x in a && y in a && x.0 == y.0
    ensures x == y
  {
    var i :| 0 <= i < |a| && a[i] == x;
    var j :| 0 <= j < |a| && a[j] == y;
    assert !(i < j) && !(j < i);
  }

  lemma {:induction false} BucketsAt(first: int, n: nat)
    ensures Increasing(Buckets(first, n))
    ensures forall b :: b in Buckets(first, n) <==> b % TARGET_MS == 0 && first * TARGET_MS <= b < (first + n) * TARGET_MS
  {
    if n > 0 {
      BucketsAt(first, n - 1);
      var all, front := Buckets(first, n), Buckets(first, n - 1);
      forall b ensures b in all <==> b % TARGET_MS == 0 && first * TARGET_MS <= b < (first + n) * TARGET_MS {
        assert b in all <==> b in front || b == (first + n - 1) * TARGET_MS;
        OneBucket(first + n - 1, b);
      }
      forall i, j | 0 <= i < j < n ensures all[i] < all[j] {
        if j == n - 1 { assert front[i] in front; }
      }
    }
  }

  lemma OneBucket(k: int, b: int)
    ensures b % TARGET_MS == 0 && k * TARGET_MS <= b < (k + 1) * TARGET_MS <==> b == k * TARGET_MS
  {
  }
}
