/** Batched writes of minute rows and chunked materialisation of 89-minute bars. */
module Materialize {
  import opened Results
  import opened Sorting
  import opened Grids
  import opened Aggregation

  const START_BUCKET: int := 318_353
  const START_MS: int := START_BUCKET * TARGET_MS
  const UPSERT_BATCH: int := 25_000
  const MATERIALIZE_BUCKETS_PER_CHUNK: nat := 64

  // ----- the store

  /** A stored row with the rank of the source that wrote it. */
  datatype Stored<+T> = Stored(row: T, rank: int)

  /** A write loses only against a row of a higher rank. */
  function Put<T>(store: map<int, Stored<T>>, key: int, row: T, rank: int): map<int, Stored<T>> {
    if key in store && store[key].rank > rank then store else store[key := Stored(row, rank)]
  }

  function Upserted<T>(store: map<int, Stored<T>>, rows: seq<(int, T)>, rank: int): map<int, Stored<T>> {
    if rows == [] then store
    else Put(Upserted(store, rows[..|rows| - 1], rank), rows[|rows| - 1].0, rows[|rows| - 1].1, rank)
  }

  /** Two batches in a row write what one batch would. */
  lemma {:induction false} UpsertAppends<T>(store: map<int, Stored<T>>, a: seq<(int, T)>, b: seq<(int, T)>, rank: int)
    ensures Upserted(store, a + b, rank) == Upserted(Upserted(store, a, rank), b, rank)
  {
    if b == [] {
      assert a + b == a;
    } else {
      UpsertAppends(store, a, b[..|b| - 1], rank);
      assert (a + b)[..|a + b| - 1] == a + b[..|b| - 1];
    }
  }

  /** What one batch leaves under a key: an outranking row, the last row written, or what was there. */
  lemma {:induction false} UpsertReads<T>(store: map<int, Stored<T>>, rows: seq<(int, T)>, rank: int, key: int)
    ensures key in Upserted(store, rows, rank) <==> key in store || exists x | x in rows :: x.0 == key
    ensures key in store && store[key].rank > rank ==> Upserted(store, rows, rank)[key] == store[key]
    ensures !(exists x | x in rows :: x.0 == key) && key in store ==> Upserted(store, rows, rank)[key] == store[key]
    ensures key in Upserted(store, rows, rank) && (exists x | x in rows :: x.0 == key) && !(key in store && store[key].rank > rank) ==>
              Upserted(store, rows, rank)[key].rank == rank
  {
    if rows != [] {
      var front, last := rows[..|rows| - 1], rows[|rows| - 1];
      assert rows == front + [last];
      UpsertReads(store, front, rank, key);
      assert last in rows && forall x | x in front :: x in rows;
    }
  }

  /** A written key reads the same whatever was stored under it, as long as nothing there outranks the batch. */
  lemma {:induction false} LastWriteWins<T>(a: map<int, Stored<T>>, b: map<int, Stored<T>>, rows: seq<(int, T)>, rank: int, key: int)
    requires exists x | x in rows :: x.0 == key
    requires (key in a ==> a[key].rank <= rank) && (key in b ==> b[key].rank <= rank)
    ensures key in Upserted(a, rows, rank) && key in Upserted(b, rows, rank) && Upserted(a, rows, rank)[key] == Upserted(b, rows, rank)[key]
  {
    var front, last := rows[..|rows| - 1], rows[|rows| - 1];
    assert rows == front + [last];
    UpsertReads(a, front, rank, key);
    UpsertReads(b, front, rank, key);
    if last.0 != key {
      LastWriteWins(a, b, front, rank, key);
    }
  }

  /** Replaying a batch changes nothing. */
  lemma UpsertIsIdempotent<T>(store: map<int, Stored<T>>, rows: seq<(int, T)>, rank: int)
    ensures Upserted(Upserted(store, rows, rank), rows, rank) == Upserted(store, rows, rank)
  {
    var once := Upserted(store, rows, rank);
    var twice := Upserted(once, rows, rank);
    forall key ensures key in twice <==> key in once
      ensures key in once ==> twice[key] == once[key]
    {
      UpsertReads(store, rows, rank, key);
      UpsertReads(once, rows, rank, key);
      if (exists x | x in rows :: x.0 == key) && !(key in store && store[key].rank > rank) {
        LastWriteWins(once, store, rows, rank, key);
      }
    }
  }

  // ----- generated minute rows

  function NativeRow(index: int): Row {
    var openTime, price, volume := START_MS + index * SOURCE_MS, 50_000.0 + (index % 1_000) as real * 0.25, 1.0 + (index % 17) as real * 0.05;
    Row(openTime, openTime + SOURCE_MS - 1, price, price + 1.5, price - 1.25, price + 0.5, volume, volume * price,
        10 + index % 9, volume * 0.4, volume * 0.4 * price)
  }

  function NativeRows(start: int, count: nat): (r: seq<(int, Row)>)
    ensures |r| == count
  {
    if count == 0 then [] else NativeRows(start, count - 1) + [(NativeRow(start + count - 1).openTime, NativeRow(start + count - 1))]
  }

  lemma {:induction false} NativeRowsSplit(start: int, a: nat, b: nat)
    ensures NativeRows(start, a + b) == NativeRows(start, a) + NativeRows(start + a, b)
  {
    if b > 0 {
      NativeRowsSplit(start, a, b - 1);
    } else {
      assert NativeRows(start, a) + [] == NativeRows(start, a);
    }
  }

  method BuildNativeRows(start: int, count: nat) returns (rows: seq<(int, Row)>)
    ensures rows == NativeRows(start, count)
  {
    rows := [];
    for offset := 0 to count
      invariant rows == NativeRows(start, offset)
    {
      var row := NativeRow(start + offset);
      rows := rows + [(row.openTime, row)];
    }
  }

  // ----- reading a window

  function InWindow(native: map<int, Stored<Row>>, lo: int, hi: int): set<int> {
    set t | t in native && lo <= t <= hi
  }

  function RowsAt(native: map<int, Stored<Row>>, times: seq<int>): seq<Row>
    requires forall t | t in times :: t in native
  {
    if times == [] then []
    else
      var last := times[|times| - 1];
      assert last in times && forall t | t in times[..|times| - 1] :: t in times;
      RowsAt(native, times[..|times| - 1]) + [native[last].row]
  }

  /** The rows of a window in time order. */
  function Query(native: map<int, Stored<Row>>, lo: int, hi: int): seq<Row> {
    SortedSetMembers(InWindow(native, lo, hi));
    RowsAt(native, SortedSet(InWindow(native, lo, hi)))
  }

  /** Stored minute rows are keyed by their own open time. */
  ghost predicate KeyedByOpen(native: map<int, Stored<Row>>) {
    forall t | t in native :: native[t].row.openTime == t
  }

  /** The rows of a window as components. */
  function Window(native: map<int, Stored<Row>>, lo: int, hi: int): Components {
    map t | t in native && lo <= t <= hi :: Some(native[t].row)
  }

  lemma {:induction false} GroupedRows(native: map<int, Stored<Row>>, times: seq<int>)
    requires KeyedByOpen(native) && Increasing(times) && forall t | t in times :: t in native
    ensures ByOpen(RowsAt(native, times)) == map t | t in times :: Some(native[t].row)
  {
    if times != [] {
      var front, last := times[..|times| - 1], times[|times| - 1];
      assert times == front + [last] && last in times && forall t | t in front :: t in times;
      GroupedRows(native, front);
      assert last !in front;
      var rows := RowsAt(native, times);
      assert rows[..|rows| - 1] == RowsAt(native, front) && rows[|rows| - 1] == native[last].row;
      GroupSnoc(native, front, last);
    }
  }

  lemma GroupSnoc(native: map<int, Stored<Row>>, front: seq<int>, last: int)
    requires (forall t | t in front :: t in native) && last in native && last !in front
    ensures (map t | t in front :: Some(native[t].row))[last := Some(native[last].row)] == map t | t in front + [last] :: Some(native[t].row)
  {
  }

  lemma QueryGroups(native: map<int, Stored<Row>>, lo: int, hi: int)
    requires KeyedByOpen(native)
    ensures ByOpen(Query(native, lo, hi)) == Window(native, lo, hi)
  {
    SortedSetListsSet(InWindow(native, lo, hi));
    GroupedRows(native, SortedSet(InWindow(native, lo, hi)));
  }

  // ----- chunks against the whole series

  /** The bars of `n` buckets from `first` on, rebuilt from everything stored. */
  function SeriesBars<Bar>(fold: Fold<Bar>, native: map<int, Stored<Row>>, nowMs: int, first: int, n: nat): seq<(int, Bar)> {
    BarsOf(fold, All(native), nowMs, Buckets(first, n))
  }

  function All(native: map<int, Stored<Row>>): Components { map t | t in native :: Some(native[t].row) }

  lemma {:induction false} PartsInWindow(native: map<int, Stored<Row>>, nowMs: int, lo: int, hi: int, b: int, n: nat)
    requires n <= BUCKET_ROWS && Complete(Window(native, lo, hi), nowMs, b) && Complete(All(native), nowMs, b)
    ensures Parts(Window(native, lo, hi), nowMs, b, n) == Parts(All(native), nowMs, b, n)
  {
    if n > 0 {
      PartsInWindow(native, nowMs, lo, hi, b, n - 1);
      assert Present(Window(native, lo, hi), nowMs, b, n - 1) && Present(All(native), nowMs, b, n - 1);
    }
  }

  /** A bucket inside the window sees all its components; one outside is incomplete. */
  lemma BucketInWindow<Bar>(fold: Fold<Bar>, native: map<int, Stored<Row>>, nowMs: int, lo: int, hi: int, b: int)
    ensures lo <= b && b + TARGET_MS - SOURCE_MS <= hi ==>
              BucketBar(fold, Window(native, lo, hi), nowMs, b) == BucketBar(fold, All(native), nowMs, b)
    ensures b < lo || b + TARGET_MS - SOURCE_MS > hi ==> BucketBar(fold, Window(native, lo, hi), nowMs, b) == None
  {
    var window, all := Window(native, lo, hi), All(native);
    if lo <= b && b + TARGET_MS - SOURCE_MS <= hi {
      forall i: nat | i < BUCKET_ROWS ensures Present(window, nowMs, b, i) <==> Present(all, nowMs, b, i) {}
      if Complete(all, nowMs, b) {
        PartsInWindow(native, nowMs, lo, hi, b, BUCKET_ROWS);
      }
    } else if b < lo {
      assert !Present(window, nowMs, b, 0);
    } else {
      assert !Present(window, nowMs, b, BUCKET_ROWS - 1);
    }
  }

  /** Aggregating the rows of whole buckets rebuilds exactly the series' bars of those buckets. */
  lemma WindowRebuildsSeries<Bar>(fold: Fold<Bar>, native: map<int, Stored<Row>>, nowMs: int, first: int, n: nat)
    requires KeyedByOpen(native)
    ensures Rebuilt(fold, Query(native, first * TARGET_MS, (first + n) * TARGET_MS - SOURCE_MS), nowMs) == SeriesBars(fold, native, nowMs, first, n)
  {
    hide BucketBar, SortedSet, BarsOf, Query, Window, All;
    var lo, hi := first * TARGET_MS, (first + n) * TARGET_MS - SOURCE_MS;
    QueryGroups(native, lo, hi);
    var window := Window(native, lo, hi);
    var opens := SortedSet(BucketOpens(window));
    var rebuilt, series := BarsOf(fold, window, nowMs, opens), SeriesBars(fold, native, nowMs, first, n);
    SortedSetListsSet(BucketOpens(window));
    BucketsAt(first, n);
    BarsIncrease(fold, window, nowMs, opens);
    BarsIncrease(fold, All(native), nowMs, Buckets(first, n));
    forall x ensures x in rebuilt <==> x in series {
      BarsMembers(fold, window, nowMs, opens, x);
      BarsMembers(fold, All(native), nowMs, Buckets(first, n), x);
      SameBucket(fold, native, nowMs, first, n, x);
    }
    SameBars(rebuilt, series);
  }

  lemma SameBucket<Bar>(fold: Fold<Bar>, native: map<int, Stored<Row>>, nowMs: int, first: int, n: nat, x: (int, Bar))
    ensures var lo, hi := first * TARGET_MS, (first + n) * TARGET_MS - SOURCE_MS;
            var window := Window(native, lo, hi);
            && (x.0 in BucketOpens(window) && BucketBar(fold, window, nowMs, x.0) == Some(x.1)
                <==> x.0 % TARGET_MS == 0 && lo <= x.0 < (first + n) * TARGET_MS && BucketBar(fold, All(native), nowMs, x.0) == Some(x.1))
  {
    var lo, hi := first * TARGET_MS, (first + n) * TARGET_MS - SOURCE_MS;
    var window := Window(native, lo, hi);
    BucketInWindow(fold, native, nowMs, lo, hi, x.0);
    if x.0 in BucketOpens(window) {
      BucketIsAligned(window, x.0);
    }
    if BucketBar(fold, window, nowMs, x.0).Some? && x.0 % TARGET_MS == 0 {
      CompleteBucketIsListed(window, nowMs, x.0);
    }
    if x.0 % TARGET_MS == 0 {
      AlignedFits(first + n, x.0);
    }
  }

  lemma BucketIsAligned(m: Components, b: int)
    requires b in BucketOpens(m)
    ensures b % TARGET_MS == 0
  {
  }

  lemma AlignedFits(k: int, b: int)
    requires b % TARGET_MS == 0
    ensures b + TARGET_MS - SOURCE_MS <= k * TARGET_MS - SOURCE_MS <==> b < k * TARGET_MS
  {
  }

  /** Consecutive runs of buckets concatenate. */
  lemma SeriesBarsSplit<Bar>(fold: Fold<Bar>, native: map<int, Stored<Row>>, nowMs: int, first: int, a: nat, b: nat)
    ensures SeriesBars(fold, native, nowMs, first, a + b)
         == SeriesBars(fold, native, nowMs, first, a) + SeriesBars(fold, native, nowMs, first + a, b)
  {
    hide BarsOf, Buckets;
    BucketsSplit(first, a, b);
    BarsOfAppends(fold, All(native), nowMs, Buckets(first, a), Buckets(first + a, b));
  }

  // ----- what the runs store, in plain terms

  /** The generated minute `index`: a price cycle of a thousand, a volume cycle of seventeen, a trade cycle of nine. */
  ghost predicate IsNativeRow(index: int, row: Row) {
    var price, volume := 50_000.0 + (index % 1_000) as real * 0.25, 1.0 + (index % 17) as real * 0.05;
    && row.openTime == 318_353 * 5_340_000 + index * 60_000 && row.closeTime == row.openTime + 59_999
    && row.open == price && row.high == price + 1.5 && row.low == price - 1.25 && row.close == price + 0.5
    && row.volume == volume && row.quoteVolume == volume * price && row.trades == 10 + index % 9
    && row.takerBuyBase == volume * 0.4 && row.takerBuyQuote == volume * 0.4 * price
  }

  /** One of the `n` buckets from the first one on, with 89 stored minutes that end with their minute, folded. */
  ghost predicate IsMaterial<Bar>(fold: Fold<Bar>, native: map<int, Stored<Row>>, n: nat, x: (int, Bar)) {
    && x.0 % 5_340_000 == 0 && 318_353 * 5_340_000 <= x.0 < (318_353 + n) * 5_340_000
    && exists parts :: AreStored(native, x.0, parts) && fold(parts) == Some(x.1)
  }

  ghost predicate AreStored(native: map<int, Stored<Row>>, b: int, parts: seq<Row>) {
    && |parts| == 89
    && forall i | 0 <= i < 89 :: StoredAs(native, b + i * 60_000, parts[i])
  }

  ghost predicate StoredAs(native: map<int, Stored<Row>>, t: int, row: Row) {
    t in native && native[t].row == row && row.closeTime == t + 59_999
  }

  /** After a write of the given rows: each stands under its key unless a row of a higher rank does, and nothing else changed. */
  ghost predicate Wrote<T>(before: map<int, Stored<T>>, after: map<int, Stored<T>>, rows: seq<(int, T)>, rank: int) {
    && (forall x | x in rows ::
          x.0 in after && after[x.0] == if x.0 in before && before[x.0].rank > rank then before[x.0] else Stored(x.1, rank))
    && (forall key | (forall x | x in rows :: x.0 != key) :: (key in after <==> key in before) && (key in before ==> after[key] == before[key]))
  }

  lemma {:induction false} UpsertWrites<T>(store: map<int, Stored<T>>, rows: seq<(int, T)>, rank: int)
    requires forall i, j | 0 <= i < j < |rows| :: rows[i].0 != rows[j].0
    ensures Wrote(store, Upserted(store, rows, rank), rows, rank)
  {
    hide Wrote, Put;
    if rows == [] {
      WroteNothing(store, rank);
    } else {
      var front, last := rows[..|rows| - 1], rows[|rows| - 1];
      UpsertWrites(store, front, rank);
      assert rows == front + [last];
      forall x | x in front ensures x.0 != last.0 {
        var i :| 0 <= i < |front| && front[i] == x;
        assert rows[i].0 != rows[|front|].0;
      }
      WroteOneMore(store, Upserted(store, front, rank), front, last, rank);
    }
  }

  lemma WroteNothing<T>(store: map<int, Stored<T>>, rank: int)
    ensures Wrote(store, store, [], rank)
  {
  }

  lemma WroteOneMore<T>(before: map<int, Stored<T>>, middle: map<int, Stored<T>>, front: seq<(int, T)>, last: (int, T), rank: int)
    requires Wrote(before, middle, front, rank) && forall x | x in front :: x.0 != last.0
    ensures Wrote(before, Put(middle, last.0, last.1, rank), front + [last], rank)
  {
    var after, rows := Put(middle, last.0, last.1, rank), front + [last];
    assert (last.0 in middle <==> last.0 in before) && (last.0 in before ==> middle[last.0] == before[last.0]);
    forall key | forall x | x in rows :: x.0 != key
      ensures (key in after <==> key in before) && (key in before ==> after[key] == before[key])
    {
      assert last in rows;
      assert forall x | x in front :: x in rows;
    }
  }

  lemma {:induction false} NativeRowsAt(start: int, count: nat)
    ensures forall i | 0 <= i < count :: NativeRows(start, count)[i] == (NativeRow(start + i).openTime, NativeRow(start + i))
  {
    if count > 0 { NativeRowsAt(start, count - 1); }
  }

  lemma NativeRowsListed(start: int, count: nat)
    ensures var rows := NativeRows(start, count);
            && |rows| == count
            && (forall i | 0 <= i < count :: rows[i].0 == rows[i].1.openTime && IsNativeRow(start + i, rows[i].1))
            && (forall i, j | 0 <= i < j < count :: rows[i].0 != rows[j].0)
  {
    NativeRowsAt(start, count);
  }

  lemma StoredParts(native: map<int, Stored<Row>>, nowMs: int, b: int, i: nat)
    requires b + i * 60_000 + 59_999 < nowMs
    ensures Present(All(native), nowMs, b, i) <==>
              b + i * 60_000 in native && StoredAs(native, b + i * 60_000, native[b + i * 60_000].row)
  {
  }

  lemma PartsAreStored(native: map<int, Stored<Row>>, nowMs: int, b: int)
    requires b + TARGET_MS <= nowMs
    ensures Complete(All(native), nowMs, b) ==> AreStored(native, b, Parts(All(native), nowMs, b, BUCKET_ROWS))
    ensures forall parts | AreStored(native, b, parts) ::
              Complete(All(native), nowMs, b) && parts == Parts(All(native), nowMs, b, BUCKET_ROWS)
  {
    hide Parts, Present, StoredAs;
    var m := All(native);
    forall i: nat | i < 89 { StoredParts(native, nowMs, b, i); }
    if Complete(m, nowMs, b) {
      PartsAt(m, nowMs, b, BUCKET_ROWS);
    }
    forall parts | AreStored(native, b, parts) ensures Complete(m, nowMs, b) && parts == Parts(m, nowMs, b, BUCKET_ROWS) {
      forall i: nat | i < 89 ensures Present(m, nowMs, b, i) && m[b + i * SOURCE_MS] == Some(parts[i]) {
        StoredRow(native, b + i * 60_000, parts[i]);
      }
      PartsAt(m, nowMs, b, BUCKET_ROWS);
      forall i: nat | i < 89 ensures parts[i] == Parts(m, nowMs, b, BUCKET_ROWS)[i] {
        assert StoredAs(native, b + i * 60_000, parts[i]);
        StoredRow(native, b + i * 60_000, parts[i]);
      }
    }
  }

  lemma StoredRow(native: map<int, Stored<Row>>, t: int, row: Row)
    requires StoredAs(native, t, row)
    ensures t in native && native[t].row == row && All(native)[t] == Some(row)
  {
  }

  /** The series' bars are exactly the material ones, in time order. */
  lemma SeriesIsMaterial<Bar>(fold: Fold<Bar>, native: map<int, Stored<Row>>, n: nat)
    requires n == |native| / BUCKET_ROWS
    ensures var bars := SeriesBars(fold, native, START_MS + |native| * SOURCE_MS + TARGET_MS, START_BUCKET, n);
            IncreasingBars(bars) && forall x :: x in bars <==> IsMaterial(fold, native, n, x)
  {
    hide BarsOf, Complete, Parts, AreStored, All, LastClosed, Buckets;
    var nowMs := START_MS + |native| * SOURCE_MS + TARGET_MS;
    BucketsAt(START_BUCKET, n);
    BarsIncrease(fold, All(native), nowMs, Buckets(START_BUCKET, n));
    forall x ensures x in SeriesBars(fold, native, nowMs, START_BUCKET, n) <==> IsMaterial(fold, native, n, x) {
      BarsMembers(fold, All(native), nowMs, Buckets(START_BUCKET, n), x);
      if x.0 % TARGET_MS == 0 && x.0 < (START_BUCKET + n) * TARGET_MS {
        BucketIsOver(|native|, n, x.0);
        ClosedBucket(nowMs, x.0);
        PartsAreStored(native, nowMs, x.0);
      }
    }
  }

  lemma BucketIsOver(size: nat, n: nat, b: int)
    requires n == size / BUCKET_ROWS && b % TARGET_MS == 0 && b < (START_BUCKET + n) * TARGET_MS
    ensures b + TARGET_MS <= START_MS + size * SOURCE_MS + TARGET_MS && START_MS + size * SOURCE_MS + TARGET_MS >= TARGET_MS
  {
  }

  // ----- the benchmark's runs

  class KlineStore<!Bar> {
    var native: map<int, Stored<Row>>
    var target: map<int, Stored<Bar>>

    constructor ()
      ensures native == map[] && target == map[]
    {
      native, target := map[], map[];
    }

    /** Writes generated rows in batches; the store ends as after one write of them all. */
    method UpsertNative(startIndex: int, count: int, rank: int) returns (ghost rows: seq<(int, Row)>)
      modifies this`native
      ensures native == Upserted(old(native), NativeRows(startIndex, MaxInt(0, count)), rank)
      ensures |rows| == (if count < 0 then 0 else count) && Wrote(old(native), native, rows, rank)
      ensures forall i | 0 <= i < |rows| :: rows[i].0 == rows[i].1.openTime && IsNativeRow(startIndex + i, rows[i].1)
    {
      hide Upserted, NativeRows, IsNativeRow, Wrote;
      rows := NativeRows(startIndex, MaxInt(0, count));
      NativeRowsListed(startIndex, MaxInt(0, count));
      UpsertWrites(native, rows, rank);
      NothingUpserted(native, rank);
      NoRows(startIndex);
      var remaining := count;
      var cursor := startIndex;
      while remaining > 0
        invariant startIndex <= cursor && (remaining <= 0 ==> cursor == startIndex + MaxInt(0, count))
        invariant remaining > 0 ==> cursor + remaining == startIndex + count
        invariant native == Upserted(old(native), NativeRows(startIndex, cursor - startIndex), rank)
        decreases remaining
      {
        var batch := MinInt(UPSERT_BATCH, remaining);
        var built := BuildNativeRows(cursor, batch);
        UpsertAppends(old(native), NativeRows(startIndex, cursor - startIndex), built, rank);
        NativeRowsSplit(startIndex, cursor - startIndex, batch);
        native := Upserted(native, built, rank);
        cursor := cursor + batch;
        remaining := remaining - batch;
      }
    }

    /**
     * Rebuilds the complete-bucket prefix chunk by chunk. The store ends as after one aggregation of the whole prefix:
     * one bar for every bucket of the prefix whose 89 minutes are stored, and nothing else is touched.
     */
    method Materialize89m(fold: Fold<Bar>, rank: int) returns (completeBuckets: nat, rebuiltTotal: nat, ghost bars: seq<(int, Bar)>)
      requires KeyedByOpen(native)
      modifies this`target
      ensures completeBuckets == |native| / 89
      ensures forall x :: x in bars <==> IsMaterial(fold, native, completeBuckets, x)
      ensures IncreasingBars(bars) && rebuiltTotal == |bars| && Wrote(old(target), target, bars, rank)
      ensures var nowMs := START_MS + |native| * SOURCE_MS + TARGET_MS;
              bars == SeriesBars(fold, native, nowMs, START_BUCKET, completeBuckets) && target == Upserted(old(target), bars, rank)
    {
      hide SeriesBars, Upserted, Rebuilt, Query, KeyedByOpen, IsMaterial, IsRebuilt, Wrote;
      var sourceCount := |native|;
      completeBuckets := sourceCount / BUCKET_ROWS;
      var nowMs := START_MS + sourceCount * SOURCE_MS + TARGET_MS;
      rebuiltTotal := 0;
      var chunkSourceRows := MATERIALIZE_BUCKETS_PER_CHUNK * BUCKET_ROWS;
      var offset := 0;
      ghost var done: nat := 0;
      NoBars(fold, native, nowMs, target, rank);
      while offset < completeBuckets * BUCKET_ROWS
        invariant done == MinInt(offset / BUCKET_ROWS, completeBuckets) && offset % BUCKET_ROWS == 0 && offset >= 0
        invariant target == Upserted(old(target), SeriesBars(fold, native, nowMs, START_BUCKET, done), rank)
        invariant rebuiltTotal == |SeriesBars(fold, native, nowMs, START_BUCKET, done)|
        decreases completeBuckets * BUCKET_ROWS - offset
      {
        var startMs := START_MS + offset * SOURCE_MS;
        var endMs := START_MS + MinInt(offset + chunkSourceRows, completeBuckets * BUCKET_ROWS) * SOURCE_MS - SOURCE_MS;
        var components := Query(native, startMs, endMs);
        var rebuilt := AggregateKlineRows(fold, components, nowMs);
        ghost var next: nat := MinInt(done + MATERIALIZE_BUCKETS_PER_CHUNK, completeBuckets) - done;
        ChunkBounds(offset, done, next, completeBuckets);
        WindowRebuildsSeries(fold, native, nowMs, START_BUCKET + done, next);
        SeriesBarsSplit(fold, native, nowMs, START_BUCKET, done, next);
        UpsertAppends(old(target), SeriesBars(fold, native, nowMs, START_BUCKET, done), rebuilt, rank);
        rebuiltTotal := rebuiltTotal + |rebuilt|;
        if rebuilt != [] {
          target := Upserted(target, rebuilt, rank);
        } else {
          NothingUpserted(target, rank);
        }
        offset := offset + chunkSourceRows;
        done := done + next;
      }
      bars := SeriesBars(fold, native, nowMs, START_BUCKET, completeBuckets);
      SeriesIsMaterial(fold, native, completeBuckets);
      UpsertWrites(old(target), bars, rank);
    }
  }

  lemma NoBars<Bar>(fold: Fold<Bar>, native: map<int, Stored<Row>>, nowMs: int, target: map<int, Stored<Bar>>, rank: int)
    ensures SeriesBars(fold, native, nowMs, START_BUCKET, 0) == []
    ensures Upserted(target, [], rank) == target
  {
  }

  lemma NothingUpserted<T>(store: map<int, Stored<T>>, rank: int)
    ensures Upserted(store, [], rank) == store
  {
  }

  lemma NoRows(start: int)
    ensures NativeRows(start, 0) == []
  {
  }

  /** A chunk spans whole buckets. */
  lemma ChunkBounds(offset: int, done: nat, next: nat, complete: nat)
    requires offset % BUCKET_ROWS == 0 && 0 <= offset < complete * BUCKET_ROWS && done == MinInt(offset / BUCKET_ROWS, complete)
    requires done + next == MinInt(done + MATERIALIZE_BUCKETS_PER_CHUNK, complete)
    ensures done == offset / BUCKET_ROWS
    ensures START_MS + offset * SOURCE_MS == (START_BUCKET + done) * TARGET_MS
    ensures START_MS + MinInt(offset + MATERIALIZE_BUCKETS_PER_CHUNK * BUCKET_ROWS, complete * BUCKET_ROWS) * SOURCE_MS - SOURCE_MS
         == (START_BUCKET + done + next) * TARGET_MS - SOURCE_MS
    ensures done + next == MinInt((offset + MATERIALIZE_BUCKETS_PER_CHUNK * BUCKET_ROWS) / BUCKET_ROWS, complete)
    ensures (offset + MATERIALIZE_BUCKETS_PER_CHUNK * BUCKET_ROWS) % BUCKET_ROWS == 0
  {
  }

  // ----- one target row per complete bucket

  ghost predicate HoldsNative(native: map<int, Stored<Row>>, n: nat) {
    && |native| == n
    && forall i | 0 <= i < n :: NativeRow(i).openTime in native && native[NativeRow(i).openTime].row == NativeRow(i)
  }

  /** Writing the first `n` generated rows into an empty store stores exactly those rows, each under its own open. */
  lemma {:induction false} NativeStoreHolds(n: nat, rank: int)
    ensures var native := Upserted(map[], NativeRows(0, n), rank);
            && HoldsNative(native, n) && KeyedByOpen(native)
            && forall t | t in native :: START_MS <= t < START_MS + n * SOURCE_MS && native[t].rank == rank
  {
    if n > 0 {
      hide NativeRow, HoldsNative, KeyedByOpen;
      NativeStoreHolds(n - 1, rank);
      OpenOfNative(n - 1);
      var before, row := Upserted(map[], NativeRows(0, n - 1), rank), NativeRow(n - 1);
      var after := Upserted(map[], NativeRows(0, n), rank);
      assert NativeRows(0, n)[..n - 1] == NativeRows(0, n - 1);
      assert row.openTime !in before && after == before[row.openTime := Stored(row, rank)];
      OneMoreNative(before, row, n, rank);
    }
  }

  lemma OpenOfNative(index: int)
    ensures NativeRow(index).openTime == START_MS + index * SOURCE_MS
  {
  }

  lemma OneMoreNative(before: map<int, Stored<Row>>, row: Row, n: nat, rank: int)
    requires n > 0 && HoldsNative(before, n - 1) && KeyedByOpen(before) && row == NativeRow(n - 1) && row.openTime !in before
    ensures var after := before[row.openTime := Stored(row, rank)]; HoldsNative(after, n) && KeyedByOpen(after)
  {
    hide NativeRow;
    var after := before[row.openTime := Stored(row, rank)];
    assert after.Keys == before.Keys + {row.openTime};
    forall i | 0 <= i < n ensures NativeRow(i).openTime in after && after[NativeRow(i).openTime].row == NativeRow(i) {
      OpenOfNative(i);
      OpenOfNative(n - 1);
    }
  }

  /** Over the generated series every bucket of the prefix is rebuilt, whatever the fold, as long as it accepts its rows. */
  lemma {:induction false} OneRowPerBucket<Bar>(fold: Fold<Bar>, native: map<int, Stored<Row>>, n: nat, k: nat)
    requires HoldsNative(native, n) && k * BUCKET_ROWS <= n && forall rows :: fold(rows).Some?
    ensures |SeriesBars(fold, native, START_MS + n * SOURCE_MS + TARGET_MS, START_BUCKET, k)| == k
  {
    if k > 0 {
      OneRowPerBucket(fold, native, n, k - 1);
      BucketIsRebuilt(fold, native, n, k - 1);
    }
  }

  lemma BucketIsRebuilt<Bar>(fold: Fold<Bar>, native: map<int, Stored<Row>>, n: nat, k: nat)
    requires HoldsNative(native, n) && (k + 1) * BUCKET_ROWS <= n && forall rows :: fold(rows).Some?
    ensures BucketBar(fold, All(native), START_MS + n * SOURCE_MS + TARGET_MS, (START_BUCKET + k) * TARGET_MS).Some?
  {
    var nowMs, b := START_MS + n * SOURCE_MS + TARGET_MS, (START_BUCKET + k) * TARGET_MS;
    forall i: nat | i < BUCKET_ROWS ensures Present(All(native), nowMs, b, i) {
      var index := k * BUCKET_ROWS + i;
      assert NativeRow(index).openTime == b + i * SOURCE_MS;
    }
  }
}
