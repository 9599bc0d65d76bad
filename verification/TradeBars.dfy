/** Bars derived from stored trades: the drain, the carry-forward grid, and what the series means. */
module TradeBars {
  import opened Results
  import opened Sorting
  import opened Sums
  import opened Grids
  import opened TradePages
  import opened TradeScan
  import opened TradeDrain
  import opened TradeBuckets

  datatype BarRow = BarRow(openTime: int, closeTime: int, bar: Bar)

  // ----- draining the tape

  method FoldPage(buckets: Buckets, ghost seen: seq<Trade>, rows: seq<Trade>) returns (r: Buckets)
    requires Separate(buckets) && Summarises(Values(buckets), seen)
    modifies buckets.Values
    ensures Separate(r) && Summarises(Values(r), seen + rows)
    ensures fresh(r.Values - buckets.Values)
  {
    hide Summarises;
    r := buckets;
    assert seen + rows[..0] == seen;
    for i := 0 to |rows|
      invariant Separate(r) && Summarises(Values(r), seen + rows[..i])
      invariant fresh(r.Values - buckets.Values)
    {
      assert seen + rows[..i + 1] == seen + rows[..i] + [rows[i]];
      r := AddRow(r, seen + rows[..i], rows[i]);
    }
    assert rows[..|rows|] == rows;
  }

  lemma NothingSeen()
    ensures Summarises(map[], [])
  {
  }

  /**
   * The cursor loop over a stored generation. It never gets stuck, whatever limit is asked for; it reads everything
   * stored in the bounds exactly once, in order, in the fewest pages the archive's own limit allows.
   */
  method CollectBuckets(archive: ParquetRawAggTradeArchive, ds: Dataset, limit: int)
    returns (buckets: Buckets, r: Result<nat, PageError>, ghost drained: seq<Trade>, ghost pages: nat)
    requires ValidFiles(archive.files)
    ensures r.Failure? ==> archive.ScanFault(r.error)
    ensures r.Success? ==>
              && IsTape(archive.files, ds, drained) && r.value == |drained|
              && pages == PageCount(|drained|, if limit < 1 then 1 else if limit > 1_000_000 then 1_000_000 else limit)
              && fresh(buckets.Values) && Summarises(Values(buckets), drained)
  {
    hide Summarises, ValidFiles, Drained, More, Advances, Clashes, IsTape, Stored;
    buckets, drained, pages := map[], [], 0;
    NothingSeen();
    NothingDrained(archive.files, ds);
    assert Values(buckets) == map[];
    ghost var full := EffectiveLimit(limit);
    var cursor: Option<Cursor> := None;
    var scanned := 0;
    while true
      invariant fresh(buckets.Values) && Separate(buckets) && Summarises(Values(buckets), drained)
      invariant Drained(archive.files, ds, drained) && cursor == CursorAt(drained, None)
      invariant scanned == |drained| == pages * full && (pages > 0 ==> More(archive.files, ds, drained))
      decreases |StoredRows(archive.files)| - |drained|
    {
      var answer := NextPage(archive, ds, cursor, limit, drained);
      if answer.Failure? {
        return buckets, Failure(answer.error), drained, pages;
      }
      var page := answer.value;
      AdvanceFacts(archive.files, ds, drained, full, page);
      buckets := FoldPage(buckets, drained, page.rows);
      drained := drained + page.rows;
      scanned := scanned + |page.rows|;
      if page.exhausted {
        PagesCounted(|drained|, full, pages);
        return buckets, Success(scanned), drained, pages + 1;
      }
      pages := pages + 1;
      cursor := page.nextCursor;
    }
  }

  // ----- the carry-forward grid

  /** How many grid opens a window has. */
  function GridCount(startMs: int, endMs: int): nat {
    if FloorOpen(startMs) > FloorOpen(endMs) then 0 else (FloorOpen(endMs) - FloorOpen(startMs)) / INTERVAL_MS + 1
  }

  /**
   * The per-bucket specification of a series: a bucket with trades holds their summary,
   * an empty bucket is flat at the close before it and trades nothing.
   */
  ghost predicate IsBarSeries(tape: seq<Trade>, first: int, rows: seq<BarRow>) {
    forall i | 0 <= i < |rows| :: RowFits(tape, first, rows, i)
  }

  ghost predicate RowFits(tape: seq<Trade>, first: int, rows: seq<BarRow>, i: nat)
    requires i < |rows|
  {
    var t := first + i * INTERVAL_MS;
    && rows[i].openTime == t && rows[i].closeTime == t + INTERVAL_MS - 1
    && (InBucket(tape, t) != [] ==> rows[i].bar == Summary(InBucket(tape, t)))
    && (InBucket(tape, t) == [] ==> i > 0 && rows[i].bar == EmptyBar(rows[i - 1].bar.close))
  }

  /** A row depends on nothing after it. */
  lemma RowInPrefix(tape: seq<Trade>, first: int, rows: seq<BarRow>, i: nat, k: nat)
    requires i < k <= |rows|
    ensures RowFits(tape, first, rows[..k], i) <==> RowFits(tape, first, rows, i)
  {
    hide InBucket, Summary;
  }

  lemma SeriesPrefix(tape: seq<Trade>, first: int, rows: seq<BarRow>, k: nat)
    requires k <= |rows| && IsBarSeries(tape, first, rows)
    ensures IsBarSeries(tape, first, rows[..k])
  {
    hide RowFits;
    forall i | 0 <= i < k ensures RowFits(tape, first, rows[..k], i) {
      assert RowFits(tape, first, rows, i);
      RowInPrefix(tape, first, rows, i, k);
    }
  }

  lemma SeriesSnoc(tape: seq<Trade>, first: int, rows: seq<BarRow>, bar: Bar)
    requires IsBarSeries(tape, first, rows)
    requires var t := first + |rows| * INTERVAL_MS;
             if InBucket(tape, t) != [] then bar == Summary(InBucket(tape, t))
             else rows != [] && bar == EmptyBar(rows[|rows| - 1].bar.close)
    ensures var t := first + |rows| * INTERVAL_MS;
            IsBarSeries(tape, first, rows + [BarRow(t, t + INTERVAL_MS - 1, bar)])
  {
    hide InBucket, Summary;
    var t := first + |rows| * INTERVAL_MS;
    var longer := rows + [BarRow(t, t + INTERVAL_MS - 1, bar)];
    assert longer[..|rows|] == rows;
    assert RowFits(tape, first, longer, |rows|);
    forall i | 0 <= i < |rows| ensures RowFits(tape, first, longer, i) {
      RowInPrefix(tape, first, longer, i, |rows|);
    }
  }

  /** Emits one row per grid open; fails exactly when the first bucket has no trade. */
  method EmitBars(buckets: Buckets, ghost tape: seq<Trade>, firstOpen: int, lastOpen: int) returns (r: Result<seq<BarRow>, PageError>)
    requires Summarises(Values(buckets), tape) && firstOpen % INTERVAL_MS == 0 && lastOpen % INTERVAL_MS == 0
    ensures r.Success? <==> firstOpen > lastOpen || InBucket(tape, firstOpen) != []
    ensures r.Failure? ==> r.error == FirstBarEmpty
    ensures r.Success? ==>
              && IsBarSeries(tape, firstOpen, r.value)
              && |r.value| == (if firstOpen > lastOpen then 0 else (lastOpen - firstOpen) / INTERVAL_MS + 1)
  {
    hide InBucket, Summary, IsBarSeries;
    var rows: seq<BarRow> := [];
    var previousClose: Option<real> := None;
    EmptySeries(tape, firstOpen);
    var openTime := firstOpen;
    while openTime <= lastOpen
      invariant openTime == firstOpen + |rows| * INTERVAL_MS && (rows == [] || openTime <= lastOpen + INTERVAL_MS)
      invariant IsBarSeries(tape, firstOpen, rows)
      invariant previousClose == if rows == [] then None else Some(rows[|rows| - 1].bar.close)
      invariant rows != [] ==> InBucket(tape, firstOpen) != []
      decreases lastOpen - openTime
    {
      var bucket: TradeBucket;
      if openTime !in buckets {
        if previousClose.None? {
          assert openTime !in Values(buckets);
          return Failure(FirstBarEmpty);
        }
        bucket := new TradeBucket(previousClose.value);
      } else {
        bucket := buckets[openTime];
        assert openTime in Values(buckets);
      }
      previousClose := Some(bucket.close);
      SeriesSnoc(tape, firstOpen, rows, bucket.Value());
      rows := rows + [BarRow(openTime, openTime + INTERVAL_MS - 1, bucket.Value())];
      openTime := openTime + INTERVAL_MS;
    }
    return Success(rows);
  }

  lemma EmptySeries(tape: seq<Trade>, first: int)
    ensures IsBarSeries(tape, first, [])
  {
  }

  /**
   * The derivation: freezes the window, drains it with pages of `pageRows`, then emits the grid of the window.
   * What it returns describes, minute by minute, everything stored in the window, and conserves its totals; beside
   * the reasons for which a freeze fails, it fails only when the first minute has no trade.
   */
  method DeriveTradeBars(archive: ParquetRawAggTradeArchive, epochOf: (int, int) -> Digest, startMs: int, endMs: int, pageRows: int)
    returns (r: Result<(seq<BarRow>, nat), PageError>, ghost tape: seq<Trade>)
    requires ValidFiles(archive.files)
    ensures r.Success? ==> |r.value.0| == (endMs - startMs + startMs % 60_000) / 60_000 + 1 && r.value.1 > 0
    ensures r.Success? ==>
              && WindowTape(archive.files, startMs, endMs, tape) && Consecutive(tape) && r.value.1 == |tape|
              && RowsDescribe(tape, startMs, endMs, r.value.0) && RowsConserve(tape, r.value.0)
              && IsBarSeries(tape, FloorOpen(startMs), r.value.0)
    ensures r.Failure? ==>
              || FreezeFault(archive, startMs, endMs, r.error)
              || (&& r.error == FirstBarEmpty && WindowTape(archive.files, startMs, endMs, tape)
                  && MinuteOf(tape, startMs - startMs % 60_000) == [])
  {
    hide Summarises, IsBarSeries, InBucket, Values, IsTape, WindowTape, ValidFiles, Stored, Clashes, TotalOf, TotalOfRows, Consecutive, Numbered, GridCount, RowsDescribe, RowsConserve, MinuteOf;
    var frozen, window := FreezeDataset(archive, epochOf, startMs, endMs, pageRows);
    tape := window;
    if frozen.Failure? {
      return Failure(frozen.error), tape;
    }
    var dataset := frozen.value;
    var buckets, scanned, drained, pages := CollectBuckets(archive, dataset, pageRows);
    if scanned.Failure? {
      return Failure(scanned.error), tape;
    }
    OneTape(archive.files, dataset, drained, tape);
    NumberedIsConsecutive(dataset, tape);
    TapeInWindow(archive.files, startMs, endMs, tape);
    var firstOpen := startMs - startMs % INTERVAL_MS;
    var lastOpen := endMs - endMs % INTERVAL_MS;
    MinuteIsBucket(tape, firstOpen);
    var rows := EmitBars(buckets, tape, firstOpen, lastOpen);
    if rows.Failure? {
      return Failure(rows.error), tape;
    }
    RowCount(startMs, endMs);
    SeriesDescribes(tape, startMs, endMs, rows.value);
    SeriesConservesTape(tape, startMs, endMs, rows.value);
    TotalsConserved(tape, rows.value);
    return Success((rows.value, scanned.value)), tape;
  }

  // ----- the rows in plain terms

  /** Row `i` is the `i`-th minute from `first`; it describes the minute's trades, or stays flat at the close before it. */
  ghost predicate RowDescribes(tape: seq<Trade>, first: int, rows: seq<BarRow>, i: nat)
    requires i < |rows|
  {
    var openMs := first + i * 60_000;
    var trades := MinuteOf(tape, openMs);
    && rows[i].openTime == openMs && rows[i].closeTime == openMs + 59_999
    && (trades != [] ==> BarDescribes(rows[i].bar, trades))
    && (trades == [] ==>
          && i > 0
          && var close := rows[i - 1].bar.close;
             rows[i].bar == Bar(close, close, close, close, Totals(0.0, 0.0, 0, 0.0, 0.0)))
  }

  ghost predicate EachRowDescribes(tape: seq<Trade>, first: int, rows: seq<BarRow>) {
    forall i | 0 <= i < |rows| :: RowDescribes(tape, first, rows, i)
  }

  /** The rows cover every minute from that of `startMs` through that of `endMs`. */
  ghost predicate RowsDescribe(tape: seq<Trade>, startMs: int, endMs: int, rows: seq<BarRow>) {
    && EachRowDescribes(tape, startMs - startMs % 60_000, rows)
    && (startMs <= endMs ==> rows != [] && rows[|rows| - 1].openTime <= endMs <= rows[|rows| - 1].closeTime)
    && (rows == [] || startMs <= endMs)
  }

  ghost const ROW_VOLUME: BarRow -> real := (r: BarRow) => r.bar.totals.volume
  ghost const ROW_QUOTE: BarRow -> real := (r: BarRow) => r.bar.totals.quoteVolume
  ghost const ROW_TRADES: BarRow -> int := (r: BarRow) => r.bar.totals.trades
  ghost const ROW_TAKER: BarRow -> real := (r: BarRow) => r.bar.totals.takerBuyBase
  ghost const ROW_TAKER_QUOTE: BarRow -> real := (r: BarRow) => r.bar.totals.takerBuyQuote

  /** Nothing of the tape is lost: each total summed over the rows is the sum over the trades. */
  ghost predicate RowsConserve(tape: seq<Trade>, rows: seq<BarRow>) {
    TotalsDescribe(Totals(SumBy(ROW_VOLUME, rows), SumBy(ROW_QUOTE, rows), CountBy(ROW_TRADES, rows),
                          SumBy(ROW_TAKER, rows), SumBy(ROW_TAKER_QUOTE, rows)), tape)
  }

  lemma SeriesDescribes(tape: seq<Trade>, startMs: int, endMs: int, rows: seq<BarRow>)
    requires IsBarSeries(tape, FloorOpen(startMs), rows) && |rows| == GridCount(startMs, endMs) && startMs <= endMs
    ensures RowsDescribe(tape, startMs, endMs, rows)
  {
    hide IsBarSeries, MinuteOf, InBucket, Summary, BarDescribes;
    var first := FloorOpen(startMs);
    forall i | 0 <= i < |rows| ensures RowDescribes(tape, first, rows, i) {
      RowIsDescribed(tape, first, rows, i);
    }
    WholeWindow(startMs, endMs);
    RowIsDescribed(tape, first, rows, |rows| - 1);
  }

  lemma WholeWindow(startMs: int, endMs: int)
    requires startMs <= endMs
    ensures var last := FloorOpen(startMs) + (GridCount(startMs, endMs) - 1) * INTERVAL_MS;
            GridCount(startMs, endMs) > 0 && last <= endMs <= last + 59_999
  {
  }

  lemma RowIsDescribed(tape: seq<Trade>, first: int, rows: seq<BarRow>, i: nat)
    requires IsBarSeries(tape, first, rows) && i < |rows| && first % INTERVAL_MS == 0
    ensures RowDescribes(tape, first, rows, i)
  {
    hide MinuteOf, InBucket, Summary, BarDescribes;
    assert RowFits(tape, first, rows, i);
    GridAligned(first, i);
    MinuteIsBucket(tape, first + i * INTERVAL_MS);
    if InBucket(tape, first + i * INTERVAL_MS) != [] { SummaryIsDescribed(InBucket(tape, first + i * INTERVAL_MS)); }
  }

  lemma {:induction false} RowSums(rows: seq<BarRow>)
    ensures TotalOfRows(rows) == Totals(SumBy(ROW_VOLUME, rows), SumBy(ROW_QUOTE, rows), CountBy(ROW_TRADES, rows),
                                        SumBy(ROW_TAKER, rows), SumBy(ROW_TAKER_QUOTE, rows))
  {
    if rows != [] { RowSums(rows[..|rows| - 1]); }
  }

  lemma TotalsConserved(tape: seq<Trade>, rows: seq<BarRow>)
    requires TotalOfRows(rows) == TotalOf(tape)
    ensures RowsConserve(tape, rows)
  {
    hide TotalsDescribe, TotalOf, TotalOfRows;
    RowSums(rows);
    TotalIsDescribed(tape);
  }

  lemma OneTape(files: seq<ScanFile>, ds: Dataset, a: seq<Trade>, b: seq<Trade>)
    requires IsTape(files, ds, a) && IsTape(files, ds, b)
    ensures a == b
  {
    hide Stored, InBounds, Ordered;
    OrderedIsUnique(a, b);
  }

  lemma NumberedIsConsecutive(ds: Dataset, tape: seq<Trade>)
    requires Numbered(ds, tape)
    ensures Consecutive(tape)
  {
  }

  lemma TapeInWindow(files: seq<ScanFile>, startMs: int, endMs: int, tape: seq<Trade>)
    requires WindowTape(files, startMs, endMs, tape)
    ensures forall t | t in tape :: startMs <= t.tradeTimeMs <= endMs
  {
    hide Stored;
  }

  lemma RowCount(startMs: int, endMs: int)
    ensures GridCount(startMs, endMs)
         == if FloorOpen(startMs) > FloorOpen(endMs) then 0 else (FloorOpen(endMs) - FloorOpen(startMs)) / INTERVAL_MS + 1
    ensures startMs <= endMs ==> GridCount(startMs, endMs) == (endMs - startMs + startMs % 60_000) / 60_000 + 1
  {
  }

  // ----- what the series means

  /** The series is determined by the tape and the grid: no page size can change it. */
  lemma {:induction false} SeriesIsDetermined(tape: seq<Trade>, first: int, a: seq<BarRow>, b: seq<BarRow>)
    requires IsBarSeries(tape, first, a) && IsBarSeries(tape, first, b) && |a| == |b|
    ensures a == b
  {
    if a != [] {
      hide IsBarSeries, RowFits;
      var k := |a| - 1;
      SeriesPrefix(tape, first, a, k);
      SeriesPrefix(tape, first, b, k);
      SeriesIsDetermined(tape, first, a[..k], b[..k]);
      LastRowIsDetermined(tape, first, a, b);
      assert a == a[..k] + [a[k]] && b == b[..k] + [b[k]];
    }
  }

  lemma LastRowIsDetermined(tape: seq<Trade>, first: int, a: seq<BarRow>, b: seq<BarRow>)
    requires IsBarSeries(tape, first, a) && IsBarSeries(tape, first, b) && |a| == |b| > 0 && a[..|a| - 1] == b[..|b| - 1]
    ensures a[|a| - 1] == b[|b| - 1]
  {
    hide InBucket, Summary;
    var k := |a| - 1;
    assert RowFits(tape, first, a, k) && RowFits(tape, first, b, k);
    if k > 0 { assert a[k - 1] == a[..k][k - 1] == b[..k][k - 1] == b[k - 1]; }
  }

  function TotalOfRows(rows: seq<BarRow>): Totals {
    if rows == [] then NOTHING else TotalOfRows(rows[..|rows| - 1]).Plus(rows[|rows| - 1].bar.totals)
  }

  function OpensBefore(bound: int): Trade -> bool {
    (t: Trade) => BucketOpen(t) < bound
  }

  lemma BucketEdge(t: Trade, open: int)
    requires open % INTERVAL_MS == 0
    ensures BucketOpen(t) < open + INTERVAL_MS <==> BucketOpen(t) < open || BucketOpen(t) == open
  {
  }

  /** Trades before one grid open, plus those of its bucket, are the trades before the next open. */
  lemma {:induction false} TotalsSplit(tape: seq<Trade>, open: int)
    requires open % INTERVAL_MS == 0
    ensures TotalOf(Filter(OpensBefore(open + INTERVAL_MS), tape))
         == TotalOf(Filter(OpensBefore(open), tape)).Plus(TotalOf(InBucket(tape, open)))
  {
    if tape == [] {
      PlusNothing(NOTHING);
    } else {
      hide TotalOf, Filter;
      var front, last := tape[..|tape| - 1], tape[|tape| - 1];
      var before, within := TotalOf(Filter(OpensBefore(open), front)), TotalOf(InBucket(front, open));
      TotalsSplit(front, open);
      PlusMoves(before, within, Contribution(last));
      PlusNothing(before);
      PlusNothing(within);
      PlusNothing(before.Plus(within));
      BucketEdge(last, open);
      FilteredTotal(OpensBefore(open + INTERVAL_MS), front, last);
      FilteredTotal(OpensBefore(open), front, last);
      FilteredTotal(OpensAt(open), front, last);
      assert tape == front + [last];
    }
  }

  lemma TotalSnoc(trades: seq<Trade>, t: Trade)
    ensures TotalOf(trades + [t]) == TotalOf(trades).Plus(Contribution(t))
  {
    assert (trades + [t])[..|trades|] == trades;
  }

  lemma PlusNothing(a: Totals)
    ensures a.Plus(NOTHING) == a
  {
  }

  /** Adding one contribution to both of the right-hand totals or to neither. */
  lemma PlusMoves(a: Totals, b: Totals, c: Totals)
    ensures a.Plus(b).Plus(c) == a.Plus(c).Plus(b) == a.Plus(b.Plus(c))
  {
  }

  lemma FilteredTotal(keep: Trade -> bool, front: seq<Trade>, last: Trade)
    ensures TotalOf(Filter(keep, front + [last])) == TotalOf(Filter(keep, front)).Plus(if keep(last) then Contribution(last) else NOTHING)
  {
    FilterSnoc(keep, front, last);
    assert Filter(keep, front) + [] == Filter(keep, front);
    TotalSnoc(Filter(keep, front), last);
    PlusNothing(TotalOf(Filter(keep, front)));
  }

  /** A row's totals are those of its bucket, also when the bucket is empty. */
  lemma RowTotals(tape: seq<Trade>, first: int, rows: seq<BarRow>, i: nat)
    requires IsBarSeries(tape, first, rows) && i < |rows|
    ensures rows[i].bar.totals == TotalOf(InBucket(tape, first + i * INTERVAL_MS))
  {
    hide InBucket;
    assert RowFits(tape, first, rows, i);
  }

  lemma {:induction false} RowsAccumulate(tape: seq<Trade>, first: int, rows: seq<BarRow>, k: nat)
    requires IsBarSeries(tape, first, rows) && k <= |rows| && first % INTERVAL_MS == 0
    requires Filter(OpensBefore(first), tape) == []
    ensures TotalOfRows(rows[..k]) == TotalOf(Filter(OpensBefore(first + k * INTERVAL_MS), tape))
  {
    hide IsBarSeries, InBucket, TotalOf, Filter, RowFits, OpensBefore;
    if k == 0 {
      NoTotal();
      assert rows[..0] == [];
    } else {
      RowsAccumulate(tape, first, rows, k - 1);
      RowTotals(tape, first, rows, k - 1);
      GridAligned(first, k - 1);
      TotalsSplit(tape, first + (k - 1) * INTERVAL_MS);
      assert first + (k - 1) * INTERVAL_MS + INTERVAL_MS == first + k * INTERVAL_MS;
      RowsTotalSnoc(rows, k - 1);
    }
  }

  lemma NoTotal()
    ensures TotalOf([]) == NOTHING
  {
  }

  lemma RowsTotalSnoc(rows: seq<BarRow>, k: nat)
    requires k < |rows|
    ensures TotalOfRows(rows[..k + 1]) == TotalOfRows(rows[..k]).Plus(rows[k].bar.totals)
  {
    assert rows[..k + 1][..k] == rows[..k];
  }

  lemma GridAligned(first: int, k: nat)
    requires first % INTERVAL_MS == 0
    ensures (first + k * INTERVAL_MS) % INTERVAL_MS == 0
  {
    var q := first / INTERVAL_MS;
    DivisionIsUnique(INTERVAL_MS, first + k * INTERVAL_MS, q + k, 0);
  }

  /** Every quantity of a tape that lies in the window is conserved by the series. */
  lemma SeriesConservesTape(tape: seq<Trade>, startMs: int, endMs: int, rows: seq<BarRow>)
    requires IsBarSeries(tape, FloorOpen(startMs), rows) && |rows| == GridCount(startMs, endMs)
    requires forall t | t in tape :: startMs <= t.tradeTimeMs <= endMs
    ensures TotalOfRows(rows) == TotalOf(tape)
  {
    hide IsBarSeries, TotalOf, TotalOfRows, Filter;
    var first := FloorOpen(startMs);
    var bound := first + |rows| * INTERVAL_MS;
    WindowHolds(tape, startMs, endMs, |rows|);
    FilterKeepsNone(OpensBefore(first), tape);
    FilterKeepsAll(OpensBefore(bound), tape);
    RowsAccumulate(tape, first, rows, |rows|);
    assert rows[..|rows|] == rows;
  }

  lemma WindowHolds(tape: seq<Trade>, startMs: int, endMs: int, n: nat)
    requires n == GridCount(startMs, endMs) && forall t | t in tape :: startMs <= t.tradeTimeMs <= endMs
    ensures FloorOpen(startMs) % INTERVAL_MS == 0
    ensures forall t | t in tape :: FloorOpen(startMs) <= BucketOpen(t) < FloorOpen(startMs) + n * INTERVAL_MS
  {
  }

  ghost predicate SoundBar(bar: Bar) {
    && bar.low <= bar.open <= bar.high && bar.low <= bar.close <= bar.high
    && 0.0 <= bar.totals.takerBuyBase <= bar.totals.volume
    && 0.0 <= bar.totals.takerBuyQuote <= bar.totals.quoteVolume
  }

  lemma {:induction false} TakersBounded(trades: seq<Trade>)
    requires forall t | t in trades :: t.quantity >= 0.0 && t.quoteQuantity >= 0.0
    ensures 0.0 <= TotalOf(trades).takerBuyBase <= TotalOf(trades).volume
    ensures 0.0 <= TotalOf(trades).takerBuyQuote <= TotalOf(trades).quoteVolume
  {
    if trades != [] {
      assert trades[|trades| - 1] in trades && forall t | t in trades[..|trades| - 1] :: t in trades;
      TakersBounded(trades[..|trades| - 1]);
    }
  }

  /** Prices stay between low and high and takers below volume, for tapes without negative quantities; consecutive bars abut. */
  lemma SeriesIsSound(tape: seq<Trade>, first: int, rows: seq<BarRow>)
    requires IsBarSeries(tape, first, rows)
    requires forall t | t in tape :: t.quantity >= 0.0 && t.quoteQuantity >= 0.0
    ensures forall i | 0 <= i < |rows| :: SoundBar(rows[i].bar)
    ensures forall i | 0 <= i < |rows| - 1 :: rows[i].closeTime + 1 == rows[i + 1].openTime
  {
    forall i | 0 <= i < |rows| ensures SoundBar(rows[i].bar) {
      var trades := InBucket(tape, first + i * INTERVAL_MS);
      assert RowFits(tape, first, rows, i);
      if trades != [] {
        FilterMembers(OpensAt(first + i * INTERVAL_MS), tape);
        TakersBounded(trades);
        ExtremesAreAttained(trades);
        assert trades[0] in trades && trades[|trades| - 1] in trades;
      }
    }
    forall i | 0 <= i < |rows| - 1 ensures rows[i].closeTime + 1 == rows[i + 1].openTime {
      assert RowFits(tape, first, rows, i) && RowFits(tape, first, rows, i + 1);
    }
  }
}
