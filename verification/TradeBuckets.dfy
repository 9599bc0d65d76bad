/** Trade buckets: what one bar summarises, as a specification and as the record the tape is folded into. */
module TradeBuckets {
  import opened Results
  import opened Sorting
  import opened Sums
  import opened Grids
  import opened TradePages

  datatype Totals = Totals(volume: real, quoteVolume: real, trades: int, takerBuyBase: real, takerBuyQuote: real) {
    function Plus(other: Totals): Totals {
      Totals(volume + other.volume, quoteVolume + other.quoteVolume, trades + other.trades,
             takerBuyBase + other.takerBuyBase, takerBuyQuote + other.takerBuyQuote)
    }
  }

  const NOTHING := Totals(0.0, 0.0, 0, 0.0, 0.0)

  datatype Bar = Bar(open: real, high: real, low: real, close: real, totals: Totals)

  function FloorOpen(t: int): int { t - t % INTERVAL_MS }

  function BucketOpen(t: Trade): int { FloorOpen(t.tradeTimeMs) }

  /** What one trade contributes: an aggregate spans its constituent trade ids, takers are buyers that are not makers. */
  function Contribution(t: Trade): Totals {
    Totals(t.quantity, t.quoteQuantity, t.lastTradeId - t.firstTradeId + 1,
           if t.isBuyerMaker then 0.0 else t.quantity, if t.isBuyerMaker then 0.0 else t.quoteQuantity)
  }

  function TotalOf(trades: seq<Trade>): Totals {
    if trades == [] then NOTHING else TotalOf(trades[..|trades| - 1]).Plus(Contribution(trades[|trades| - 1]))
  }

  function Highest(trades: seq<Trade>): real
    requires trades != []
  {
    if |trades| == 1 then trades[0].price else MaxReal(Highest(trades[..|trades| - 1]), trades[|trades| - 1].price)
  }

  function Lowest(trades: seq<Trade>): real
    requires trades != []
  {
    if |trades| == 1 then trades[0].price else MinReal(Lowest(trades[..|trades| - 1]), trades[|trades| - 1].price)
  }

  /** The bar of one bucket: first, highest, lowest and last price, and the summed contributions. */
  function Summary(trades: seq<Trade>): Bar
    requires trades != []
  {
    Bar(trades[0].price, Highest(trades), Lowest(trades), trades[|trades| - 1].price, TotalOf(trades))
  }

  /** Highest and lowest are attained and bound every price. */
  lemma {:induction false} ExtremesAreAttained(trades: seq<Trade>)
    requires trades != []
    ensures forall t | t in trades :: Lowest(trades) <= t.price <= Highest(trades)
    ensures exists t | t in trades :: t.price == Highest(trades)
    ensures exists t | t in trades :: t.price == Lowest(trades)
  {
    if |trades| > 1 {
      var front, last := trades[..|trades| - 1], trades[|trades| - 1];
      assert trades == front + [last];
      ExtremesAreAttained(front);
      var h :| h in front && h.price == Highest(front);
      var l :| l in front && l.price == Lowest(front);
      assert h in trades && l in trades && last in trades;
    } else {
      assert trades[0] in trades;
    }
  }

  // ----- what a bar says, in the trades' own fields

  ghost const QUANTITY: Trade -> real := (t: Trade) => t.quantity
  ghost const QUOTE: Trade -> real := (t: Trade) => t.quoteQuantity
  ghost const TRADE_IDS: Trade -> int := (t: Trade) => t.lastTradeId - t.firstTradeId + 1
  ghost const BUYER_TAKES: Trade -> bool := (t: Trade) => !t.isBuyerMaker

  /** Sums over all trades, and over exactly those in which the buyer was the taker. */
  ghost predicate TotalsDescribe(totals: Totals, trades: seq<Trade>) {
    && totals.volume == SumBy(QUANTITY, trades) && totals.quoteVolume == SumBy(QUOTE, trades)
    && totals.trades == CountBy(TRADE_IDS, trades)
    && totals.takerBuyBase == SumBy(QUANTITY, Filter(BUYER_TAKES, trades))
    && totals.takerBuyQuote == SumBy(QUOTE, Filter(BUYER_TAKES, trades))
  }

  /** First and last price, attained bounds of all prices, and the sums. */
  ghost predicate BarDescribes(bar: Bar, trades: seq<Trade>)
    requires trades != []
  {
    && bar.open == trades[0].price && bar.close == trades[|trades| - 1].price
    && (forall t | t in trades :: bar.low <= t.price <= bar.high)
    && (exists t | t in trades :: t.price == bar.high) && (exists t | t in trades :: t.price == bar.low)
    && TotalsDescribe(bar.totals, trades)
  }

  lemma {:induction false} TotalIsDescribed(trades: seq<Trade>)
    ensures TotalsDescribe(TotalOf(trades), trades)
  {
    if trades != [] {
      var front, last := trades[..|trades| - 1], trades[|trades| - 1];
      TotalIsDescribed(front);
      assert trades == front + [last];
      SumSnoc(QUANTITY, Filter(BUYER_TAKES, front), last);
      SumSnoc(QUOTE, Filter(BUYER_TAKES, front), last);
      FilterSnoc(BUYER_TAKES, front, last);
      assert Filter(BUYER_TAKES, front) + [] == Filter(BUYER_TAKES, front);
    }
  }

  lemma SummaryIsDescribed(trades: seq<Trade>)
    requires trades != []
    ensures BarDescribes(Summary(trades), trades)
  {
    hide TotalOf, TotalsDescribe;
    ExtremesAreAttained(trades);
    TotalIsDescribed(trades);
  }

  /** The trades of one bucket, in tape order. */
  function InBucket(tape: seq<Trade>, open: int): seq<Trade> {
    Filter(OpensAt(open), tape)
  }

  function OpensAt(open: int): Trade -> bool {
    (t: Trade) => BucketOpen(t) == open
  }

  function AddTrade(bar: Bar, t: Trade): Bar {
    Bar(bar.open, MaxReal(bar.high, t.price), MinReal(bar.low, t.price), t.price, bar.totals.Plus(Contribution(t)))
  }

  function EmptyBar(price: real): Bar { Bar(price, price, price, price, NOTHING) }

  lemma SummarySnoc(trades: seq<Trade>, t: Trade)
    ensures Summary(trades + [t]) == AddTrade(if trades == [] then EmptyBar(t.price) else Summary(trades), t)
  {
    var all := trades + [t];
    assert all[..|all| - 1] == trades && all[|all| - 1] == t;
    assert TotalOf(all) == TotalOf(trades).Plus(Contribution(t));
    if trades == [] {
      assert |all| == 1 && Highest(all) == t.price && Lowest(all) == t.price;
    } else {
      assert all[0] == trades[0];
      assert Highest(all) == MaxReal(Highest(trades), t.price);
      assert Lowest(all) == MinReal(Lowest(trades), t.price);
    }
  }

  class TradeBucket {
    var open: real
    var high: real
    var low: real
    var close: real
    var volume: real
    var quoteVolume: real
    var trades: int
    var takerBuyBase: real
    var takerBuyQuote: real

    function Value(): Bar
      reads this
    {
      Bar(open, high, low, close, Totals(volume, quoteVolume, trades, takerBuyBase, takerBuyQuote))
    }

    constructor (price: real)
      ensures Value() == EmptyBar(price)
    {
      open, high, low, close := price, price, price, price;
      volume, quoteVolume, trades, takerBuyBase, takerBuyQuote := 0.0, 0.0, 0, 0.0, 0.0;
    }

    method Add(t: Trade)
      modifies this
      ensures Value() == AddTrade(old(Value()), t)
    {
      high := MaxReal(high, t.price);
      low := MinReal(low, t.price);
      close := t.price;
      volume := volume + t.quantity;
      quoteVolume := quoteVolume + t.quoteQuantity;
      trades := trades + (t.lastTradeId - t.firstTradeId + 1);
      if !t.isBuyerMaker {
        takerBuyBase := takerBuyBase + t.quantity;
        takerBuyQuote := takerBuyQuote + t.quoteQuantity;
      }
    }
  }

  type Buckets = map<int, TradeBucket>

  /** No two buckets share a record. */
  ghost predicate Separate(buckets: Buckets) {
    forall j, k | j in buckets && k in buckets && j != k :: buckets[j] != buckets[k]
  }

  /** The bars held by the records. */
  ghost function Values(buckets: Buckets): map<int, Bar>
    reads buckets.Values
  {
    map k | k in buckets :: buckets[k].Value()
  }

  /** The bars are the summaries of the trades seen so far, one for every bucket with a trade. */
  ghost predicate Summarises(bars: map<int, Bar>, seen: seq<Trade>) {
    && (forall k :: k in bars <==> InBucket(seen, k) != [])
    && (forall k | k in bars :: bars[k] == Summary(InBucket(seen, k)))
  }

  /** The same in plain terms: one bar for every minute with a trade, and it describes that minute's trades. */
  ghost predicate BarsDescribe(bars: map<int, Bar>, seen: seq<Trade>) {
    && (forall k :: k in bars <==> k % 60_000 == 0 && MinuteOf(seen, k) != [])
    && forall k | k in bars :: BarDescribes(bars[k], MinuteOf(seen, k))
  }

  /** The trades of one minute, in tape order. */
  ghost function MinuteOf(tape: seq<Trade>, openMs: int): seq<Trade> {
    Filter((t: Trade) => openMs <= t.tradeTimeMs < openMs + 60_000, tape)
  }

  lemma MinuteIsBucket(tape: seq<Trade>, openMs: int)
    ensures openMs % INTERVAL_MS == 0 ==> MinuteOf(tape, openMs) == InBucket(tape, openMs)
    ensures openMs % INTERVAL_MS != 0 ==> InBucket(tape, openMs) == []
  {
    if openMs % INTERVAL_MS == 0 {
      FilterAlike((t: Trade) => openMs <= t.tradeTimeMs < openMs + 60_000, OpensAt(openMs), tape);
    } else {
      FilterKeepsNone(OpensAt(openMs), tape);
    }
  }

  lemma SummariesDescribe(bars: map<int, Bar>, seen: seq<Trade>)
    requires Summarises(bars, seen)
    ensures BarsDescribe(bars, seen)
  {
    hide InBucket, MinuteOf, Summary, BarDescribes;
    forall k ensures k in bars <==> k % 60_000 == 0 && MinuteOf(seen, k) != [] {
      MinuteIsBucket(seen, k);
    }
    forall k | k in bars ensures BarDescribes(bars[k], MinuteOf(seen, k)) {
      MinuteIsBucket(seen, k);
      SummaryIsDescribed(InBucket(seen, k));
    }
  }

  lemma InBucketSnoc(seen: seq<Trade>, t: Trade, k: int)
    ensures InBucket(seen + [t], k) == InBucket(seen, k) + (if k == BucketOpen(t) then [t] else [])
  {
    FilterSnoc(OpensAt(k), seen, t);
  }

  /** Folding one more trade into its bucket's bar keeps the bars summaries. */
  lemma FoldTrade(bars: map<int, Bar>, seen: seq<Trade>, t: Trade)
    requires Summarises(bars, seen)
    ensures var k := BucketOpen(t);
            Summarises(bars[k := AddTrade(if k in bars then bars[k] else EmptyBar(t.price), t)], seen + [t])
  {
    hide Summary, InBucket, AddTrade;
    var k, folded := BucketOpen(t), InBucket(seen, BucketOpen(t)) + [t];
    var bar := AddTrade(if k in bars then bars[k] else EmptyBar(t.price), t);
    var after := bars[k := bar];
    SummarySnoc(InBucket(seen, k), t);
    InBucketSnoc(seen, t, k);
    assert k in bars <==> InBucket(seen, k) != [];
    assert bar == Summary(folded);
    forall j ensures j in after <==> InBucket(seen + [t], j) != [] {
      InBucketSnoc(seen, t, j);
    }
    forall j | j in after ensures after[j] == Summary(InBucket(seen + [t], j)) {
      InBucketSnoc(seen, t, j);
      if j != k {
        assert j in bars && InBucket(seen + [t], j) == InBucket(seen, j);
      }
    }
  }

  /** The bucket of an open time, made at the row's price if there is none yet. */
  method BucketFor(buckets: Buckets, open: int, price: real) returns (r: Buckets)
    requires Separate(buckets)
    ensures Separate(r) && fresh(r.Values - buckets.Values) && open in r
    ensures Values(r) == if open in buckets then Values(buckets) else Values(buckets)[open := EmptyBar(price)]
  {
    r := buckets;
    if open !in r {
      var bucket := new TradeBucket(price);
      r := r[open := bucket];
    }
  }

  /** Adds a trade to one bucket; no other bucket changes. */
  method AddTo(buckets: Buckets, open: int, t: Trade)
    requires Separate(buckets) && open in buckets
    modifies buckets.Values
    ensures Values(buckets) == old(Values(buckets))[open := AddTrade(old(Values(buckets))[open], t)]
  {
    hide AddTrade;
    var bucket := buckets[open];
    assert forall k | k in buckets && k != open :: buckets[k] != bucket;
    bucket.Add(t);
    assert forall k | k in buckets && k != open :: buckets[k].Value() == old(buckets[k].Value());
  }

  /** Folds one row into its bucket, opening the bucket at the row's price if it is the first. */
  method AddRow(buckets: Buckets, ghost seen: seq<Trade>, t: Trade) returns (r: Buckets)
    requires Separate(buckets) && Summarises(Values(buckets), seen)
    modifies buckets.Values
    ensures Separate(r) && Summarises(Values(r), seen + [t])
    ensures BarsDescribe(Values(r), seen + [t])
    ensures fresh(r.Values - buckets.Values)
  {
    hide Summarises, AddTrade, Values, Separate, BarsDescribe;
    ghost var before := Values(buckets);
    FoldTrade(before, seen, t);
    KeysOfValues(buckets);
    var bucketOpen := BucketOpen(t);
    r := BucketFor(buckets, bucketOpen, t.price);
    ghost var started := Values(r);
    AddTo(r, bucketOpen, t);
    assert started[bucketOpen := AddTrade(started[bucketOpen], t)] == before[bucketOpen := AddTrade(started[bucketOpen], t)];
    SummariesDescribe(Values(r), seen + [t]);
  }

  lemma KeysOfValues(buckets: Buckets)
    ensures forall k :: k in Values(buckets) <==> k in buckets
  {
  }
}
