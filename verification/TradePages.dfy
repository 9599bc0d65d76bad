/** Trades, cursors and pages, and the two archives that generate pages from row numbers. */
module TradePages {
  import opened Results
  import opened Sorting
  import opened Grids

  datatype Trade = Trade(aggTradeId: int, firstTradeId: int, lastTradeId: int, price: real, quantity: real, quoteQuantity: real,
                         tradeTimeMs: int, isBuyerMaker: bool)

  /** A replay position: trade time, then aggregate id. */
  datatype Cursor = Cursor(tradeTimeMs: int, aggTradeId: int)

  datatype Dataset = Dataset(dataEpoch: Digest, firstAggTradeId: int, rowCount: nat, startTimeMs: int, endTimeMs: int) {
    function LastAggTradeId(): int { firstAggTradeId + rowCount - 1 }
  }

  datatype Page = Page(rows: seq<Trade>, nextCursor: Option<Cursor>, exhausted: bool, dataEpoch: Digest)

  datatype PageError =
    | GenerationChanged
    | ScanLimitExceeded
    | ConflictingDuplicate
    | CursorStuck
    | BoundsInvalid
    | NoObjects
    | TapeOutOfOrder
    | IdGap
    | RangeEmpty
    | FirstBarEmpty
    | PageLimitInvalid
    | CursorOutsideDataset
    | PageOverBudget
    | EpochChanged
    | TimeOutsideDataset
    | CursorInconsistent
    | NoProgress
    | EndedEarly
    | ContinuedPastEnd

  function KeyOf(t: Trade): Cursor { Cursor(t.tradeTimeMs, t.aggTradeId) }

  predicate KeyLess(a: Cursor, b: Cursor) {
    a.tradeTimeMs < b.tradeTimeMs || (a.tradeTimeMs == b.tradeTimeMs && a.aggTradeId < b.aggTradeId)
  }

  /** Strictly increasing by time and id. */
  ghost predicate Ordered(tape: seq<Trade>) {
    forall i, j | 0 <= i < j < |tape| ::
      tape[i].tradeTimeMs < tape[j].tradeTimeMs || (tape[i].tradeTimeMs == tape[j].tradeTimeMs && tape[i].aggTradeId < tape[j].aggTradeId)
  }

  function CursorAt(rows: seq<Trade>, after: Option<Cursor>): Option<Cursor> {
    if rows == [] then after else Some(KeyOf(rows[|rows| - 1]))
  }

  /** The cursor from which reading continues at row `i` of a tape. */
  function CursorBefore(tape: seq<Trade>, i: nat): Option<Cursor>
    requires i <= |tape|
  {
    CursorAt(tape[..i], None)
  }

  /** The page that serves `count` rows of a tape from row `i` on. */
  function PageAt(tape: seq<Trade>, i: nat, count: nat, epoch: Digest): Page
    requires i + count <= |tape|
  {
    Page(tape[i..i + count], CursorBefore(tape, i + count), i + count == |tape|, epoch)
  }

  lemma CursorAdvances(tape: seq<Trade>, i: nat, count: nat)
    requires Ordered(tape) && i + count <= |tape| && count > 0
    ensures CursorBefore(tape, i + count) == Some(KeyOf(tape[i + count - 1])) == CursorAt(tape[i..i + count], CursorBefore(tape, i))
    ensures CursorBefore(tape, i + count) != CursorBefore(tape, i)
  {
  }

  /** How many pages a full read takes. */
  function PageCount(n: nat, limit: int): nat
    requires limit > 0
  {
    if n == 0 then 1 else (n + limit - 1) / limit
  }

  /** Full pages of `limit` rows, then one page that ends the tape, make the page count. */
  lemma PagesCounted(n: nat, limit: int, full: nat)
    requires limit > 0 && (full == 0 == n || full * limit < n <= full * limit + limit)
    ensures PageCount(n, limit) == full + 1
  {
    if n > 0 {
      assert n + limit - 1 == (full + 1) * limit + (n - 1 - full * limit);
      DivisionIsUnique(limit, n + limit - 1, full + 1, n - 1 - full * limit);
    }
  }

  // ----- the generated archives

  /** The row after a cursor, counted by id. */
  function StartIndex(first: int, after: Option<Cursor>): int {
    if after.None? then 0 else after.value.aggTradeId - first + 1
  }

  /** Rows `start`, `start + 1`, ... of a row generator. */
  function RowsFrom(row: int -> Trade, start: int, count: int): (r: seq<Trade>)
    ensures |r| == MaxInt(0, count)
  {
    seq(MaxInt(0, count), i requires i >= 0 => row(start + i))
  }

  /** The whole tape of a dataset. */
  function Tape(row: int -> Trade, n: nat): (r: seq<Trade>)
    ensures |r| == n
  {
    RowsFrom(row, 0, n)
  }

  /** The fixture's price cycle, quote quantity of one hundredth of a unit. */
  function PriceAt(index: int): (real, real) {
    match index % 4
    case 0 => (100.0, 1.0)
    case 1 => (100.1, 1.001)
    case 2 => (99.9, 0.999)
    case _ => (100.2, 1.002)
  }

  function GeneratedRow(first: int, startTimeMs: int, spacingMs: int): int -> Trade {
    (index: int) =>
      Trade(first + index, first + index, first + index, PriceAt(index).0, 0.01, PriceAt(index).1,
            startTimeMs + index * spacingMs, index % 2 == 0)
  }

  class GeneratedPagedArchive {
    const dataset: Dataset
    const row: int -> Trade
    var pageCalls: nat
    var maxPageRowsSeen: nat

    constructor (dataset: Dataset, spacingMs: int)
      ensures this.dataset == dataset && pageCalls == 0 && maxPageRowsSeen == 0
      ensures row == GeneratedRow(dataset.firstAggTradeId, dataset.startTimeMs, spacingMs)
    {
      this.dataset := dataset;
      row := GeneratedRow(dataset.firstAggTradeId, dataset.startTimeMs, spacingMs);
      pageCalls, maxPageRowsSeen := 0, 0;
    }

    /** One page after a cursor; the counters record every call that passes the generation check. */
    method ScanPage(after: Option<Cursor>, limit: int, datasetRef: Dataset) returns (r: Result<Page, PageError>)
      modifies this`pageCalls, this`maxPageRowsSeen
      ensures r.Failure? <==> datasetRef != dataset
      ensures r.Failure? ==> r.error == GenerationChanged && pageCalls == old(pageCalls) && maxPageRowsSeen == old(maxPageRowsSeen)
      ensures r.Success? ==>
                && r.value == GeneratedPage(dataset, row, after, limit)
                && pageCalls == old(pageCalls) + 1 && maxPageRowsSeen == MaxInt(old(maxPageRowsSeen), |r.value.rows|)
    {
      if datasetRef != dataset {
        return Failure(GenerationChanged);
      }
      var startIndex := StartIndex(dataset.firstAggTradeId, after);
      var remaining := dataset.rowCount - startIndex;
      var count := MinInt(limit, MaxInt(0, remaining));
      var rows := RowsFrom(row, startIndex, count);
      pageCalls := pageCalls + 1;
      maxPageRowsSeen := MaxInt(maxPageRowsSeen, |rows|);
      var exhausted := startIndex + count >= dataset.rowCount;
      return Success(Page(rows, CursorAt(rows, after), exhausted, datasetRef.dataEpoch));
    }
  }

  function GeneratedPage(dataset: Dataset, row: int -> Trade, after: Option<Cursor>, limit: int): Page {
    var start := StartIndex(dataset.firstAggTradeId, after);
    var count := MinInt(limit, MaxInt(0, dataset.rowCount - start));
    Page(RowsFrom(row, start, count), CursorAt(RowsFrom(row, start, count), after), start + count >= dataset.rowCount, dataset.dataEpoch)
  }

  /** Python's `s[lo:hi]`. */
  function Slice(s: seq<Trade>, lo: int, hi: int): seq<Trade> {
    var a := if lo < 0 then MaxInt(0, |s| + lo) else MinInt(lo, |s|);
    var b := if hi < 0 then MaxInt(0, |s| + hi) else MinInt(hi, |s|);
    if a <= b then s[a..b] else []
  }

  /** The second archive: the same page cut out of a stored tuple of rows. */
  function SlicedPage(dataset: Dataset, rows: seq<Trade>, after: Option<Cursor>, limit: int): Page {
    var start := StartIndex(dataset.firstAggTradeId, after);
    var selected := Slice(rows, start, start + limit);
    Page(selected, CursorAt(selected, after), start + |selected| >= |rows|, dataset.dataEpoch)
  }

  /** A tape numbered from the dataset's first id, in time order, inside the dataset's window. */
  ghost predicate Numbered(dataset: Dataset, tape: seq<Trade>) {
    && |tape| == dataset.rowCount && Ordered(tape)
    && forall i | 0 <= i < |tape| ::
         tape[i].aggTradeId == dataset.firstAggTradeId + i && dataset.startTimeMs <= tape[i].tradeTimeMs <= dataset.endTimeMs
  }

  /** Generated rows are such a tape when their times stay inside the window. */
  lemma GeneratedTapeIsNumbered(dataset: Dataset, spacingMs: int)
    requires spacingMs >= 1 && dataset.rowCount >= 1
    requires dataset.startTimeMs + (dataset.rowCount - 1) * spacingMs <= dataset.endTimeMs
    ensures Numbered(dataset, Tape(GeneratedRow(dataset.firstAggTradeId, dataset.startTimeMs, spacingMs), dataset.rowCount))
    ensures forall i | 0 <= i < dataset.rowCount ::
              var t := Tape(GeneratedRow(dataset.firstAggTradeId, dataset.startTimeMs, spacingMs), dataset.rowCount)[i];
              && t.firstTradeId == t.lastTradeId == t.aggTradeId && t.tradeTimeMs == dataset.startTimeMs + i * spacingMs
              && (t.isBuyerMaker <==> i % 2 == 0) && t.quantity == 0.01 && t.quoteQuantity == t.price / 100.0
              && t.price in {99.9, 100.0, 100.1, 100.2}
  {
    var tape := Tape(GeneratedRow(dataset.firstAggTradeId, dataset.startTimeMs, spacingMs), dataset.rowCount);
    forall i | 0 <= i < |tape| ensures tape[i].tradeTimeMs == dataset.startTimeMs + i * spacingMs <= dataset.endTimeMs {
      MulOrder(i, dataset.rowCount - 1, spacingMs);
    }
    forall i, j | 0 <= i < j < |tape| ensures KeyLess(KeyOf(tape[i]), KeyOf(tape[j])) {
      MulOrder(i, j, spacingMs);
    }
    forall i | 0 <= i < |tape| ensures dataset.startTimeMs <= tape[i].tradeTimeMs {
      MulOrder(0, i, spacingMs);
    }
  }

  /** Both archives serve the next rows of the tape for every cursor into it and every limit that is not negative. */
  lemma BothArchivesServeTape(dataset: Dataset, row: int -> Trade, i: nat, limit: int)
    requires limit >= 0 && Numbered(dataset, Tape(row, dataset.rowCount)) && i <= dataset.rowCount
    ensures var tape := Tape(row, dataset.rowCount);
            var page := PageAt(tape, i, MinInt(limit, dataset.rowCount - i), dataset.dataEpoch);
            && GeneratedPage(dataset, row, CursorBefore(tape, i), limit) == page
            && SlicedPage(dataset, tape, CursorBefore(tape, i), limit) == page
  {
    hide Tape, Slice, RowsFrom, Numbered, CursorBefore, CursorAt;
    var tape := Tape(row, dataset.rowCount);
    var after, count := CursorBefore(tape, i), MinInt(limit, dataset.rowCount - i);
    StartAtCursor(dataset, tape, i);
    NumberedIsOrdered(dataset, tape);
    RowsAreSlice(row, dataset.rowCount, i, count);
    SliceInside(tape, i, i + limit);
    CursorMovesOn(tape, i, count);
  }

  lemma StartAtCursor(dataset: Dataset, tape: seq<Trade>, i: nat)
    requires Numbered(dataset, tape) && i <= |tape|
    ensures StartIndex(dataset.firstAggTradeId, CursorBefore(tape, i)) == i
  {
  }

  lemma NumberedIsOrdered(dataset: Dataset, tape: seq<Trade>)
    requires Numbered(dataset, tape)
    ensures Ordered(tape)
  {
  }

  lemma RowsAreSlice(row: int -> Trade, n: nat, i: nat, count: nat)
    requires i + count <= n
    ensures RowsFrom(row, i, count) == Tape(row, n)[i..i + count]
  {
  }

  lemma SliceInside(tape: seq<Trade>, lo: nat, hi: nat)
    requires lo <= |tape| && lo <= hi
    ensures Slice(tape, lo, hi) == tape[lo..MinInt(hi, |tape|)]
  {
  }

  lemma CursorMovesOn(tape: seq<Trade>, i: nat, count: nat)
    requires Ordered(tape) && i + count <= |tape|
    ensures CursorAt(tape[i..i + count], CursorBefore(tape, i)) == CursorBefore(tape, i + count)
  {
    if count > 0 { CursorAdvances(tape, i, count); }
  }
}
