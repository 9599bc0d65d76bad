/** The replay reader: it checks every page it is served, and accepts a generation exactly when it is the numbered tape. */
module TradeReader {
  import opened Results
  import opened Sorting
  import opened TradePages
  import opened TradeScan
  import opened TradeDrain

  const MAX_PAGE_ROWS: int := 50_000

  function ExpectedId(ds: Dataset, after: Option<Cursor>): int {
    if after.None? then ds.firstAggTradeId else after.value.aggTradeId + 1
  }

  /** Row `i` of a page carries the next id, moves the cursor, and lies in the dataset's window. */
  predicate RowOk(ds: Dataset, after: Option<Cursor>, rows: seq<Trade>, i: nat)
    requires i < |rows|
  {
    && rows[i].aggTradeId == ExpectedId(ds, after) + i
    && (i > 0 ==> KeyLess(KeyOf(rows[i - 1]), KeyOf(rows[i])))
    && (i == 0 && after.Some? ==> KeyLess(after.value, KeyOf(rows[0])))
    && ds.startTimeMs <= rows[i].tradeTimeMs <= ds.endTimeMs
  }

  /** What the reader demands of a page: it must end the tape exactly at the dataset's last id. */
  ghost predicate PageOk(ds: Dataset, after: Option<Cursor>, limit: nat, page: Page) {
    && page.dataEpoch == ds.dataEpoch && |page.rows| <= limit
    && (forall i | 0 <= i < |page.rows| :: RowOk(ds, after, page.rows, i))
    && page.nextCursor == CursorAt(page.rows, after)
    && (page.rows == [] ==> page.exhausted)
    && (page.exhausted <==> page.rows != [] && page.rows[|page.rows| - 1].aggTradeId == ds.LastAggTradeId())
  }

  /** The errors of a page check. */
  predicate PageFault(error: PageError) {
    match error
    case EpochChanged => true
    case PageOverBudget => true
    case IdGap => true
    case TapeOutOfOrder => true
    case TimeOutsideDataset => true
    case CursorInconsistent => true
    case NoProgress => true
    case EndedEarly => true
    case ContinuedPastEnd => true
    case _ => false
  }

  method CheckPage(ds: Dataset, after: Option<Cursor>, limit: nat, page: Page) returns (fault: Option<PageError>)
    ensures fault.None? <==> PageOk(ds, after, limit, page)
    ensures fault.Some? ==> PageFault(fault.value)
  {
    if page.dataEpoch != ds.dataEpoch {
      return Some(EpochChanged);
    }
    var rows := page.rows;
    if |rows| > limit {
      return Some(PageOverBudget);
    }
    var expectedId, previous := ExpectedId(ds, after), after;
    for i := 0 to |rows|
      invariant expectedId == ExpectedId(ds, after) + i && previous == CursorAt(rows[..i], after)
      invariant forall k | 0 <= k < i :: RowOk(ds, after, rows, k)
    {
      if rows[i].aggTradeId != expectedId {
        assert !RowOk(ds, after, rows, i);
        return Some(IdGap);
      }
      if previous.Some? && !KeyLess(previous.value, KeyOf(rows[i])) {
        assert !RowOk(ds, after, rows, i);
        return Some(TapeOutOfOrder);
      }
      if !(ds.startTimeMs <= rows[i].tradeTimeMs <= ds.endTimeMs) {
        assert !RowOk(ds, after, rows, i);
        return Some(TimeOutsideDataset);
      }
      previous := Some(KeyOf(rows[i]));
      expectedId := expectedId + 1;
    }
    if page.nextCursor != CursorAt(rows, after) {
      return Some(CursorInconsistent);
    }
    if rows == [] && !page.exhausted {
      return Some(NoProgress);
    }
    var lastId := if rows == [] then None else Some(rows[|rows| - 1].aggTradeId);
    if page.exhausted && lastId != Some(ds.LastAggTradeId()) {
      return Some(EndedEarly);
    }
    if !page.exhausted && lastId == Some(ds.LastAggTradeId()) {
      return Some(ContinuedPastEnd);
    }
    return None;
  }

  // ----- the numbered tape passes every check

  lemma NextPageIsOk(ds: Dataset, tape: seq<Trade>, i: nat, limit: nat)
    requires Numbered(ds, tape) && i < |tape| && limit > 0
    ensures PageOk(ds, CursorBefore(tape, i), limit, PageAt(tape, i, MinInt(limit, |tape| - i), ds.dataEpoch))
  {
    var after, count := CursorBefore(tape, i), MinInt(limit, |tape| - i);
    var rows := tape[i..i + count];
    CursorAdvances(tape, i, count);
    forall k | 0 <= k < count ensures RowOk(ds, after, rows, k) {
      NextRowIsOk(ds, tape, i, count, k);
    }
    hide RowOk;
  }

  lemma NextRowIsOk(ds: Dataset, tape: seq<Trade>, i: nat, count: nat, k: nat)
    requires Numbered(ds, tape) && k < count && i + count <= |tape|
    ensures RowOk(ds, CursorBefore(tape, i), tape[i..i + count], k)
  {
    var rows := tape[i..i + count];
    assert rows[k] == tape[i + k] && (k > 0 ==> rows[k - 1] == tape[i + k - 1]);
  }

  /** What is drained of a tape is its beginning. */
  lemma DrainedIsPrefix(files: seq<ScanFile>, ds: Dataset, rows: seq<Trade>, tape: seq<Trade>)
    requires Drained(files, ds, rows) && IsTape(files, ds, tape)
    ensures |rows| <= |tape| && rows == tape[..|rows|]
    ensures More(files, ds, rows) ==> |rows| < |tape|
  {
    hide Stored, Ordered, AllBefore, CursorAt, KeyAfter;
    forall t | t in tape && t !in rows ensures AllBefore(rows, KeyOf(t)) {
      BehindCursor(rows, t);
    }
    FirstRows(rows, tape);
    if More(files, ds, rows) {
      var t :| Available(files, ds, CursorAt(rows, None), t);
      NotDrainedYet(rows, t);
      assert t in tape;
    }
  }

  /** A page that fails a check shows that the stored rows are not the numbered tape. */
  lemma FaultShowsNoTape(files: seq<ScanFile>, ds: Dataset, rows: seq<Trade>, limit: nat, page: Page)
    requires ds.rowCount > 0 && limit > 0 && Drained(files, ds, rows) && (rows != [] ==> More(files, ds, rows))
    requires Serves(files, ds, CursorAt(rows, None), limit, page) && !PageOk(ds, CursorAt(rows, None), limit, page)
    ensures NoNumberedTape(files, ds)
  {
    hide Drained, More, Serves, PageOk, IsTape;
    forall tape | IsTape(files, ds, tape) ensures !Numbered(ds, tape) {
      if Numbered(ds, tape) {
        DrainedIsPrefix(files, ds, rows, tape);
        ServedPageIsNext(files, ds, tape, |rows|, limit, page);
        NextPageIsOk(ds, tape, |rows|, limit);
      }
    }
  }

  ghost predicate NoNumberedTape(files: seq<ScanFile>, ds: Dataset) {
    forall tape | IsTape(files, ds, tape) :: !Numbered(ds, tape)
  }

  /** Rows read so far carry the ids from the dataset's first on. */
  ghost predicate NumberedSoFar(ds: Dataset, rows: seq<Trade>) {
    forall i | 0 <= i < |rows| ::
      rows[i].aggTradeId == ds.firstAggTradeId + i && ds.startTimeMs <= rows[i].tradeTimeMs <= ds.endTimeMs
  }

  lemma OkPageNumbers(ds: Dataset, rows: seq<Trade>, limit: nat, page: Page)
    requires NumberedSoFar(ds, rows) && PageOk(ds, CursorAt(rows, None), limit, page)
    ensures NumberedSoFar(ds, rows + page.rows)
    ensures page.exhausted ==> |rows + page.rows| == ds.rowCount
  {
    var all := rows + page.rows;
    assert ExpectedId(ds, CursorAt(rows, None)) == ds.firstAggTradeId + |rows|;
    forall i | 0 <= i < |all|
      ensures all[i].aggTradeId == ds.firstAggTradeId + i && ds.startTimeMs <= all[i].tradeTimeMs <= ds.endTimeMs
    {
      if i >= |rows| { assert RowOk(ds, CursorAt(rows, None), page.rows, i - |rows|); }
    }
    if page.exhausted { assert all[|all| - 1].aggTradeId == ds.LastAggTradeId(); }
  }

  /** A page that is not the last one leaves ids of the dataset unread. */
  lemma StaysInsideDataset(files: seq<ScanFile>, ds: Dataset, rows: seq<Trade>, limit: nat, page: Page)
    requires NumberedSoFar(ds, rows) && PageOk(ds, CursorAt(rows, None), limit, page) && !page.exhausted
    requires Drained(files, ds, rows + page.rows)
    ensures 0 < |rows + page.rows| < ds.rowCount
  {
    hide Stored;
    OkPageNumbers(ds, rows, limit, page);
    var all := rows + page.rows;
    assert all[|all| - 1] in all && all[|all| - 1] == page.rows[|page.rows| - 1];
  }

  function RowsOfPages(pages: seq<Page>): seq<Trade> {
    if pages == [] then [] else RowsOfPages(pages[..|pages| - 1]) + pages[|pages| - 1].rows
  }

  lemma PagesSnoc(pages: seq<Page>, page: Page)
    ensures RowsOfPages(pages + [page]) == RowsOfPages(pages) + page.rows
  {
    assert (pages + [page])[..|pages|] == pages;
  }

  // ----- what accepted pages say, whoever served them

  /** Pages read one after the other, each accepted at the cursor the rows before it leave, and only the last one exhausted. */
  ghost predicate AcceptedPages(ds: Dataset, limit: nat, pages: seq<Page>) {
    pages != [] ==>
      var front, last := pages[..|pages| - 1], pages[|pages| - 1];
      && AcceptedPages(ds, limit, front) && (front != [] ==> !front[|front| - 1].exhausted)
      && PageOk(ds, CursorAt(RowsOfPages(front), None), limit, last)
  }

  lemma {:induction false} OkRowsOrdered(ds: Dataset, rows: seq<Trade>, limit: nat, page: Page, k: nat)
    requires Ordered(rows) && PageOk(ds, CursorAt(rows, None), limit, page) && k <= |page.rows|
    ensures Ordered(rows + page.rows[..k])
  {
    if k == 0 {
      assert rows + page.rows[..0] == rows;
    } else {
      OkRowsOrdered(ds, rows, limit, page, k - 1);
      assert RowOk(ds, CursorAt(rows, None), page.rows, k - 1);
      assert rows + page.rows[..k] == (rows + page.rows[..k - 1]) + [page.rows[k - 1]];
      LaterRowOrdered(rows + page.rows[..k - 1], page.rows[k - 1]);
    }
  }

  lemma LaterRowOrdered(rows: seq<Trade>, t: Trade)
    requires Ordered(rows) && (rows != [] ==> KeyLess(KeyOf(rows[|rows| - 1]), KeyOf(t)))
    ensures Ordered(rows + [t])
  {
  }

  lemma {:induction false} AcceptedSoFar(ds: Dataset, limit: nat, pages: seq<Page>)
    requires AcceptedPages(ds, limit, pages)
    ensures NumberedSoFar(ds, RowsOfPages(pages)) && Ordered(RowsOfPages(pages))
    ensures pages != [] && pages[|pages| - 1].exhausted ==> |RowsOfPages(pages)| == ds.rowCount
  {
    hide PageOk, NumberedSoFar, Ordered;
    if pages == [] {
      NoRowsNumbered(ds);
    } else {
      var front, last := pages[..|pages| - 1], pages[|pages| - 1];
      AcceptedSoFar(ds, limit, front);
      OkPageNumbers(ds, RowsOfPages(front), limit, last);
      OkRowsOrdered(ds, RowsOfPages(front), limit, last, |last.rows|);
      assert last.rows[..|last.rows|] == last.rows;
    }
  }

  lemma NoRowsNumbered(ds: Dataset)
    ensures NumberedSoFar(ds, []) && Ordered([])
  {
  }

  /** Accepted pages that end are together a tape with exactly the dataset's ids, in time order, inside its window. */
  lemma AcceptedPagesAreNumbered(ds: Dataset, limit: nat, pages: seq<Page>)
    requires AcceptedPages(ds, limit, pages) && pages != [] && pages[|pages| - 1].exhausted
    ensures Numbered(ds, RowsOfPages(pages))
  {
    AcceptedSoFar(ds, limit, pages);
  }

  class PagedReplayTradeReader {
    const archive: ParquetRawAggTradeArchive
    const dataset: Dataset
    const pageRows: int

    ghost predicate Valid() {
      ValidFiles(archive.files) && dataset.rowCount > 0 && 1 <= pageRows <= MAX_PAGE_ROWS
    }

    constructor (archive: ParquetRawAggTradeArchive, dataset: Dataset, pageRows: int)
      requires ValidFiles(archive.files) && dataset.rowCount > 0 && 1 <= pageRows <= MAX_PAGE_ROWS
      ensures Valid() && this.archive == archive && this.dataset == dataset && this.pageRows == pageRows
    {
      this.archive, this.dataset, this.pageRows := archive, dataset, pageRows;
    }

    /** One checked page; a cursor at the last id gives the empty last page without touching the archive. */
    method ReadPage(after: Option<Cursor>, limit: Option<int>) returns (r: Result<Page, PageError>)
      requires Valid()
      ensures var pageLimit := limit.GetOr(pageRows);
              && (r == Failure(PageLimitInvalid) <==> !(1 <= pageLimit <= pageRows))
              && (r == Failure(CursorOutsideDataset) <==>
                    && 1 <= pageLimit <= pageRows && after.Some?
                    && !(dataset.firstAggTradeId - 1 <= after.value.aggTradeId <= dataset.LastAggTradeId()))
              && (r.Success? && AtEnd(after) ==> r.value == Page([], after, true, dataset.dataEpoch))
              && (r.Success? && !AtEnd(after) ==>
                    && Serves(archive.files, dataset, after, pageLimit, r.value) && PageOk(dataset, after, pageLimit, r.value))
              && (r.Failure? && r.error != PageLimitInvalid && r.error != CursorOutsideDataset ==>
                    || archive.ScanFault(r.error)
                    || (&& PageFault(r.error)
                        && exists page :: Serves(archive.files, dataset, after, pageLimit, page) && !PageOk(dataset, after, pageLimit, page)))
    {
      hide ValidFiles, Serves, PageOk, Clashes;
      var pageLimit := limit.GetOr(pageRows);
      if pageLimit < 1 || pageLimit > pageRows {
        return Failure(PageLimitInvalid);
      }
      if after.Some? {
        if after.value.aggTradeId < dataset.firstAggTradeId - 1 || after.value.aggTradeId > dataset.LastAggTradeId() {
          return Failure(CursorOutsideDataset);
        }
        if after.value.aggTradeId == dataset.LastAggTradeId() {
          return Success(Page([], after, true, dataset.dataEpoch));
        }
      }
      r := archive.ScanPage(dataset, after, pageLimit);
      if r.Success? {
        var fault := CheckPage(dataset, after, pageLimit, r.value);
        if fault.Some? {
          r := Failure(fault.value);
        }
      }
    }

    predicate AtEnd(after: Option<Cursor>) { after.Some? && after.value.aggTradeId == dataset.LastAggTradeId() }

    /** One turn of the page loop: a checked page, and the check that a page that is not the last one moves the cursor. */
    method ReadNext(cursor: Option<Cursor>, ghost rows: seq<Trade>) returns (r: Result<Page, PageError>)
      requires Valid() && Progress(rows) && cursor == CursorAt(rows, None)
      ensures r.Success? ==>
                && Advances(archive.files, dataset, rows, pageRows, r.value) && PageOk(dataset, cursor, pageRows, r.value)
      ensures r.Failure? ==>
                || archive.ScanFault(r.error)
                || (PageFault(r.error) && NoNumberedTape(archive.files, dataset))
    {
      hide ValidFiles, Drained, More, Serves, Advances, PageOk, Clashes, NoNumberedTape, NumberedSoFar;
      CursorInside(dataset, rows);
      r := ReadPage(cursor, None);
      if r.Success? {
        var page := r.value;
        ServedPageAdvances(archive.files, dataset, rows, pageRows, page);
        CursorMoves(archive.files, dataset, rows, pageRows, page);
        var stuck := !page.exhausted && (page.nextCursor.None? || page.nextCursor == cursor);
        r := if stuck then Failure(CursorStuck) else Success(page);
      } else if PageFault(r.error) {
        ghost var page :| Serves(archive.files, dataset, cursor, pageRows, page) && !PageOk(dataset, cursor, pageRows, page);
        FaultShowsNoTape(archive.files, dataset, rows, pageRows, page);
      }
    }

    /** Between two pages: numbered rows, and more of them to come. */
    ghost predicate Progress(rows: seq<Trade>) {
      && Drained(archive.files, dataset, rows) && NumberedSoFar(dataset, rows) && |rows| < dataset.rowCount
      && (rows != [] ==> More(archive.files, dataset, rows))
    }

    /**
     * All pages. They hold the stored rows of the dataset, each once, in order, in the fewest pages the page size
     * allows, and it succeeds only if those rows carry exactly the dataset's ids. Beside the archive's own limits it
     * fails only where that is not so.
     */
    method IterPages() returns (r: Result<seq<Page>, PageError>, ghost rows: seq<Trade>)
      requires Valid()
      ensures r.Success? ==>
                && IsTape(archive.files, dataset, rows) && Numbered(dataset, rows) && RowsOfPages(r.value) == rows
                && |r.value| == PageCount(dataset.rowCount, pageRows) && forall page | page in r.value :: |page.rows| <= pageRows
      ensures r.Failure? ==>
                || archive.ScanFault(r.error)
                || (PageFault(r.error) && NoNumberedTape(archive.files, dataset))
    {
      hide ValidFiles, Drained, More, Serves, Advances, PageOk, Clashes, NoNumberedTape, NumberedSoFar, RowsOfPages, Numbered;
      rows := [];
      var pages: seq<Page> := [];
      var cursor: Option<Cursor> := None;
      NothingRead(archive.files, dataset);
      while true
        invariant Progress(rows) && cursor == CursorAt(rows, None) && RowsOfPages(pages) == rows
        invariant |rows| == |pages| * pageRows && forall page | page in pages :: |page.rows| <= pageRows
        decreases dataset.rowCount - |rows|
      {
        var answer := ReadNext(cursor, rows);
        if answer.Failure? {
          return Failure(answer.error), rows;
        }
        var page := answer.value;
        PagesSnoc(pages, page);
        AdvanceFacts(archive.files, dataset, rows, pageRows, page);
        OkPageNumbers(dataset, rows, pageRows, page);
        if page.exhausted {
          PagesCounted(|rows + page.rows|, pageRows, |pages|);
          NumberedTape(archive.files, dataset, rows + page.rows);
          rows := rows + page.rows;
          return Success(pages + [page]), rows;
        }
        StaysInsideDataset(archive.files, dataset, rows, pageRows, page);
        rows, pages := rows + page.rows, pages + [page];
        cursor := page.nextCursor;
      }
    }
  }

  lemma CursorInside(ds: Dataset, rows: seq<Trade>)
    requires NumberedSoFar(ds, rows) && |rows| < ds.rowCount
    ensures var cursor := CursorAt(rows, None);
            cursor.Some? ==> ds.firstAggTradeId <= cursor.value.aggTradeId < ds.LastAggTradeId()
  {
  }

  lemma NothingRead(files: seq<ScanFile>, ds: Dataset)
    ensures Drained(files, ds, []) && NumberedSoFar(ds, []) && RowsOfPages([]) == []
  {
  }

  lemma NumberedTape(files: seq<ScanFile>, ds: Dataset, tape: seq<Trade>)
    requires IsTape(files, ds, tape) && NumberedSoFar(ds, tape) && |tape| == ds.rowCount
    ensures Numbered(ds, tape)
  {
  }

  // ----- the benchmark's generated archive behind the same reader

  /** One generated page, which passes the reader's checks. */
  method ReadGenerated(archive: GeneratedPagedArchive, pageRows: int, cursor: Option<Cursor>, ghost tape: seq<Trade>, ghost i: nat)
    returns (page: Page, fault: Option<PageError>)
    requires tape == Tape(archive.row, archive.dataset.rowCount) && Numbered(archive.dataset, tape)
    requires i < |tape| && cursor == CursorBefore(tape, i) && pageRows > 0
    modifies archive`pageCalls, archive`maxPageRowsSeen
    ensures page == PageAt(tape, i, MinInt(pageRows, |tape| - i), archive.dataset.dataEpoch) && fault.None?
    ensures archive.pageCalls == old(archive.pageCalls) + 1
    ensures archive.maxPageRowsSeen == MaxInt(old(archive.maxPageRowsSeen), |page.rows|)
  {
    hide Tape, Numbered, PageOk, CursorBefore, GeneratedPage, PageAt;
    BothArchivesServeTape(archive.dataset, archive.row, i, pageRows);
    NextPageIsOk(archive.dataset, tape, i, pageRows);
    var answer := archive.ScanPage(cursor, pageRows, archive.dataset);
    page := answer.value;
    fault := CheckPage(archive.dataset, cursor, pageRows, page);
  }

  /** The reader's loop over generated rows: all of them, in order, in the fewest pages, never over the page size. */
  method IterGeneratedPages(archive: GeneratedPagedArchive, pageRows: int) returns (pages: seq<Page>)
    requires 1 <= pageRows <= MAX_PAGE_ROWS && archive.dataset.rowCount > 0
    requires Numbered(archive.dataset, Tape(archive.row, archive.dataset.rowCount))
    modifies archive`pageCalls, archive`maxPageRowsSeen
    ensures RowsOfPages(pages) == Tape(archive.row, archive.dataset.rowCount)
    ensures |pages| == PageCount(archive.dataset.rowCount, pageRows)
    ensures archive.pageCalls == old(archive.pageCalls) + |pages|
    ensures archive.maxPageRowsSeen <= MaxInt(old(archive.maxPageRowsSeen), pageRows)
  {
    hide Tape, Numbered, PageOk, RowsOfPages, PageCount, CursorBefore, PageAt;
    ghost var tape := Tape(archive.row, archive.dataset.rowCount);
    ghost var n := |tape|;
    NoPages();
    var cursor: Option<Cursor> := None;
    pages := [];
    ghost var i: nat := 0;
    while true
      invariant i < n && cursor == CursorBefore(tape, i) && i == |pages| * pageRows && RowsOfPages(pages) == tape[..i]
      invariant archive.pageCalls == old(archive.pageCalls) + |pages|
      invariant archive.maxPageRowsSeen <= MaxInt(old(archive.maxPageRowsSeen), pageRows)
      decreases n - i
    {
      var page, fault := ReadGenerated(archive, pageRows, cursor, tape, i);
      ghost var count := MinInt(pageRows, n - i);
      TapePageRead(tape, i, pageRows, pages, page, archive.dataset.dataEpoch);
      pages := pages + [page];
      if page.exhausted {
        assert tape[..n] == tape;
        return;
      }
      cursor := page.nextCursor;
      i := i + count;
    }
  }

  /** One more page of the tape: either the whole tape is read, in the fewest pages, or the page was full. */
  lemma TapePageRead(tape: seq<Trade>, i: nat, pageRows: int, pages: seq<Page>, page: Page, epoch: Digest)
    requires pageRows > 0 && i < |tape| && i == |pages| * pageRows && RowsOfPages(pages) == tape[..i]
    requires page == PageAt(tape, i, MinInt(pageRows, |tape| - i), epoch)
    ensures RowsOfPages(pages + [page]) == tape[..i + MinInt(pageRows, |tape| - i)] && |page.rows| <= pageRows
    ensures if page.exhausted then i + MinInt(pageRows, |tape| - i) == |tape| && |pages + [page]| == PageCount(|tape|, pageRows)
            else i + pageRows < |tape| && i + pageRows == |pages + [page]| * pageRows && page.nextCursor == CursorBefore(tape, i + pageRows)
  {
    hide RowsOfPages, PageCount, CursorBefore;
    PagesSnoc(pages, page);
    var count := MinInt(pageRows, |tape| - i);
    assert tape[..i] + tape[i..i + count] == tape[..i + count];
    if page.exhausted { PagesCounted(|tape|, pageRows, |pages|); }
  }

  lemma NoPages()
    ensures RowsOfPages([]) == [] && forall tape: seq<Trade> | tape != [] :: CursorBefore(tape, 0) == None
  {
  }
}
