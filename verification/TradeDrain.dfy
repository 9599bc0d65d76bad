/** Draining a stored generation page by page, and freezing a window of it into an exact dataset. */
module TradeDrain {
  import opened Results
  import opened Sorting
  import opened TradePages
  import opened TradeScan

  // ----- one step of a drain

  /** What has been read so far is everything stored up to the last row read. */
  ghost predicate Drained(files: seq<ScanFile>, ds: Dataset, drained: seq<Trade>) {
    && Ordered(drained)
    && forall t :: t in drained <==> Stored(files, t) && InBounds(ds, t) && !KeyAfter(CursorAt(drained, None))(t)
  }

  ghost predicate More(files: seq<ScanFile>, ds: Dataset, drained: seq<Trade>) {
    exists t :: Available(files, ds, CursorAt(drained, None), t)
  }

  /** What a page adds: it moves the cursor, and it either leaves more to read or ends the tape. */
  ghost predicate Advances(files: seq<ScanFile>, ds: Dataset, drained: seq<Trade>, limit: nat, page: Page) {
    && Drained(files, ds, drained + page.rows) && page.nextCursor == CursorAt(drained + page.rows, None)
    && (page.exhausted ==>
          && |page.rows| <= limit && IsTape(files, ds, drained + page.rows)
          && (More(files, ds, drained) ==> page.rows != []))
    && (!page.exhausted ==> |page.rows| == limit && More(files, ds, drained + page.rows))
  }

  lemma ServedRowsAdvance(files: seq<ScanFile>, ds: Dataset, drained: seq<Trade>, limit: nat, page: Page)
    requires Drained(files, ds, drained) && Serves(files, ds, CursorAt(drained, None), limit, page)
    ensures Drained(files, ds, drained + page.rows) && page.nextCursor == CursorAt(drained + page.rows, None)
  {
    hide Stored, InBounds;
    var after, all := CursorAt(drained, None), drained + page.rows;
    forall t | t in page.rows ensures AllBefore(drained, KeyOf(t)) {
      BehindCursor(drained, t);
    }
    OrderedConcat(drained, page.rows);
    forall t ensures t in all <==> Stored(files, t) && InBounds(ds, t) && !KeyAfter(CursorAt(all, None))(t) {
      if t in all { UpToLast(all, t); }
      if Stored(files, t) && InBounds(ds, t) && t !in all { LeftOutIsAhead(files, ds, drained, limit, page, t); }
    }
  }

  lemma BehindCursor(drained: seq<Trade>, t: Trade)
    requires Ordered(drained) && KeyAfter(CursorAt(drained, None))(t)
    ensures AllBefore(drained, KeyOf(t))
  {
    forall r | r in drained ensures KeyLess(KeyOf(r), KeyOf(t)) {
      UpToLast(drained, r);
    }
  }

  lemma UpToLast(rows: seq<Trade>, t: Trade)
    requires Ordered(rows) && t in rows
    ensures !KeyAfter(CursorAt(rows, None))(t)
  {
    var i :| 0 <= i < |rows| && rows[i] == t;
    if i < |rows| - 1 { assert KeyLess(KeyOf(rows[i]), KeyOf(rows[|rows| - 1])); }
  }

  lemma LeftOutIsAhead(files: seq<ScanFile>, ds: Dataset, drained: seq<Trade>, limit: nat, page: Page, t: Trade)
    requires Drained(files, ds, drained) && Serves(files, ds, CursorAt(drained, None), limit, page)
    requires Stored(files, t) && InBounds(ds, t) && t !in drained + page.rows
    ensures KeyAfter(CursorAt(drained + page.rows, None))(t)
  {
    hide Stored, InBounds;
    assert Available(files, ds, CursorAt(drained, None), t) && AllBefore(page.rows, KeyOf(t));
    if page.rows == [] {
      assert drained + page.rows == drained;
    } else {
      assert page.rows[|page.rows| - 1] in page.rows;
    }
  }

  lemma ServedPageAdvances(files: seq<ScanFile>, ds: Dataset, drained: seq<Trade>, limit: nat, page: Page)
    requires Drained(files, ds, drained) && Serves(files, ds, CursorAt(drained, None), limit, page)
    ensures Advances(files, ds, drained, limit, page)
  {
    hide Stored, CursorAt, Ordered, KeyAfter, AllBefore;
    var after, all := CursorAt(drained, None), drained + page.rows;
    ServedRowsAdvance(files, ds, drained, limit, page);
    if page.exhausted {
      forall t ensures t in all <==> Stored(files, t) && InBounds(ds, t) {
        if Stored(files, t) && InBounds(ds, t) && t !in drained { assert Available(files, ds, after, t); }
      }
    } else {
      var t :| Available(files, ds, after, t) && t !in page.rows;
      NotDrainedYet(drained, t);
      LeftOutIsAhead(files, ds, drained, limit, page, t);
      assert Available(files, ds, CursorAt(all, None), t);
    }
  }

  lemma NotDrainedYet(drained: seq<Trade>, t: Trade)
    requires Ordered(drained) && KeyAfter(CursorAt(drained, None))(t)
    ensures t !in drained
  {
    if t in drained { UpToLast(drained, t); }
  }

  lemma NothingDrained(files: seq<ScanFile>, ds: Dataset)
    ensures Drained(files, ds, [])
  {
  }

  ghost function StoredRows(files: seq<ScanFile>): set<Trade> {
    set f, batch, t | f in files && batch in f.batches && t in batch :: t
  }

  /** No drain reads more rows than are stored. */
  lemma DrainedFits(files: seq<ScanFile>, ds: Dataset, drained: seq<Trade>)
    requires Drained(files, ds, drained)
    ensures |drained| <= |StoredRows(files)|
  {
    OrderedFits(drained, StoredRows(files));
  }

  lemma {:induction false} OrderedFits(rows: seq<Trade>, stored: set<Trade>)
    requires Ordered(rows) && forall t | t in rows :: t in stored
    ensures |rows| <= |stored|
  {
    if rows != [] {
      var front, last := rows[..|rows| - 1], rows[|rows| - 1];
      assert last in stored;
      forall t | t in front ensures t in stored - {last} {
        FrontMembers(rows, t);
      }
      OrderedFits(front, stored - {last});
    }
  }

  lemma CursorMoves(files: seq<ScanFile>, ds: Dataset, drained: seq<Trade>, limit: nat, page: Page)
    requires Drained(files, ds, drained) && limit > 0 && Serves(files, ds, CursorAt(drained, None), limit, page)
    ensures !page.exhausted ==> page.nextCursor.Some? && page.nextCursor != CursorAt(drained, None)
  {
    if !page.exhausted {
      var last := page.rows[|page.rows| - 1];
      assert last in page.rows && Available(files, ds, CursorAt(drained, None), last);
    }
  }

  /** One turn of every drain: the next page, and the check that a page that is not the last one moves the cursor. */
  method NextPage(archive: ParquetRawAggTradeArchive, ds: Dataset, cursor: Option<Cursor>, limit: int, ghost drained: seq<Trade>)
    returns (r: Result<Page, PageError>)
    requires ValidFiles(archive.files) && Drained(archive.files, ds, drained) && cursor == CursorAt(drained, None)
    ensures r.Success? ==> Advances(archive.files, ds, drained, EffectiveLimit(limit), r.value)
    ensures r.Failure? ==> archive.ScanFault(r.error)
  {
    hide ValidFiles, Drained, Serves, Advances, Clashes, CursorAt;
    r := archive.ScanPage(ds, cursor, limit);
    if r.Success? {
      var page := r.value;
      ServedPageAdvances(archive.files, ds, drained, EffectiveLimit(limit), page);
      CursorMoves(archive.files, ds, drained, EffectiveLimit(limit), page);
      var stuck := !page.exhausted && (page.nextCursor.None? || page.nextCursor == cursor);
      r := if stuck then Failure(CursorStuck) else Success(page);
    }
  }

  // ----- freezing a window

  predicate InWindow(startMs: int, endMs: int, t: Trade) { startMs <= t.tradeTimeMs <= endMs }

  /** Everything stored in a window of time, in order. */
  ghost predicate WindowTape(files: seq<ScanFile>, startMs: int, endMs: int, tape: seq<Trade>) {
    Ordered(tape) && forall t :: t in tape <==> Stored(files, t) && InWindow(startMs, endMs, t)
  }

  /** Two neighbours in the window whose ids do not follow each other. */
  ghost predicate IdBreak(files: seq<ScanFile>, startMs: int, endMs: int, x: Trade, y: Trade) {
    && Stored(files, x) && Stored(files, y) && InWindow(startMs, endMs, x) && InWindow(startMs, endMs, y)
    && KeyLess(KeyOf(x), KeyOf(y)) && y.aggTradeId != x.aggTradeId + 1
    && forall t | Stored(files, t) && InWindow(startMs, endMs, t) ::
         !KeyLess(KeyOf(x), KeyOf(t)) || !KeyLess(KeyOf(t), KeyOf(y))
  }

  function MinId(files: seq<ScanFile>): int
    requires files != []
  {
    if |files| == 1 then files[0].minId else MinInt(MinId(files[..|files| - 1]), files[|files| - 1].minId)
  }

  function MaxId(files: seq<ScanFile>): int
    requires files != []
  {
    if |files| == 1 then files[0].maxKey.aggTradeId else MaxInt(MaxId(files[..|files| - 1]), files[|files| - 1].maxKey.aggTradeId)
  }

  lemma {:induction false} IdsCoverFiles(files: seq<ScanFile>)
    requires files != []
    ensures forall f | f in files :: MinId(files) <= f.minId && f.maxKey.aggTradeId <= MaxId(files)
  {
    if |files| > 1 {
      IdsCoverFiles(files[..|files| - 1]);
      assert files == files[..|files| - 1] + [files[|files| - 1]];
    }
  }

  /** The provisional bounds hold every stored row of the window. */
  lemma ProvisionalHoldsWindow(files: seq<ScanFile>, ds: Dataset)
    requires ValidFiles(files) && files != []
    requires ds.firstAggTradeId == MinId(files) && ds.LastAggTradeId() == MaxId(files)
    ensures forall t | Stored(files, t) :: InBounds(ds, t) <==> InWindow(ds.startTimeMs, ds.endTimeMs, t)
  {
    hide RowsOf, MinId, MaxId;
    IdsCoverFiles(files);
    forall t | Stored(files, t) ensures MinId(files) <= t.aggTradeId <= MaxId(files) {
      var f := FileOfRow(files, t);
      assert ValidFile(f);
    }
  }

  lemma IdsSpan(files: seq<ScanFile>)
    requires ValidFiles(files) && files != []
    ensures MinId(files) <= MaxId(files)
  {
    hide MinId, MaxId;
    IdsCoverFiles(files);
    assert files[0] in files && ValidFile(files[0]);
  }

  /** What the freezing loop remembers of the rows it has checked. */
  datatype FreezeState = FreezeState(firstId: Option<int>, lastId: Option<int>, previousOrder: Option<Cursor>, rowCount: int)

  function StateOf(rows: seq<Trade>): FreezeState {
    if rows == [] then FreezeState(None, None, None, 0)
    else FreezeState(Some(rows[0].aggTradeId), Some(rows[|rows| - 1].aggTradeId), Some(KeyOf(rows[|rows| - 1])), |rows|)
  }

  function RowFault(state: FreezeState, row: Trade): Option<PageError> {
    if state.previousOrder.Some? && !KeyLess(state.previousOrder.value, KeyOf(row)) then Some(TapeOutOfOrder)
    else if state.lastId.Some? && row.aggTradeId != state.lastId.value + 1 then Some(IdGap)
    else None
  }

  function Checked(state: FreezeState, row: Trade): FreezeState {
    FreezeState(if state.firstId.None? then Some(row.aggTradeId) else state.firstId, Some(row.aggTradeId), Some(KeyOf(row)),
                state.rowCount + 1)
  }

  lemma StateSnoc(all: seq<Trade>, k: nat)
    requires k < |all|
    ensures StateOf(all[..k + 1]) == Checked(StateOf(all[..k]), all[k])
  {
  }

  ghost predicate Consecutive(rows: seq<Trade>) {
    forall i | 0 <= i < |rows| :: rows[i].aggTradeId == rows[0].aggTradeId + i
  }

  lemma ConsecutiveSnoc(all: seq<Trade>, k: nat)
    requires Ordered(all) && k < |all| && Consecutive(all[..k])
    ensures RowFault(StateOf(all[..k]), all[k]).None? ==> Consecutive(all[..k + 1])
    ensures RowFault(StateOf(all[..k]), all[k]).Some? ==>
              RowFault(StateOf(all[..k]), all[k]) == Some(IdGap) && k > 0 && all[k].aggTradeId != all[k - 1].aggTradeId + 1
  {
  }

  lemma BreakIsSeen(files: seq<ScanFile>, ds: Dataset, all: seq<Trade>, k: nat)
    requires Drained(files, ds, all) && 0 < k < |all| && all[k].aggTradeId != all[k - 1].aggTradeId + 1
    requires forall t | Stored(files, t) :: InBounds(ds, t) <==> InWindow(ds.startTimeMs, ds.endTimeMs, t)
    ensures IdBreak(files, ds.startTimeMs, ds.endTimeMs, all[k - 1], all[k])
  {
    hide Stored, InBounds, InWindow;
    assert all[k - 1] in all && all[k] in all;
    forall t | Stored(files, t) && InWindow(ds.startTimeMs, ds.endTimeMs, t)
      ensures !KeyLess(KeyOf(all[k - 1]), KeyOf(t)) || !KeyLess(KeyOf(t), KeyOf(all[k]))
    {
      if t in all { NothingBetween(all, k, t); } else { UpToLast(all, all[k]); }
    }
  }

  lemma NothingBetween(all: seq<Trade>, k: nat, t: Trade)
    requires Ordered(all) && 0 < k < |all| && t in all
    ensures !KeyLess(KeyOf(all[k - 1]), KeyOf(t)) || !KeyLess(KeyOf(t), KeyOf(all[k]))
  {
    var i :| 0 <= i < |all| && all[i] == t;
    assert i < k - 1 ==> KeyLess(KeyOf(all[i]), KeyOf(all[k - 1]));
    assert i > k ==> KeyLess(KeyOf(all[k]), KeyOf(all[i]));
  }

  lemma DrainedIsOrdered(files: seq<ScanFile>, ds: Dataset, drained: seq<Trade>)
    requires Drained(files, ds, drained)
    ensures Ordered(drained)
  {
  }

  /** Checks one page of rows; the first row that breaks the numbering ends the freeze. */
  method CheckRows(ghost files: seq<ScanFile>, ghost ds: Dataset, ghost drained: seq<Trade>, rows: seq<Trade>, state: FreezeState)
    returns (r: Result<FreezeState, PageError>)
    requires Drained(files, ds, drained + rows) && Consecutive(drained) && state == StateOf(drained)
    requires forall t | Stored(files, t) :: InBounds(ds, t) <==> InWindow(ds.startTimeMs, ds.endTimeMs, t)
    ensures r.Success? ==> r.value == StateOf(drained + rows) && Consecutive(drained + rows)
    ensures r.Failure? ==> r.error == IdGap && exists x, y :: IdBreak(files, ds.startTimeMs, ds.endTimeMs, x, y)
  {
    hide Stored, InBounds, InWindow, Consecutive, IdBreak, Drained, StateOf, RowFault, Checked;
    DrainedIsOrdered(files, ds, drained + rows);
    var now := state;
    ghost var all := drained + rows;
    assert all[..|drained|] == drained && all[..|all|] == all;
    for i := 0 to |rows|
      invariant now == StateOf(all[..|drained| + i]) && Consecutive(all[..|drained| + i])
    {
      ghost var k := |drained| + i;
      ConsecutiveSnoc(all, k);
      var fault := RowFault(now, rows[i]);
      if fault.Some? {
        BreakIsSeen(files, ds, all, k);
        return Failure(fault.value);
      }
      StateSnoc(all, k);
      now := Checked(now, rows[i]);
    }
    return Success(now);
  }

  /** Narrowing the id bounds to those of the tape keeps the tape. */
  lemma FrozenHoldsTape(files: seq<ScanFile>, provisional: Dataset, ds: Dataset, tape: seq<Trade>)
    requires IsTape(files, provisional, tape) && Consecutive(tape) && tape != []
    requires forall t | Stored(files, t) :: InBounds(provisional, t) <==> InWindow(provisional.startTimeMs, provisional.endTimeMs, t)
    requires ds.startTimeMs == provisional.startTimeMs && ds.endTimeMs == provisional.endTimeMs
    requires ds.firstAggTradeId == tape[0].aggTradeId && ds.rowCount == |tape|
    ensures IsTape(files, ds, tape) && Numbered(ds, tape) && WindowTape(files, ds.startTimeMs, ds.endTimeMs, tape)
  {
    hide Stored;
    assert tape[0] in tape && tape[|tape| - 1] in tape;
    forall i | 0 <= i < |tape| ensures InBounds(provisional, tape[i]) && Stored(files, tape[i]) {
      assert tape[i] in tape;
    }
    forall t | t in tape ensures InBounds(ds, t) {
      var i :| 0 <= i < |tape| && tape[i] == t;
    }
  }

  /**
   * Freezing a window: reads it once, page by page, and accepts exactly what is not empty and numbered without
   * a break. A success is everything stored in the window, each row once, in order, with consecutive ids.
   */
  method FreezeDataset(archive: ParquetRawAggTradeArchive, epochOf: (int, int) -> Digest, startMs: int, endMs: int, pageRows: int)
    returns (r: Result<Dataset, PageError>, ghost tape: seq<Trade>)
    requires ValidFiles(archive.files)
    ensures r.Success? ==> r.value.startTimeMs == startMs && r.value.endTimeMs == endMs && r.value.rowCount > 0
    ensures r.Success? ==>
              && IsTape(archive.files, r.value, tape) && Numbered(r.value, tape) && tape != []
              && WindowTape(archive.files, startMs, endMs, tape)
    ensures r == Failure(BoundsInvalid) <==> startMs < 0 || endMs < 0 || startMs > endMs
    ensures r.Failure? ==> FreezeFault(archive, startMs, endMs, r.error)
  {
    hide Stored, ValidFiles, Drained, More, Advances, Clashes, PhysicalRows, Consecutive, IdBreak, IsTape, WindowTape, Numbered, MinId, MaxId, InBounds, InWindow;
    tape := [];
    if startMs < 0 || endMs < 0 || startMs > endMs {
      return Failure(BoundsInvalid), tape;
    }
    if archive.files == [] {
      return Failure(NoObjects), tape;
    }
    var first, last := MinId(archive.files), MaxId(archive.files);
    IdsSpan(archive.files);
    var provisional := Dataset(epochOf(first, last), first, last - first + 1, startMs, endMs);
    ProvisionalHoldsWindow(archive.files, provisional);
    NothingDrained(archive.files, provisional);
    NothingConsecutive();
    var cursor: Option<Cursor> := None;
    var state := StateOf([]);
    while true
      invariant Drained(archive.files, provisional, tape) && Consecutive(tape)
      invariant cursor == CursorAt(tape, None) && state == StateOf(tape)
      decreases |StoredRows(archive.files)| - |tape|
    {
      var answer := NextPage(archive, provisional, cursor, pageRows, tape);
      if answer.Failure? {
        return Failure(answer.error), tape;
      }
      var page := answer.value;
      AdvanceFacts(archive.files, provisional, tape, EffectiveLimit(pageRows), page);
      var checked := CheckRows(archive.files, provisional, tape, page.rows, state);
      if checked.Failure? {
        return Failure(checked.error), tape;
      }
      tape, state := tape + page.rows, checked.value;
      if page.exhausted {
        break;
      }
      cursor := page.nextCursor;
    }
    if state.firstId.None? || state.lastId.None? || state.rowCount != state.lastId.value - state.firstId.value + 1 {
      EmptyOrBroken(tape);
      EmptyTape(archive.files, provisional, tape);
      return Failure(RangeEmpty), tape;
    }
    var dataset := Dataset(epochOf(state.firstId.value, state.lastId.value), state.firstId.value, state.rowCount, startMs, endMs);
    FrozenHoldsTape(archive.files, provisional, dataset, tape);
    return Success(dataset), tape;
  }

  /** Why a freeze can fail. */
  ghost predicate FreezeFault(archive: ParquetRawAggTradeArchive, startMs: int, endMs: int, error: PageError) {
    var files := archive.files;
    match error
    case BoundsInvalid => startMs < 0 || endMs < 0 || startMs > endMs
    case NoObjects => files == []
    case ScanLimitExceeded => archive.ScanFault(error)
    case ConflictingDuplicate => archive.ScanFault(error)
    case IdGap => exists x, y :: IdBreak(files, startMs, endMs, x, y)
    case RangeEmpty => WindowTape(files, startMs, endMs, [])
    case _ => false
  }

  lemma NothingConsecutive()
    ensures Consecutive([])
  {
  }

  /** What a page does to a drain, read off its definition. */
  lemma AdvanceFacts(files: seq<ScanFile>, ds: Dataset, drained: seq<Trade>, limit: nat, page: Page)
    requires Drained(files, ds, drained) && Advances(files, ds, drained, limit, page) && limit > 0
    ensures Drained(files, ds, drained + page.rows) && page.nextCursor == CursorAt(drained + page.rows, None)
    ensures page.exhausted ==> |page.rows| <= limit && IsTape(files, ds, drained + page.rows)
    ensures page.exhausted && More(files, ds, drained) ==> page.rows != []
    ensures !page.exhausted ==> |page.rows| == limit && More(files, ds, drained + page.rows)
    ensures |drained| + |page.rows| <= |StoredRows(files)|
  {
    hide Drained, StoredRows, More;
    DrainedFits(files, ds, drained + page.rows);
  }

  lemma EmptyOrBroken(tape: seq<Trade>)
    requires Consecutive(tape)
    ensures tape != [] ==> StateOf(tape).rowCount == StateOf(tape).lastId.value - StateOf(tape).firstId.value + 1
  {
  }

  lemma EmptyTape(files: seq<ScanFile>, ds: Dataset, tape: seq<Trade>)
    requires IsTape(files, ds, tape)
    requires forall t | Stored(files, t) :: InBounds(ds, t) <==> InWindow(ds.startTimeMs, ds.endTimeMs, t)
    ensures WindowTape(files, ds.startTimeMs, ds.endTimeMs, tape)
  {
  }
}
