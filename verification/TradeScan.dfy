/**
 * Reading one page out of many stored files: a scan that deduplicates, stops files early and skips later
 * files once enough rows are known, and still returns the next rows of everything stored.
 */
module TradeScan {
  import opened Results
  import opened Sorting
  import opened Grids
  import opened TradePages

  const MAX_PAGE_LIMIT: int := 1_000_000

  /** One stored file: its first order key, its least id, its greatest time and id, and its rows in batches. */
  datatype ScanFile = ScanFile(firstKey: Cursor, minId: int, maxKey: Cursor, batches: seq<seq<Trade>>)

  function EffectiveLimit(limit: int): int { MaxInt(1, MinInt(limit, MAX_PAGE_LIMIT)) }

  function ByKey(a: Trade, b: Trade): bool { !KeyLess(KeyOf(b), KeyOf(a)) }

  function KeyAfter(after: Option<Cursor>): Trade -> bool {
    (t: Trade) => after.None? || KeyLess(after.value, KeyOf(t))
  }

  function KeyBelow(key: Cursor): Trade -> bool {
    (t: Trade) => KeyLess(KeyOf(t), key)
  }

  predicate InBounds(ds: Dataset, t: Trade) {
    ds.startTimeMs <= t.tradeTimeMs <= ds.endTimeMs && ds.firstAggTradeId <= t.aggTradeId <= ds.LastAggTradeId()
  }

  predicate Wanted(ds: Dataset, after: Option<Cursor>, t: Trade) {
    KeyAfter(after)(t) && InBounds(ds, t)
  }

  function RowsOf(batches: seq<seq<Trade>>): seq<Trade> {
    if batches == [] then [] else RowsOf(batches[..|batches| - 1]) + batches[|batches| - 1]
  }

  /** Rows in key order, none before the first key, none outside the stated ids, none after the greatest time. */
  ghost predicate ValidFile(f: ScanFile) {
    && SortedBy(ByKey, RowsOf(f.batches)) && f.minId <= f.maxKey.aggTradeId
    && forall t | t in RowsOf(f.batches) ::
         !KeyLess(KeyOf(t), f.firstKey) && t.tradeTimeMs <= f.maxKey.tradeTimeMs && f.minId <= t.aggTradeId <= f.maxKey.aggTradeId
  }

  /** Valid files, listed by first key. */
  ghost predicate ValidFiles(files: seq<ScanFile>) {
    && (forall f | f in files :: ValidFile(f))
    && forall i, j | 0 <= i < j < |files| :: !KeyLess(files[j].firstKey, files[i].firstKey)
  }

  ghost predicate Stored(files: seq<ScanFile>, t: Trade) {
    exists f, batch | f in files && batch in f.batches :: t in batch
  }

  lemma {:induction false} RowsMembers(batches: seq<seq<Trade>>)
    ensures forall t :: t in RowsOf(batches) <==> exists batch | batch in batches :: t in batch
  {
    if batches != [] {
      RowsMembers(batches[..|batches| - 1]);
      assert batches == batches[..|batches| - 1] + [batches[|batches| - 1]];
    }
  }

  lemma FileOfRow(files: seq<ScanFile>, t: Trade) returns (f: ScanFile)
    requires Stored(files, t)
    ensures f in files && t in RowsOf(f.batches)
  {
    hide RowsOf;
    var g, batch :| g in files && batch in g.batches && t in batch;
    f := g;
    RowsMembers(f.batches);
  }

  /** The tape of a generation: its stored rows inside the bounds, each once, in key order. */
  ghost predicate IsTape(files: seq<ScanFile>, ds: Dataset, tape: seq<Trade>) {
    && Ordered(tape)
    && forall t :: t in tape <==>
         && Stored(files, t) && ds.startTimeMs <= t.tradeTimeMs <= ds.endTimeMs
         && ds.firstAggTradeId <= t.aggTradeId < ds.firstAggTradeId + ds.rowCount
  }

  /** A stored row inside the bounds that comes after the cursor. */
  ghost predicate Available(files: seq<ScanFile>, ds: Dataset, after: Option<Cursor>, t: Trade) {
    Stored(files, t) && Wanted(ds, after, t)
  }

  /**
   * What a page must be, whatever the scan skipped: available rows in strict order, every available row
   * that is left out comes after all of them, and rows are left out only when the page is full.
   */
  ghost predicate Serves(files: seq<ScanFile>, ds: Dataset, after: Option<Cursor>, limit: nat, page: Page) {
    && Ordered(page.rows) && |page.rows| <= limit
    && (forall t | t in page.rows :: Available(files, ds, after, t))
    && (forall t | Available(files, ds, after, t) && t !in page.rows :: AllBefore(page.rows, KeyOf(t)))
    && (page.exhausted <==> forall t | Available(files, ds, after, t) :: t in page.rows)
    && (!page.exhausted ==> |page.rows| == limit)
    && page.nextCursor == CursorAt(page.rows, after) && page.dataEpoch == ds.dataEpoch
  }

  ghost predicate AllBefore(rows: seq<Trade>, key: Cursor) {
    forall r | r in rows :: KeyLess(KeyOf(r), key)
  }

  /** All rows in the files, counted with every copy. */
  ghost function PhysicalRows(files: seq<ScanFile>): nat {
    if files == [] then 0 else PhysicalRows(files[..|files| - 1]) + |RowsOf(files[|files| - 1].batches)|
  }

  lemma {:induction false} FewerPhysicalRows(files: seq<ScanFile>, k: nat)
    requires k <= |files|
    ensures PhysicalRows(files[..k]) <= PhysicalRows(files)
    ensures k < |files| ==> PhysicalRows(files[..k + 1]) == PhysicalRows(files[..k]) + |RowsOf(files[k].batches)|
  {
    if k < |files| {
      assert files[..k + 1][..k] == files[..k];
      FewerPhysicalRows(files[..|files| - 1], k);
      assert files[..|files| - 1][..k] == files[..k];
    } else {
      assert files[..k] == files;
    }
  }

  // ----- pruning is safe

  function CountBelow(kept: seq<Trade>, key: Cursor): nat { |Filter(KeyBelow(key), kept)| }

  /** The row was kept, or enough kept rows come before it. */
  ghost predicate Settled(kept: seq<Trade>, t: Trade, limit: nat) {
    t in kept || CountBelow(kept, KeyOf(t)) >= limit
  }

  ghost predicate AllSettled(kept: seq<Trade>, rows: seq<Trade>, ds: Dataset, after: Option<Cursor>, limit: nat) {
    forall t | t in rows && Wanted(ds, after, t) :: Settled(kept, t, limit)
  }

  lemma SettledStays(kept: seq<Trade>, more: seq<Trade>, t: Trade, limit: nat)
    requires Settled(kept, t, limit)
    ensures Settled(kept + more, t, limit)
  {
    FilterAppends(KeyBelow(KeyOf(t)), kept, more);
  }

  lemma AllSettledStays(kept: seq<Trade>, later: seq<Trade>, rows: seq<Trade>, ds: Dataset, after: Option<Cursor>, limit: nat)
    requires AllSettled(kept, rows, ds, after, limit) && kept <= later
    ensures AllSettled(later, rows, ds, after, limit)
  {
    hide Settled;
    assert later == kept + later[|kept|..];
    forall t | t in rows && Wanted(ds, after, t) ensures Settled(later, t, limit) {
      SettledStays(kept, later[|kept|..], t, limit);
    }
  }

  /** The key of the `limit`-th kept row, once there are that many. */
  function RowCutoff(kept: seq<Trade>, limit: nat): Option<Cursor>
    requires limit > 0
  {
    if |kept| < limit then None else Some(KeyOf(Sort(ByKey, kept)[limit - 1]))
  }

  lemma KeyOrderIsTotal()
    ensures TotalPreorder(ByKey)
  {
  }

  lemma {:induction false} InsertCounts(keep: Trade -> bool, x: Trade, s: seq<Trade>)
    ensures |Filter(keep, Insert(ByKey, x, s))| == |Filter(keep, s)| + (if keep(x) then 1 else 0)
  {
    FilterOne(keep, x);
    if s == [] || ByKey(x, s[0]) {
      FilterAppends(keep, [x], s);
    } else {
      InsertCounts(keep, x, s[1..]);
      FilterAppends(keep, [s[0]], Insert(ByKey, x, s[1..]));
      FilterAppends(keep, [s[0]], s[1..]);
      assert s == [s[0]] + s[1..];
    }
  }

  lemma FilterOne(keep: Trade -> bool, x: Trade)
    ensures Filter(keep, [x]) == if keep(x) then [x] else []
  {
    FilterSnoc(keep, [], x);
    assert [] + [x] == [x];
  }

  /** Sorting does not change how many rows pass a filter. */
  lemma {:induction false} SortCounts(keep: Trade -> bool, s: seq<Trade>)
    ensures |Filter(keep, Sort(ByKey, s))| == |Filter(keep, s)|
  {
    if s != [] {
      SortCounts(keep, s[1..]);
      InsertCounts(keep, s[0], Sort(ByKey, s[1..]));
      FilterOne(keep, s[0]);
      FilterAppends(keep, [s[0]], s[1..]);
      assert s == [s[0]] + s[1..];
    }
  }

  /** Beyond the cutoff every row has enough kept rows before it. */
  lemma CutoffSettles(kept: seq<Trade>, limit: nat, t: Trade)
    requires limit > 0 && RowCutoff(kept, limit).Some? && KeyLess(RowCutoff(kept, limit).value, KeyOf(t))
    ensures Settled(kept, t, limit)
  {
    hide Filter, Sort;
    var below, sorted := KeyBelow(KeyOf(t)), Sort(ByKey, kept);
    KeyOrderIsTotal();
    SortIsSortedPermutation(ByKey, kept);
    SortCounts(below, kept);
    var front := sorted[..limit];
    forall x | x in front ensures below(x) {
      var i :| 0 <= i < limit && front[i] == x;
      assert i < limit - 1 ==> ByKey(sorted[i], sorted[limit - 1]);
    }
    FilterKeepsAll(below, front);
    FilterAppends(below, front, sorted[limit..]);
    assert sorted == front + sorted[limit..];
  }

  // ----- settled rows decide the page

  /** Kept rows with distinct ids are strictly ordered once sorted. */
  lemma SortedRowsOrdered(kept: seq<Trade>)
    requires DistinctTradeIds(kept)
    ensures Ordered(Sort(ByKey, kept)) && forall t :: t in Sort(ByKey, kept) <==> t in kept
  {
    hide Sort;
    var sorted := Sort(ByKey, kept);
    KeyOrderIsTotal();
    IdsAreDistinct(kept);
    SortIsSortedPermutation(ByKey, kept);
    SameMembers(kept, sorted);
    PermutationKeepsDistinct(kept, sorted);
    forall i, j | 0 <= i < j < |sorted| ensures KeyLess(KeyOf(sorted[i]), KeyOf(sorted[j])) {
      assert ByKey(sorted[i], sorted[j]) && sorted[i] != sorted[j];
      OneRowPerId(kept, sorted[i], sorted[j]);
    }
  }

  lemma OneRowPerId(kept: seq<Trade>, x: Trade, y: Trade)
    requires DistinctTradeIds(kept) && x in kept && y in kept && x != y
    ensures x.aggTradeId != y.aggTradeId
  {
    var i :| 0 <= i < |kept| && kept[i] == x;
    var j :| 0 <= j < |kept| && kept[j] == y;
    assert i < j || j < i;
  }

  lemma IdsAreDistinct(kept: seq<Trade>)
    requires DistinctTradeIds(kept)
    ensures Distinct(kept)
  {
  }

  /** In an ordered list at most `k` rows lie below a key that is not above row `k`. */
  lemma FewBelow(sorted: seq<Trade>, k: nat, key: Cursor)
    requires Ordered(sorted) && k <= |sorted| && (k < |sorted| ==> !KeyLess(KeyOf(sorted[k]), key))
    ensures CountBelow(sorted, key) <= k
  {
    hide Filter;
    var below := KeyBelow(key);
    FilterAppends(below, sorted[..k], sorted[k..]);
    forall x | x in sorted[k..] ensures !below(x) {
      var i :| k <= i < |sorted| && sorted[i] == x;
    }
    FilterKeepsNone(below, sorted[k..]);
    assert sorted == sorted[..k] + sorted[k..];
  }

  /** A row with enough rows before it comes after the first `k` rows. */
  lemma ManyBelow(sorted: seq<Trade>, k: nat, key: Cursor)
    requires Ordered(sorted) && CountBelow(sorted, key) > k
    ensures |sorted| > k && AllBefore(sorted[..k], key)
  {
    hide CountBelow;
    FewBelow(sorted, |sorted|, key);
    forall r | r in sorted[..k] ensures KeyLess(KeyOf(r), key) {
      var i :| 0 <= i < k && sorted[i] == r;
      if !KeyLess(KeyOf(r), key) { FewBelow(sorted, i, key); }
    }
  }

  lemma PastPrefix(sorted: seq<Trade>, limit: nat, p: nat)
    requires Ordered(sorted) && p < |sorted| && sorted[p] !in Prefix(sorted, limit)
    ensures |sorted| > limit && AllBefore(Prefix(sorted, limit), KeyOf(sorted[p]))
  {
    forall q | 0 <= q < |Prefix(sorted, limit)| ensures sorted[q] in Prefix(sorted, limit) {
      assert Prefix(sorted, limit)[q] == sorted[q];
    }
  }

  /** A wanted row that the page leaves out comes after every row of the page, and the page is full. */
  lemma LeftOutComesLater(kept: seq<Trade>, t: Trade, limit: nat)
    requires DistinctTradeIds(kept) && Settled(kept, t, limit + 1) && t !in Prefix(Sort(ByKey, kept), limit)
    ensures |kept| > limit && AllBefore(Prefix(Sort(ByKey, kept), limit), KeyOf(t))
  {
    hide Sort;
    var sorted := Sort(ByKey, kept);
    SortedRowsOrdered(kept);
    KeyOrderIsTotal();
    SortIsSortedPermutation(ByKey, kept);
    if t in kept {
      var p :| 0 <= p < |sorted| && sorted[p] == t;
      PastPrefix(sorted, limit, p);
    } else {
      SortCounts(KeyBelow(KeyOf(t)), kept);
      ManyBelow(sorted, limit, KeyOf(t));
    }
  }

  // ----- the scan

  predicate HasId(kept: seq<Trade>, id: int) { exists x | x in kept :: x.aggTradeId == id }

  ghost predicate DistinctTradeIds(kept: seq<Trade>) {
    forall i, j | 0 <= i < j < |kept| :: kept[i].aggTradeId != kept[j].aggTradeId
  }

  /** Two different rows with one id. */
  ghost predicate Conflict(files: seq<ScanFile>, x: Trade, y: Trade) {
    Stored(files, x) && Stored(files, y) && x != y && x.aggTradeId == y.aggTradeId
  }

  ghost predicate AllWanted(kept: seq<Trade>, files: seq<ScanFile>, ds: Dataset, after: Option<Cursor>) {
    forall t | t in kept :: Stored(files, t) && Wanted(ds, after, t)
  }

  /** What a scan knows: wanted rows with distinct ids, extending what it knew before. */
  ghost predicate Collected(kept: seq<Trade>, later: seq<Trade>, files: seq<ScanFile>, ds: Dataset, after: Option<Cursor>) {
    kept <= later && DistinctTradeIds(later) && AllWanted(later, files, ds, after)
  }

  /** The answer of a batch: the rows kept so far, and whether a row beyond the cutoff ended the file. */
  datatype BatchScan = Clash | Scanned(kept: seq<Trade>, stopped: bool)

  ghost predicate Clashes(files: seq<ScanFile>) {
    exists x, y :: Conflict(files, x, y)
  }

  lemma KeepRow(kept: seq<Trade>, later: seq<Trade>, t: Trade, files: seq<ScanFile>, ds: Dataset, after: Option<Cursor>, limit: nat)
    requires Collected(kept, later, files, ds, after) && !HasId(later, t.aggTradeId) && Stored(files, t) && Wanted(ds, after, t)
    ensures Collected(kept, later + [t], files, ds, after) && Settled(later + [t], t, limit)
  {
    hide Stored, Wanted, CountBelow;
    var longer := later + [t];
    assert t in longer;
    forall i, j | 0 <= i < j < |longer| ensures longer[i].aggTradeId != longer[j].aggTradeId {
      if j == |later| { assert longer[i] in later; }
    }
  }

  lemma SettleRow(kept: seq<Trade>, rows: seq<Trade>, t: Trade, ds: Dataset, after: Option<Cursor>, limit: nat)
    requires AllSettled(kept, rows, ds, after, limit) && (Wanted(ds, after, t) ==> Settled(kept, t, limit))
    ensures AllSettled(kept, rows + [t], ds, after, limit)
  {
    hide Settled, Wanted;
  }

  /** One batch: rows at or before the cursor and outside the bounds are passed over, a row beyond the cutoff stops the file. */
  method ScanBatch(ghost files: seq<ScanFile>, batch: seq<Trade>, ds: Dataset, after: Option<Cursor>, cutoff: Option<Cursor>, limit: nat, kept: seq<Trade>)
    returns (r: BatchScan)
    requires (forall t | t in batch :: Stored(files, t)) && Collected(kept, kept, files, ds, after)
    ensures r.Clash? ==> Clashes(files)
    ensures r.Scanned? ==> Collected(kept, r.kept, files, ds, after)
    ensures r.Scanned? && !r.stopped ==> AllSettled(r.kept, batch, ds, after, limit)
    ensures r.Scanned? && r.stopped ==>
              exists j | 0 <= j < |batch| :: cutoff.Some? && KeyLess(cutoff.value, KeyOf(batch[j])) && AllSettled(r.kept, batch[..j], ds, after, limit)
  {
    hide Collected, AllSettled, Settled, Stored, HasId, Clashes;
    var later := kept;
    NothingToSettle(kept, ds, after, limit);
    for i := 0 to |batch|
      invariant Collected(kept, later, files, ds, after)
      invariant AllSettled(later, batch[..i], ds, after, limit)
    {
      var row := batch[i];
      assert row in batch && batch[..i + 1] == batch[..i] + [row];
      if after.Some? && !KeyLess(after.value, KeyOf(row)) {
        SettleRow(later, batch[..i], row, ds, after, limit);
        continue;
      }
      if cutoff.Some? && KeyLess(cutoff.value, KeyOf(row)) {
        return Scanned(later, true);
      }
      if InBounds(ds, row) {
        if HasId(later, row.aggTradeId) {
          var same := row in later;
          OneIdOneRow(kept, later, row, files, ds, after, limit);
          if !same {
            return Clash;
          }
        } else {
          KeepRow(kept, later, row, files, ds, after, limit);
          AllSettledStays(later, later + [row], batch[..i], ds, after, limit);
          later := later + [row];
        }
      }
      SettleRow(later, batch[..i], row, ds, after, limit);
    }
    assert batch[..|batch|] == batch;
    return Scanned(later, false);
  }

  lemma NothingToSettle(kept: seq<Trade>, ds: Dataset, after: Option<Cursor>, limit: nat)
    ensures AllSettled(kept, [], ds, after, limit)
  {
  }

  /** A row whose id is already kept is that kept row, or the two clash. */
  lemma OneIdOneRow(kept: seq<Trade>, later: seq<Trade>, row: Trade, files: seq<ScanFile>, ds: Dataset, after: Option<Cursor>, limit: nat)
    requires Collected(kept, later, files, ds, after) && HasId(later, row.aggTradeId) && Stored(files, row)
    ensures row in later ==> Settled(later, row, limit)
    ensures row !in later ==> Clashes(files)
  {
    hide Stored, Wanted, CountBelow;
    var x :| x in later && x.aggTradeId == row.aggTradeId;
    if row !in later {
      assert Conflict(files, x, row);
    }
  }

  lemma KeyLessTrans(a: Cursor, b: Cursor, c: Cursor)
    requires KeyLess(a, b) && !KeyLess(c, b)
    ensures KeyLess(a, c)
  {
  }

  /** Everything at or after a row beyond the cutoff is settled. */
  lemma RestIsBeyond(kept: seq<Trade>, later: seq<Trade>, limit: nat, from: Cursor, rows: seq<Trade>, ds: Dataset, after: Option<Cursor>)
    requires limit > 0 && kept <= later && RowCutoff(kept, limit).Some? && KeyLess(RowCutoff(kept, limit).value, from)
    requires forall t | t in rows :: !KeyLess(KeyOf(t), from)
    ensures AllSettled(later, rows, ds, after, limit)
  {
    hide RowCutoff, Settled;
    forall t | t in rows ensures Settled(kept, t, limit) {
      KeyLessTrans(RowCutoff(kept, limit).value, from, KeyOf(t));
      CutoffSettles(kept, limit, t);
    }
    AllSettledStays(kept, later, rows, ds, after, limit);
  }

  lemma SettledParts(kept: seq<Trade>, a: seq<Trade>, b: seq<Trade>, ds: Dataset, after: Option<Cursor>, limit: nat)
    requires AllSettled(kept, a, ds, after, limit) && AllSettled(kept, b, ds, after, limit)
    ensures AllSettled(kept, a + b, ds, after, limit)
  {
    hide Settled, Wanted;
  }

  /** The rows of a file up to a batch, that batch, and the rest. */
  lemma {:induction false} RowsAt(batches: seq<seq<Trade>>, k: nat) returns (rest: seq<Trade>)
    requires k < |batches|
    ensures RowsOf(batches[..k + 1]) == RowsOf(batches[..k]) + batches[k]
    ensures RowsOf(batches) == RowsOf(batches[..k + 1]) + rest
    decreases |batches| - k
  {
    assert batches[..k + 1][..k] == batches[..k];
    if k + 1 == |batches| {
      assert batches[..k + 1] == batches;
      rest := [];
    } else {
      var after := RowsAt(batches, k + 1);
      rest := batches[k + 1] + after;
    }
  }

  lemma CollectedOn(a: seq<Trade>, b: seq<Trade>, c: seq<Trade>, files: seq<ScanFile>, ds: Dataset, after: Option<Cursor>)
    requires Collected(a, b, files, ds, after) && Collected(b, c, files, ds, after)
    ensures Collected(a, c, files, ds, after) && Collected(c, c, files, ds, after) && b <= c
  {
  }

  lemma CollectedSelf(a: seq<Trade>, b: seq<Trade>, files: seq<ScanFile>, ds: Dataset, after: Option<Cursor>)
    requires Collected(a, b, files, ds, after)
    ensures Collected(b, b, files, ds, after) && a <= b
  {
  }

  lemma FileIsStored(files: seq<ScanFile>, f: ScanFile)
    requires f in files
    ensures forall t | t in RowsOf(f.batches) :: Stored(files, t)
  {
    hide RowsOf;
    RowsMembers(f.batches);
  }

  /** A stopped file is settled too: its rows are in order, and the row that stopped it is beyond the cutoff. */
  lemma StoppedFileIsSettled(f: ScanFile, k: nat, j: nat, kept: seq<Trade>, later: seq<Trade>, limit: nat, ds: Dataset, after: Option<Cursor>)
    requires ValidFile(f) && k < |f.batches| && j < |f.batches[k]| && limit > 0 && kept <= later
    requires RowCutoff(kept, limit).Some? && KeyLess(RowCutoff(kept, limit).value, KeyOf(f.batches[k][j]))
    requires AllSettled(later, RowsOf(f.batches[..k]), ds, after, limit) && AllSettled(later, f.batches[k][..j], ds, after, limit)
    ensures AllSettled(later, RowsOf(f.batches), ds, after, limit)
  {
    hide RowCutoff, AllSettled, RowsOf;
    var rest := RowsAt(f.batches, k);
    var before, batch, all := RowsOf(f.batches[..k]), f.batches[k], RowsOf(f.batches);
    var head, tail := before + batch[..j], batch[j..] + rest;
    assert all == head + tail;
    var at := |before| + j;
    assert all[at] == batch[j];
    forall t | t in tail ensures !KeyLess(KeyOf(t), KeyOf(batch[j])) {
      var i :| 0 <= i < |tail| && tail[i] == t;
      assert all[at + i] == t;
      if i > 0 { assert ByKey(all[at], all[at + i]); }
    }
    RestIsBeyond(kept, later, limit, KeyOf(batch[j]), tail, ds, after);
    SettledParts(later, before, batch[..j], ds, after, limit);
    SettledParts(later, head, tail, ds, after, limit);
  }

  /** One file, batch by batch, each with the cutoff of what is known when it starts. */
  method ScanOneFile(ghost files: seq<ScanFile>, f: ScanFile, ds: Dataset, after: Option<Cursor>, limit: nat, maxPhysicalRows: int,
                     kept: seq<Trade>, scannedRows: int)
    returns (r: Result<(seq<Trade>, int), PageError>)
    requires f in files && ValidFile(f) && limit > 0 && Collected(kept, kept, files, ds, after)
    ensures r.Success? ==> Collected(kept, r.value.0, files, ds, after) && AllSettled(r.value.0, RowsOf(f.batches), ds, after, limit)
    ensures r.Success? ==> scannedRows <= r.value.1 <= scannedRows + |RowsOf(f.batches)|
    ensures r.Failure? ==>
              || (r.error == ScanLimitExceeded && scannedRows + |RowsOf(f.batches)| > maxPhysicalRows)
              || (r.error == ConflictingDuplicate && Clashes(files))
  {
    hide Collected, AllSettled, Stored, ValidFile, RowCutoff, Clashes, RowsOf;
    var later, scanned := kept, scannedRows;
    FileIsStored(files, f);
    NoRows();
    NothingToSettle(kept, ds, after, limit);
    for k := 0 to |f.batches|
      invariant Collected(kept, later, files, ds, after)
      invariant AllSettled(later, RowsOf(f.batches[..k]), ds, after, limit)
      invariant scanned == scannedRows + |RowsOf(f.batches[..k])|
    {
      var batch := f.batches[k];
      ghost var rest := RowsAt(f.batches, k);
      scanned := scanned + |batch|;
      if scanned > maxPhysicalRows {
        return Failure(ScanLimitExceeded);
      }
      BatchIsStored(files, f, k);
      CollectedSelf(kept, later, files, ds, after);
      var cutoff := RowCutoff(later, limit);
      var answer := ScanBatch(files, batch, ds, after, cutoff, limit, later);
      if answer.Clash? {
        return Failure(ConflictingDuplicate);
      }
      CollectedOn(kept, later, answer.kept, files, ds, after);
      AllSettledStays(later, answer.kept, RowsOf(f.batches[..k]), ds, after, limit);
      if answer.stopped {
        ghost var j :| 0 <= j < |batch| && cutoff.Some? && KeyLess(cutoff.value, KeyOf(batch[j]))
                       && AllSettled(answer.kept, batch[..j], ds, after, limit);
        StoppedFileIsSettled(f, k, j, later, answer.kept, limit, ds, after);
        return Success((answer.kept, scanned));
      }
      SettledParts(answer.kept, RowsOf(f.batches[..k]), batch, ds, after, limit);
      later := answer.kept;
    }
    assert f.batches[..|f.batches|] == f.batches;
    return Success((later, scanned));
  }

  lemma NoRows()
    ensures RowsOf([]) == []
  {
  }

  lemma BatchIsStored(files: seq<ScanFile>, f: ScanFile, k: nat)
    requires f in files && k < |f.batches|
    ensures forall t | t in f.batches[k] :: Stored(files, t)
  {
  }

  /** Files not wanted at all: every row is at or before the cursor. */
  lemma SkippedFileIsSettled(f: ScanFile, kept: seq<Trade>, ds: Dataset, after: Option<Cursor>, limit: nat)
    requires ValidFile(f) && after.Some? && !KeyLess(after.value, f.maxKey)
    ensures AllSettled(kept, RowsOf(f.batches), ds, after, limit)
  {
    hide RowsOf, Settled;
  }

  ghost predicate FilesSettled(kept: seq<Trade>, files: seq<ScanFile>, ds: Dataset, after: Option<Cursor>, limit: nat) {
    forall f | f in files :: AllSettled(kept, RowsOf(f.batches), ds, after, limit)
  }

  lemma FilesSettledSnoc(kept: seq<Trade>, later: seq<Trade>, files: seq<ScanFile>, f: ScanFile, ds: Dataset, after: Option<Cursor>, limit: nat)
    requires FilesSettled(kept, files, ds, after, limit) && kept <= later && AllSettled(later, RowsOf(f.batches), ds, after, limit)
    ensures FilesSettled(later, files + [f], ds, after, limit)
  {
    hide AllSettled, RowsOf;
    forall x | x in files + [f] ensures AllSettled(later, RowsOf(x.batches), ds, after, limit) {
      if x in files { AllSettledStays(kept, later, RowsOf(x.batches), ds, after, limit); }
    }
  }

  /** Once the next file starts beyond the cutoff, so does every later file. */
  lemma LaterFilesAreSettled(files: seq<ScanFile>, n: nat, kept: seq<Trade>, ds: Dataset, after: Option<Cursor>, limit: nat)
    requires ValidFiles(files) && n < |files| && limit > 0 && FilesSettled(kept, files[..n], ds, after, limit)
    requires RowCutoff(kept, limit).Some? && KeyLess(RowCutoff(kept, limit).value, files[n].firstKey)
    ensures FilesSettled(kept, files, ds, after, limit)
  {
    hide AllSettled, RowsOf, RowCutoff;
    forall f | f in files ensures AllSettled(kept, RowsOf(f.batches), ds, after, limit) {
      var i :| 0 <= i < |files| && files[i] == f;
      if i < n {
        assert files[..n][i] == f;
      } else {
        assert i > n ==> !KeyLess(files[i].firstKey, files[n].firstKey);
        assert ValidFile(f);
        forall t | t in RowsOf(f.batches) ensures !KeyLess(KeyOf(t), files[n].firstKey) {}
        RestIsBeyond(kept, kept, limit, files[n].firstKey, RowsOf(f.batches), ds, after);
      }
    }
  }

  lemma AvailableIsSettled(files: seq<ScanFile>, ds: Dataset, kept: seq<Trade>, after: Option<Cursor>, limit: nat, t: Trade)
    requires FilesSettled(kept, files, ds, after, limit) && Available(files, ds, after, t)
    ensures Settled(kept, t, limit)
  {
    hide RowsOf, Settled, Wanted;
    var f := FileOfRow(files, t);
    assert AllSettled(kept, RowsOf(f.batches), ds, after, limit);
  }

  /** Settled files yield the next page of everything stored. */
  lemma ScannedPage(files: seq<ScanFile>, ds: Dataset, kept: seq<Trade>, after: Option<Cursor>, limit: nat)
    requires Collected([], kept, files, ds, after) && FilesSettled(kept, files, ds, after, limit + 1)
    ensures var rows := Prefix(Sort(ByKey, kept), limit);
            Serves(files, ds, after, limit, Page(rows, CursorAt(rows, after), |kept| <= limit, ds.dataEpoch))
  {
    hide Sort, Stored, Wanted, Settled, FilesSettled, AllBefore, Prefix, Ordered, DistinctTradeIds;
    var rows := Prefix(Sort(ByKey, kept), limit);
    SortedRowsOrdered(kept);
    PrefixOfKept(kept, limit);
    forall t | Available(files, ds, after, t) && t !in rows ensures |kept| > limit && AllBefore(rows, KeyOf(t)) {
      AvailableIsSettled(files, ds, kept, after, limit + 1, t);
      LeftOutComesLater(kept, t, limit);
    }
    if |kept| > limit {
      var t := BeyondPrefix(kept, limit);
      assert Available(files, ds, after, t);
    }
  }

  lemma PrefixOfKept(kept: seq<Trade>, limit: nat)
    requires DistinctTradeIds(kept)
    ensures var rows := Prefix(Sort(ByKey, kept), limit);
            Ordered(rows) && |rows| == MinInt(|kept|, limit) && forall t | t in rows :: t in kept
  {
    hide Sort;
    SortedRowsOrdered(kept);
    SortKeepsSize(kept);
    var sorted, rows := Sort(ByKey, kept), Prefix(Sort(ByKey, kept), limit);
    forall t | t in rows ensures t in kept {
      assert t in sorted;
    }
  }

  lemma BeyondPrefix(kept: seq<Trade>, limit: nat) returns (t: Trade)
    requires DistinctTradeIds(kept) && |kept| > limit
    ensures t in kept && t !in Prefix(Sort(ByKey, kept), limit)
  {
    hide Sort;
    SortedRowsOrdered(kept);
    SortKeepsSize(kept);
    t := Sort(ByKey, kept)[limit];
  }

  class ParquetRawAggTradeArchive {
    const files: seq<ScanFile>
    const maxScanFiles: int
    const maxPhysicalScanRows: int

    constructor (files: seq<ScanFile>, maxScanFiles: int, maxPhysicalScanRows: int)
      ensures this.files == files
      ensures this.maxScanFiles == (if maxScanFiles < 1 then 1 else maxScanFiles)
      ensures this.maxPhysicalScanRows == (if maxPhysicalScanRows < 1 then 1 else maxPhysicalScanRows)
    {
      this.files, this.maxScanFiles, this.maxPhysicalScanRows := files, MaxInt(1, maxScanFiles), MaxInt(1, maxPhysicalScanRows);
    }

    /**
     * One page of a frozen generation. Whatever the scan skips, a page it returns holds the next stored rows,
     * with a limit of at least one and at most a million rows; it fails only beyond its scan limits or for clashing rows.
     */
    method ScanPage(ds: Dataset, after: Option<Cursor>, limit: int) returns (r: Result<Page, PageError>)
      requires ValidFiles(files)
      ensures r.Success? ==> Serves(files, ds, after, if limit < 1 then 1 else if limit > 1_000_000 then 1_000_000 else limit, r.value)
      ensures r.Failure? ==> ScanFault(r.error)
    {
      hide Collected, FilesSettled, ValidFiles, Serves, Sort, ScanFault;
      var pageLimit := EffectiveLimit(limit);
      var boundedLimit := pageLimit + 1;
      if |files| > maxScanFiles {
        TooManyFiles();
        return Failure(ScanLimitExceeded);
      }
      var scanned := ScanFiles(ds, after, boundedLimit);
      if scanned.Failure? {
        return Failure(scanned.error);
      }
      var kept := scanned.value;
      ScannedPage(files, ds, kept, after, pageLimit);
      var ordered := Prefix(Sort(ByKey, kept), boundedLimit);
      var rows := Prefix(ordered, pageLimit);
      SortKeepsSize(kept);
      PrefixTwice(Sort(ByKey, kept), pageLimit);
      return Success(Page(rows, CursorAt(rows, after), |ordered| <= pageLimit, ds.dataEpoch));
    }

    /** The rows of the files from the cursor on, until later files cannot change the page. */
    method ScanFiles(ds: Dataset, after: Option<Cursor>, boundedLimit: nat) returns (r: Result<seq<Trade>, PageError>)
      requires ValidFiles(files) && boundedLimit > 1
      ensures r.Success? ==> Collected([], r.value, files, ds, after) && FilesSettled(r.value, files, ds, after, boundedLimit)
      ensures r.Failure? ==> ScanFault(r.error)
    {
      hide Collected, AllSettled, FilesSettled, RowCutoff, ValidFiles, Clashes, Sort, ValidFile, RowsOf, Serves, PhysicalRows;
      var kept: seq<Trade> := [];
      var scannedRows := 0;
      NothingCollected(files, ds, after, boundedLimit);
      FewerPhysicalRows(files, 0);
      var index := 0;
      while index < |files|
        invariant 0 <= index <= |files|
        invariant Collected([], kept, files, ds, after) && FilesSettled(kept, files[..index], ds, after, boundedLimit)
        invariant scannedRows <= PhysicalRows(files[..index]) || index == |files|
      {
        var manifest := files[index];
        FewerPhysicalRows(files, index);
        FewerPhysicalRows(files, index + 1);
        assert manifest in files && files[..index + 1] == files[..index] + [manifest];
        FileIsValid(files, index);
        if after.Some? && !KeyLess(after.value, manifest.maxKey) {
          SkippedFileIsSettled(manifest, kept, ds, after, boundedLimit);
          FilesSettledSnoc(kept, kept, files[..index], manifest, ds, after, boundedLimit);
          index := index + 1;
          continue;
        }
        CollectedSelf([], kept, files, ds, after);
        var scanned := ScanOneFile(files, manifest, ds, after, boundedLimit, maxPhysicalScanRows, kept, scannedRows);
        if scanned.Failure? {
          return Failure(scanned.error);
        }
        CollectedSelf(kept, scanned.value.0, files, ds, after);
        CollectedOn([], kept, scanned.value.0, files, ds, after);
        FilesSettledSnoc(kept, scanned.value.0, files[..index], manifest, ds, after, boundedLimit);
        kept, scannedRows := scanned.value.0, scanned.value.1;
        index := index + 1;
        var cutoff := RowCutoff(kept, boundedLimit);
        if cutoff.Some? && index < |files| && KeyLess(cutoff.value, files[index].firstKey) {
          LaterFilesAreSettled(files, index, kept, ds, after, boundedLimit);
          index := |files|;
          assert files[..|files|] == files;
        }
      }
      assert files[..|files|] == files;
      return Success(kept);
    }

    lemma TooManyFiles()
      requires |files| > maxScanFiles
      ensures ScanFault(ScanLimitExceeded)
    {
    }

    /** Too many files, too many rows, or two different rows with one id. */
    ghost predicate ScanFault(error: PageError) {
      || (error == ScanLimitExceeded && (|files| > maxScanFiles || PhysicalRows(files) > maxPhysicalScanRows))
      || (error == ConflictingDuplicate && Clashes(files))
    }
  }

  lemma NothingCollected(files: seq<ScanFile>, ds: Dataset, after: Option<Cursor>, limit: nat)
    ensures Collected([], [], files, ds, after) && FilesSettled([], files[..0], ds, after, limit)
  {
  }

  lemma FileIsValid(files: seq<ScanFile>, i: nat)
    requires ValidFiles(files) && i < |files|
    ensures ValidFile(files[i])
  {
    hide ValidFile;
    assert files[i] in files;
  }

  /** One row more than the limit tells whether anything follows. */
  lemma PrefixTwice(s: seq<Trade>, limit: nat)
    ensures Prefix(Prefix(s, limit + 1), limit) == Prefix(s, limit)
    ensures |Prefix(s, limit + 1)| <= limit <==> |s| <= limit
  {
  }

  lemma SortKeepsSize(kept: seq<Trade>)
    ensures |Sort(ByKey, kept)| == |kept|
  {
    KeyOrderIsTotal();
    SortIsSortedPermutation(ByKey, kept);
  }

  // ----- the page of a tape

  /** Ordered rows with the same members are the same rows. */
  lemma {:induction false} OrderedIsUnique(a: seq<Trade>, b: seq<Trade>)
    requires Ordered(a) && Ordered(b) && forall t :: t in a <==> t in b
    ensures a == b
  {
    SameEmptiness(a, b);
    if a != [] {
      var front, last := a[..|a| - 1], a[|a| - 1];
      LastIsLast(a, b);
      forall t ensures t in front <==> t in b[..|b| - 1] {
        FrontMembers(a, t);
        FrontMembers(b, t);
      }
      OrderedIsUnique(front, b[..|b| - 1]);
      assert a == front + [last] && b == b[..|b| - 1] + [b[|b| - 1]];
    }
  }

  lemma SameEmptiness(a: seq<Trade>, b: seq<Trade>)
    requires forall t :: t in a <==> t in b
    ensures a == [] <==> b == []
  {
    if a != [] { assert a[0] in b; }
    if b != [] { assert b[0] in a; }
  }

  lemma LastIsLast(a: seq<Trade>, b: seq<Trade>)
    requires Ordered(a) && Ordered(b) && a != [] && b != [] && forall t :: t in a <==> t in b
    ensures a[|a| - 1] == b[|b| - 1]
  {
    assert a[|a| - 1] in a && b[|b| - 1] in b;
    var i :| 0 <= i < |b| && b[i] == a[|a| - 1];
    var j :| 0 <= j < |a| && a[j] == b[|b| - 1];
  }

  lemma FrontMembers(s: seq<Trade>, t: Trade)
    requires Ordered(s) && s != []
    ensures t in s[..|s| - 1] <==> t in s && t != s[|s| - 1]
  {
    assert s == s[..|s| - 1] + [s[|s| - 1]];
  }

  lemma OrderedConcat(a: seq<Trade>, b: seq<Trade>)
    requires Ordered(a) && Ordered(b) && forall t | t in b :: AllBefore(a, KeyOf(t))
    ensures Ordered(a + b)
  {
    var s := a + b;
    forall i, j | 0 <= i < j < |s| ensures KeyLess(KeyOf(s[i]), KeyOf(s[j])) {
      if i < |a| <= j { assert s[i] in a && s[j] in b; }
    }
  }

  /** Where the stored rows have a tape, a page is exactly its next rows. */
  lemma ServedPageIsNext(files: seq<ScanFile>, ds: Dataset, tape: seq<Trade>, i: nat, limit: nat, page: Page)
    requires IsTape(files, ds, tape) && i <= |tape| && Serves(files, ds, CursorBefore(tape, i), limit, page)
    ensures page == PageAt(tape, i, MinInt(limit, |tape| - i), ds.dataEpoch)
  {
    hide Stored, AllBefore, KeyAfter, CursorBefore, CursorAt, Ordered;
    var rest, n := tape[i..], |page.rows|;
    RestIsOrdered(tape, i);
    forall t ensures t in rest <==> Available(files, ds, CursorBefore(tape, i), t) {
      AfterCursor(tape, i, t);
    }
    FirstRows(page.rows, rest);
    assert rest[..n] == tape[i..i + n];
    CursorMovesOn(tape, i, n);
  }

  lemma RestIsOrdered(tape: seq<Trade>, i: nat)
    requires Ordered(tape) && i <= |tape|
    ensures Ordered(tape[i..])
  {
  }

  /** Rows that come before every row they leave out are the first rows. */
  lemma FirstRows(rows: seq<Trade>, rest: seq<Trade>)
    requires Ordered(rows) && Ordered(rest) && forall t | t in rows :: t in rest
    requires forall t | t in rest && t !in rows :: AllBefore(rows, KeyOf(t))
    ensures |rows| <= |rest| && rows == rest[..|rows|]
    ensures (forall t | t in rest :: t in rows) <==> |rows| == |rest|
  {
    hide Filter, Ordered, AllBefore;
    var out := (t: Trade) => t !in rows;
    var left := Filter(out, rest);
    FilterMembers(out, rest);
    FilterOrdered(out, rest);
    OrderedConcat(rows, left);
    OrderedIsUnique(rows + left, rest);
    if left != [] { assert left[0] in left; }
  }

  lemma AfterCursor(tape: seq<Trade>, i: nat, t: Trade)
    requires Ordered(tape) && i <= |tape|
    ensures t in tape[i..] <==> t in tape && KeyAfter(CursorBefore(tape, i))(t)
  {
    if t in tape {
      var k :| 0 <= k < |tape| && tape[k] == t;
      if k < i {
        assert k < i - 1 ==> KeyLess(KeyOf(tape[k]), KeyOf(tape[i - 1]));
      } else {
        assert tape[i..][k - i] == t;
      }
    }
  }

  lemma FilterOrdered(keep: Trade -> bool, tape: seq<Trade>)
    requires Ordered(tape)
    ensures Ordered(Filter(keep, tape))
  {
    var kept := Filter(keep, tape);
    forall i, j | 0 <= i < j < |kept| ensures KeyLess(KeyOf(kept[i]), KeyOf(kept[j])) {
      var a, b := FilterPosition(keep, tape, i, j);
    }
  }
}
