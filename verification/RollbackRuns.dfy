/**
 * Sequences of rollback runs: archives of either ledger, state downgrades and broker activity in any
 * order, each run cut off at any point.
 */
module RollbackRuns {
  import opened Results
  import opened BrokerFiles
  import opened LedgerArchive
  import opened BrokerDowngrade

  datatype Run =
    | ArchiveRunOf(request: Request, events: seq<Event>)
    | DowngradeRunOf(downgrade: DowngradeRequest, raw: Bytes, v1: Bytes, events: seq<Event>)
    | BrokerActivity(events: seq<Event>)

  /** What a run of each tool may do, as its own contract states it; a run that changes anything passed its checks. */
  ghost predicate RunOk(hash: Bytes -> Digest, unzip: Bytes -> Option<Zip>, run: Run) {
    match run
    case ArchiveRunOf(request, events) =>
      && ArchiveRun(hash, unzip, request, [], events)
      && (!request.removeSource ==> PreparedMore(request, [], events))
      && (events != [] ==> RequestAccepted(request, events[0].before) && Temporary(request) !in events[0].before)
    case DowngradeRunOf(request, raw, v1, events) =>
      && DowngradedMore(request, raw, v1, [], events)
      && (events != [] ==> DowngradeStart(request, raw, events[0].before))
    case BrokerActivity(events) =>
      forall e | e in events :: e.actor != Tool && forall p: Path | Outside(p) :: SameAt(e.before, e.after, p)
  }

  /** What a downgrade has checked of the files before its first change. */
  ghost predicate DowngradeStart(request: DowngradeRequest, raw: Bytes, files: Files) {
    && request.backup != BrokerState && request.backup !in files && StateTemporary(request) !in files
    && BrokerState in files && files[BrokerState] == raw
    && forall p: Path | p.LedgerFile? :: p !in files
  }

  /** A path outside the broker's own files. */
  predicate Outside(p: Path) { !p.LedgerFile? && !p.BrokerState? }

  /** Runs one after the other, from `start` to `end`. */
  ghost predicate RunsFrom(hash: Bytes -> Digest, unzip: Bytes -> Option<Zip>, start: Files, runs: seq<Run>, end: Files) {
    if runs == [] then start == end
    else
      var front, last := runs[..|runs| - 1], runs[|runs| - 1];
      RunOk(hash, unzip, last)
      && exists middle: Files :: RunsFrom(hash, unzip, start, front, middle) && BrokerFiles.Chained(middle, last.events, end)
  }

  /** A ledger file that a tool's own step removed. */
  ghost predicate ToolDeletes(run: Run, e: Event, p: Path) {
    run.ArchiveRunOf? && e in run.events && e.actor == Tool && p in Trio(run.request.kind) && p in e.before && p !in e.after
  }

  /** The archive of the run restores what the event removed. */
  ghost predicate RestorableIn(hash: Bytes -> Digest, unzip: Bytes -> Option<Zip>, files: Files, run: Run, e: Event, p: Path)
    requires run.ArchiveRunOf? && p in e.before
  {
    run.request.destination in files && Restores(hash, unzip, files[run.request.destination], p, e.before[p])
  }

  /** The archive tool's contract over its own part of the event log is the run of this module. */
  lemma ArchiveContractIsRun(hash: Bytes -> Digest, unzip: Bytes -> Option<Zip>, request: Request, before: seq<Event>, after: seq<Event>, start: Files)
    requires ArchiveRun(hash, unzip, request, before, after) && before <= after
    requires !request.removeSource ==> PreparedMore(request, before, after)
    requires (!Refused(request, start) && Temporary(request) !in start) || after == before
    requires after[|before|..] != [] ==> after[|before|].before == start
    ensures RunOk(hash, unzip, ArchiveRunOf(request, after[|before|..]))
  {
    var middle: seq<Event> :| PreparedMore(request, before, middle) && RemovedMore(hash, unzip, request, middle, after);
    var own := middle[|before|..];
    assert own[0..] == own && after[|before|..][|own|..] == after[|middle|..];
    assert PreparedMore(request, [], own) && RemovedMore(hash, unzip, request, own, after[|before|..]);
    assert after[|before|..][0..] == after[|before|..];
    AcceptedIsNotRefused(request, start);
  }

  /** A run that changed anything passed every check, and among them the one for unresolved orders. */
  lemma RunPassedItsChecks(hash: Bytes -> Digest, unzip: Bytes -> Option<Zip>, run: Run)
    requires RunOk(hash, unzip, run) && run.ArchiveRunOf? && run.events != []
    ensures var request, audit, files := run.request, run.request.audit, run.events[0].before;
            && request.confirmKilled && audit.killed && audit.outstandingConfirmations == 0
            && (request.kind == Execution && audit.unresolvedOrders != 0 ==> request.confirmUnresolved)
            && 0 < |audit.payload| <= 16 * 1024 * 1024 && audit.path in files
            && LedgerFile(request.kind, Main) in files && request.destination !in files
            && !(audit.path.LedgerFile? && audit.path.kind == request.kind)
            && !(request.destination.LedgerFile? && request.destination.kind == request.kind)
  {
    TrioIsKind(run.request.kind, run.request.audit.path);
    TrioIsKind(run.request.kind, run.request.destination);
  }

  /** The tool changes nothing but its archive and its temporary, and removes files of its own ledger only when it was asked to. */
  lemma ArchiverTouchesItsOwn(hash: Bytes -> Digest, unzip: Bytes -> Option<Zip>, run: Run, e: Event, p: Path)
    requires RunOk(hash, unzip, run) && run.ArchiveRunOf? && e in run.events && e.actor == Tool && !SameAt(e.before, e.after, p)
    ensures || p == run.request.destination || p == TemporaryOf(run.request.destination, run.request.nonce)
            || (run.request.removeSource && p.LedgerFile? && p.kind == run.request.kind && p in e.before && p !in e.after)
  {
    var request, events := run.request, run.events;
    TrioIsKind(request.kind, p);
    var middle: seq<Event> :| PreparedMore(request, [], middle) && RemovedMore(hash, unzip, request, middle, events);
    assert middle[0..] == middle && events == middle + events[|middle|..] && events[0..] == events;
    if e in middle || !request.removeSource {
      assert Preparing(request, e);
    } else {
      assert Removing(hash, unzip, request, e);
    }
  }

  lemma UnobstructedStart(request: DowngradeRequest, parse: Bytes -> Option<StateDocument>, files: Files)
    requires !Obstructed(request, parse, files)
    ensures request.backup != BrokerState && request.backup !in files && forall p: Path | p.LedgerFile? :: p !in files
  {
    assert !DowngradeRefusal(BackupIsState, request, parse, files) && !DowngradeRefusal(BackupExists, request, parse, files);
    assert !DowngradeRefusal(LedgersPresent, request, parse, files);
    LedgerPresent(files);
  }

  /** The same for the downgrade tool. */
  lemma DowngradeContractIsRun(hash: Bytes -> Digest, unzip: Bytes -> Option<Zip>, parse: Bytes -> Option<StateDocument>, request: DowngradeRequest,
                               raw: Bytes, v1: Bytes, before: seq<Event>, after: seq<Event>, start: Files)
    requires DowngradedMore(request, raw, v1, before, after)
    requires after == before
          || (!Obstructed(request, parse, start) && BrokerState in start && start[BrokerState] == raw && StateTemporary(request) !in start)
    requires after[|before|..] != [] ==> after[|before|].before == start
    ensures RunOk(hash, unzip, DowngradeRunOf(request, raw, v1, after[|before|..]))
  {
    if !Obstructed(request, parse, start) { UnobstructedStart(request, parse, start); }
    assert after[|before|..][0..] == after[|before|..];
  }

  lemma {:induction false} ChainKeeps(start: Files, events: seq<Event>, end: Files, p: Path)
    requires BrokerFiles.Chained(start, events, end)
    requires forall e | e in events :: SameAt(e.before, e.after, p)
    ensures SameAt(start, end, p)
  {
    if events != [] {
      var front, last := events[..|events| - 1], events[|events| - 1];
      assert last in events && forall e | e in front :: e in events;
      ChainKeeps(start, front, last.before, p);
      assert SameAt(last.before, last.after, p);
    }
  }

  lemma {:induction false} ChainStarts(start: Files, events: seq<Event>, end: Files)
    requires BrokerFiles.Chained(start, events, end) && events != []
    ensures events[0].before == start
  {
    if |events| > 1 {
      ChainStarts(start, events[..|events| - 1], events[|events| - 1].before);
    }
  }

  lemma {:induction false} ChainSplits(start: Files, events: seq<Event>, end: Files, k: nat)
    requires BrokerFiles.Chained(start, events, end) && k < |events|
    ensures BrokerFiles.Chained(events[k].after, events[k + 1..], end)
  {
    var front, last := events[..|events| - 1], events[|events| - 1];
    if k == |front| {
      assert events[k + 1..] == [];
    } else {
      ChainSplits(start, front, last.before, k);
      assert events[k + 1..][..|events[k + 1..]| - 1] == front[k + 1..];
    }
  }

  /** No event of any run touches a file outside the broker that was there before the run began. */
  lemma RunKeepsOlderFile(hash: Bytes -> Digest, unzip: Bytes -> Option<Zip>, run: Run, start: Files, end: Files, p: Path)
    requires RunOk(hash, unzip, run) && BrokerFiles.Chained(start, run.events, end)
    requires Outside(p) && p in start
    ensures SameAt(start, end, p)
  {
    hide BrokerFiles.Chained, ArchiveRun, SameAt;
    if run.events != [] { ChainStarts(start, run.events, end); }
    forall e | e in run.events ensures SameAt(e.before, e.after, p) {
      match run
      case ArchiveRunOf(request, events) => ArchiveEventKeeps(hash, unzip, request, events, e, p);
      case DowngradeRunOf(request, raw, v1, events) => DowngradeEventKeeps(request, raw, v1, events, e, p);
      case BrokerActivity(events) =>
    }
    ChainKeeps(start, run.events, end, p);
  }

  lemma ArchiveEventKeeps(hash: Bytes -> Digest, unzip: Bytes -> Option<Zip>, request: Request, events: seq<Event>, e: Event, p: Path)
    requires ArchiveRun(hash, unzip, request, [], events) && e in events
    requires Outside(p) && p != request.destination && p != Temporary(request)
    ensures SameAt(e.before, e.after, p)
  {
    var middle: seq<Event> :| PreparedMore(request, [], middle) && RemovedMore(hash, unzip, request, middle, events);
    assert middle[0..] == middle && events == middle + events[|middle|..];
    if e in middle {
      assert Preparing(request, e);
    } else {
      assert Removing(hash, unzip, request, e);
    }
  }

  lemma DowngradeEventKeeps(request: DowngradeRequest, raw: Bytes, v1: Bytes, events: seq<Event>, e: Event, p: Path)
    requires DowngradedMore(request, raw, v1, [], events) && e in events
    requires Outside(p) && p != request.backup && p != StateTemporary(request)
    ensures SameAt(e.before, e.after, p)
  {
    assert events[0..] == events;
    assert Downgrading(request, raw, v1, e);
  }

  lemma PreparationsKeepLedgers(request: Request, middle: seq<Event>, p: Path)
    requires PreparedMore(request, [], middle) && p in Trio(request.kind) && request.destination !in Trio(request.kind)
    ensures forall q | 0 <= q < |middle| && middle[q].actor == Tool :: SameAt(middle[q].before, middle[q].after, p)
  {
    assert middle[0..] == middle;
    forall q | 0 <= q < |middle| && middle[q].actor == Tool ensures SameAt(middle[q].before, middle[q].after, p) {
      assert middle[q] in middle && Preparing(request, middle[q]);
    }
  }

  /** An event that deletes a ledger file comes after the preparations. */
  lemma DeletingIsRemoving(hash: Bytes -> Digest, unzip: Bytes -> Option<Zip>, request: Request, middle: seq<Event>, events: seq<Event>, k: nat, p: Path)
    requires PreparedMore(request, [], middle) && RemovedMore(hash, unzip, request, middle, events) && k < |events|
    requires request.destination !in Trio(request.kind)
    requires events[k].actor == Tool && p in Trio(request.kind) && p in events[k].before && p !in events[k].after
    ensures |middle| <= k && Removing(hash, unzip, request, events[k])
  {
    assert events == middle + events[|middle|..];
    PreparationsKeepLedgers(request, middle, p);
    assert forall q | 0 <= q < |middle| :: middle[q] == events[q];
    assert events[|middle|..][k - |middle|] == events[k];
  }

  /** A removal's archive holds at the removal and through the rest of its run, wherever it is kept. */
  lemma DeletionIsRestorable(hash: Bytes -> Digest, unzip: Bytes -> Option<Zip>, run: Run, start: Files, end: Files, e: Event, p: Path)
    requires RunOk(hash, unzip, run) && BrokerFiles.Chained(start, run.events, end)
    requires ToolDeletes(run, e, p)
    ensures RestorableIn(hash, unzip, e.after, run, e, p)
    ensures RestorableIn(hash, unzip, end, run, e, p)
    ensures p.part == Main ==> LedgerFile(run.request.kind, Wal) !in e.before && LedgerFile(run.request.kind, Shm) !in e.before
  {
    hide PreparedMore, RemovedMore, VerifiedArchive, ListsTrio, BrokerFiles.Chained;
    var request, events := run.request, run.events;
    var middle: seq<Event> :| PreparedMore(request, [], middle) && RemovedMore(hash, unzip, request, middle, events);
    var k :| 0 <= k < |events| && events[k] == e;
    DeletingIsRemoving(hash, unzip, request, middle, events, k, p);
    ChainSplits(start, events, end, k);
    forall later | later in events[k + 1..] ensures SameAt(later.before, later.after, request.destination) {
      RemovalKeepsArchive(hash, unzip, request, middle, events, k, later);
    }
    ChainKeeps(e.after, events[k + 1..], end, request.destination);
  }

  lemma RemovalKeepsArchive(hash: Bytes -> Digest, unzip: Bytes -> Option<Zip>, request: Request, middle: seq<Event>, events: seq<Event>, k: nat, later: Event)
    requires RemovedMore(hash, unzip, request, middle, events) && |middle| <= k < |events| && later in events[k + 1..]
    ensures SameAt(later.before, later.after, request.destination)
  {
    var i :| 0 <= i < |events[k + 1..]| && events[k + 1..][i] == later;
    assert events[|middle|..][k + 1 + i - |middle|] == later;
    assert Removing(hash, unzip, request, later);
  }

  lemma LastRun(hash: Bytes -> Digest, unzip: Bytes -> Option<Zip>, start: Files, runs: seq<Run>, end: Files) returns (middle: Files)
    requires RunsFrom(hash, unzip, start, runs, end) && runs != []
    ensures RunsFrom(hash, unzip, start, runs[..|runs| - 1], middle)
    ensures RunOk(hash, unzip, runs[|runs| - 1]) && BrokerFiles.Chained(middle, runs[|runs| - 1].events, end)
  {
    middle :| RunsFrom(hash, unzip, start, runs[..|runs| - 1], middle) && BrokerFiles.Chained(middle, runs[|runs| - 1].events, end);
  }

  lemma RunsSnoc(hash: Bytes -> Digest, unzip: Bytes -> Option<Zip>, start: Files, runs: seq<Run>, middle: Files, run: Run, end: Files)
    requires RunsFrom(hash, unzip, start, runs, middle) && RunOk(hash, unzip, run) && BrokerFiles.Chained(middle, run.events, end)
    ensures RunsFrom(hash, unzip, start, runs + [run], end)
  {
    hide BrokerFiles.Chained, RunOk;
    assert (runs + [run])[..|runs|] == runs;
  }

  /**
   * Over any sequence of runs, every ledger file a tool has deleted is restorable, at the end, from
   * the archive its run verified, if that archive is outside the broker's own files.
   */
  lemma {:induction false} DeletedLedgersStayRestorable(
    hash: Bytes -> Digest, unzip: Bytes -> Option<Zip>, start: Files, runs: seq<Run>, end: Files, i: nat, e: Event, p: Path)
    requires RunsFrom(hash, unzip, start, runs, end) && i < |runs|
    requires ToolDeletes(runs[i], e, p) && Outside(runs[i].request.destination)
    ensures RestorableIn(hash, unzip, end, runs[i], e, p)
    decreases |runs|
  {
    hide RunsFrom, RunOk, BrokerFiles.Chained, Restores;
    var front, last := runs[..|runs| - 1], runs[|runs| - 1];
    var middle := LastRun(hash, unzip, start, runs, end);
    if i == |front| {
      DeletionIsRestorable(hash, unzip, last, middle, end, e, p);
    } else {
      DeletedLedgersStayRestorable(hash, unzip, start, front, middle, i, e, p);
      RunKeepsOlderFile(hash, unzip, last, middle, end, runs[i].request.destination);
    }
  }

  /**
   * What can be read back at the end is the deleted file byte for byte, or the archived member and the
   * deleted file are two different byte strings of one size and one digest.
   */
  lemma DeletedLedgersComeBack(
    hash: Bytes -> Digest, unzip: Bytes -> Option<Zip>, start: Files, runs: seq<Run>, end: Files, i: nat, e: Event, p: Path)
    returns (archived: Bytes)
    requires RunsFrom(hash, unzip, start, runs, end) && i < |runs|
    requires ToolDeletes(runs[i], e, p) && Outside(runs[i].request.destination)
    ensures runs[i].request.destination in end && unzip(end[runs[i].request.destination]).Some?
    ensures p.part in unzip(end[runs[i].request.destination]).value.members
         && archived == unzip(end[runs[i].request.destination]).value.members[p.part]
    ensures archived == e.before[p] || (archived != e.before[p] && |archived| == |e.before[p]| && hash(archived) == hash(e.before[p]))
  {
    DeletedLedgersStayRestorable(hash, unzip, start, runs, end, i, e, p);
    archived := unzip(end[runs[i].request.destination]).value.members[p.part];
  }

  /** Whatever runs follow, in any number. */
  ghost predicate RestorableForever(hash: Bytes -> Digest, unzip: Bytes -> Option<Zip>, start: Files, runs: seq<Run>, i: nat, e: Event, p: Path)
    requires i < |runs| && runs[i].ArchiveRunOf? && p in e.before
  {
    forall more, later | RunsFrom(hash, unzip, start, runs + more, later) :: RestorableIn(hash, unzip, later, runs[i], e, p)
  }

  /** The exact condition: a deletion stays restorable whatever follows if and only if its archive is outside the broker's files. */
  lemma RestorableForeverIff(
    hash: Bytes -> Digest, unzip: Bytes -> Option<Zip>, start: Files, runs: seq<Run>, end: Files, i: nat, e: Event, p: Path)
    requires RunsFrom(hash, unzip, start, runs, end) && i < |runs| && ToolDeletes(runs[i], e, p)
    ensures RestorableForever(hash, unzip, start, runs, i, e, p) <==> Outside(runs[i].request.destination)
  {
    hide RunsFrom, Restores;
    var archive := runs[i].request.destination;
    if Outside(archive) {
      forall more, later | RunsFrom(hash, unzip, start, runs + more, later) ensures RestorableIn(hash, unzip, later, runs[i], e, p) {
        assert (runs + more)[i] == runs[i];
        DeletedLedgersStayRestorable(hash, unzip, start, runs + more, later, i, e, p);
      }
    } else {
      var deletion := BrokerActivity([Event(Other, end, end - {archive})]);
      OneEvent(end, deletion.events[0]);
      RunsSnoc(hash, unzip, start, runs, end, deletion, end - {archive});
      assert !RestorableIn(hash, unzip, end - {archive}, runs[i], e, p);
    }
  }

  lemma OneEvent(start: Files, e: Event)
    requires e.before == start
    ensures BrokerFiles.Chained(start, [e], e.after)
  {
    ChainedSnoc(start, [], start, e);
    assert [] + [e] == [e];
  }

  // ----- crashes

  function Cut(run: Run, k: nat): Run
    requires k <= |run.events|
  {
    run.(events := run.events[..k])
  }

  /** A run cut off after any of its changes is still a run of the same kind. */
  lemma CrashedRunIsRun(hash: Bytes -> Digest, unzip: Bytes -> Option<Zip>, run: Run, k: nat)
    requires RunOk(hash, unzip, run) && k <= |run.events|
    ensures RunOk(hash, unzip, Cut(run, k))
  {
    hide ArchiveRun, DowngradeStart, RequestAccepted, Preparing;
    match run
    case ArchiveRunOf(request, events) =>
      CrashedArchive(hash, unzip, request, events, k);
      if !request.removeSource { CutPreparations(request, events, k); }
    case DowngradeRunOf(request, raw, v1, events) => assert events[0..] == events && events[..k][0..] == events[..k];
    case BrokerActivity(events) =>
  }

  lemma CrashedArchive(hash: Bytes -> Digest, unzip: Bytes -> Option<Zip>, request: Request, events: seq<Event>, k: nat)
    requires ArchiveRun(hash, unzip, request, [], events) && k <= |events|
    ensures ArchiveRun(hash, unzip, request, [], events[..k])
  {
    hide PreparedMore, RemovedMore;
    var middle: seq<Event> :| PreparedMore(request, [], middle) && RemovedMore(hash, unzip, request, middle, events);
    var cut := if k <= |middle| then events[..k] else middle;
    CutPreparations(request, middle, k);
    CutRemovals(hash, unzip, request, middle, events, k);
    assert PreparedMore(request, [], cut) && RemovedMore(hash, unzip, request, cut, events[..k]);
  }

  lemma CutPreparations(request: Request, middle: seq<Event>, k: nat)
    requires PreparedMore(request, [], middle)
    ensures k <= |middle| ==> PreparedMore(request, [], middle[..k])
  {
    hide Preparing;
    assert middle[0..] == middle;
    if k <= |middle| {
      assert middle[..k][0..] == middle[..k];
      assert forall e | e in middle[..k] :: e in middle;
    }
  }

  lemma CutRemovals(hash: Bytes -> Digest, unzip: Bytes -> Option<Zip>, request: Request, middle: seq<Event>, events: seq<Event>, k: nat)
    requires RemovedMore(hash, unzip, request, middle, events) && k <= |events|
    ensures if k <= |middle| then events[..k] == middle[..k] && RemovedMore(hash, unzip, request, events[..k], events[..k])
            else RemovedMore(hash, unzip, request, middle, events[..k])
  {
    hide Removing;
    assert events == middle + events[|middle|..];
    if k > |middle| {
      assert events[..k][|middle|..] == events[|middle|..][..k - |middle|];
    }
  }

  lemma {:induction false} ChainCut(start: Files, events: seq<Event>, end: Files, k: nat) returns (now: Files)
    requires BrokerFiles.Chained(start, events, end) && k <= |events|
    ensures BrokerFiles.Chained(start, events[..k], now)
    ensures (k < |events| ==> now == events[k].before) && (k > 0 ==> now == events[k - 1].after)
  {
    if k == |events| {
      now := end;
      assert events[..k] == events;
    } else {
      var front, last := events[..|events| - 1], events[|events| - 1];
      now := ChainCut(start, front, last.before, k);
      assert front[..k] == events[..k];
    }
  }

  /** A sequence of runs stopped inside run `j` after `k` of its changes is again a sequence of runs. */
  lemma {:induction false} RunsCut(hash: Bytes -> Digest, unzip: Bytes -> Option<Zip>, start: Files, runs: seq<Run>, end: Files, j: nat, k: nat)
    returns (now: Files)
    requires RunsFrom(hash, unzip, start, runs, end) && j < |runs| && k <= |runs[j].events|
    ensures RunsFrom(hash, unzip, start, runs[..j] + [Cut(runs[j], k)], now)
    ensures (k < |runs[j].events| ==> now == runs[j].events[k].before) && (k > 0 ==> now == runs[j].events[k - 1].after)
    decreases |runs|
  {
    hide RunsFrom, RunOk, BrokerFiles.Chained;
    var front, last := runs[..|runs| - 1], runs[|runs| - 1];
    var middle := LastRun(hash, unzip, start, runs, end);
    if j < |front| {
      now := RunsCut(hash, unzip, start, front, middle, j, k);
      assert front[..j] == runs[..j];
    } else {
      now := ChainCut(middle, last.events, end, k);
      CrashedRunIsRun(hash, unzip, last, k);
      RunsSnoc(hash, unzip, start, front, middle, Cut(last, k), now);
      assert front == runs[..j];
    }
  }

  // ----- every step

  /** Change `m` of run `i` deletes a ledger file before change `k` of run `j`. */
  ghost predicate DeletedBefore(runs: seq<Run>, i: nat, m: nat, j: nat, k: nat, p: Path) {
    && i <= j < |runs| && k <= |runs[j].events| && m < |runs[i].events| && (i == j ==> m < k)
    && ToolDeletes(runs[i], runs[i].events[m], p)
  }

  /** At every step of every run, all earlier deletions with an archive outside the broker's files are restorable. */
  lemma LedgersRestorableAtEveryStep(
    hash: Bytes -> Digest, unzip: Bytes -> Option<Zip>, start: Files, runs: seq<Run>, end: Files, i: nat, m: nat, j: nat, k: nat, p: Path)
    returns (now: Files)
    requires RunsFrom(hash, unzip, start, runs, end) && DeletedBefore(runs, i, m, j, k, p) && Outside(runs[i].request.destination)
    ensures RunsFrom(hash, unzip, start, runs[..j] + [Cut(runs[j], k)], now)
    ensures (k < |runs[j].events| ==> now == runs[j].events[k].before) && (k > 0 ==> now == runs[j].events[k - 1].after)
    ensures RestorableIn(hash, unzip, now, runs[i], runs[i].events[m], p)
  {
    hide RunsFrom, Restores;
    var cut := runs[..j] + [Cut(runs[j], k)];
    var e := runs[i].events[m];
    now := RunsCut(hash, unzip, start, runs, end, j, k);
    if i == j { assert cut[i].events[m] == e; }
    assert ToolDeletes(cut[i], e, p);
    DeletedLedgersStayRestorable(hash, unzip, start, cut, now, i, e, p);
  }

  /** Schema v1 replaces exactly the backed-up bytes, and no ledger file is left but possibly the backup itself. */
  ghost predicate GuardedWrite(run: Run, e: Event) {
    && run.DowngradeRunOf?
    && BrokerState in e.before && e.before[BrokerState] == run.raw
    && BrokerState in e.after && e.after[BrokerState] == run.v1
    && run.downgrade.backup in e.before && e.before[run.downgrade.backup] == run.raw
    && NoLedgersBut(e.before, run.downgrade.backup)
  }

  /** An existing state file that no archive run was told to write to. */
  ghost predicate ChangesState(run: Run, e: Event) {
    && e.actor == Tool && BrokerState in e.before && !SameAt(e.before, e.after, BrokerState)
    && (run.ArchiveRunOf? ==> run.request.destination != BrokerState)
  }

  /**
   * In any sequence of runs a tool changes the state file only by the guarded write of a downgrade, and at
   * that moment every ledger file deleted so far can be restored from its archive.
   */
  lemma StateChangesAreGuarded(hash: Bytes -> Digest, unzip: Bytes -> Option<Zip>, start: Files, runs: seq<Run>, end: Files, j: nat, k: nat)
    requires RunsFrom(hash, unzip, start, runs, end) && j < |runs| && k < |runs[j].events| && ChangesState(runs[j], runs[j].events[k])
    ensures GuardedWrite(runs[j], runs[j].events[k])
    ensures forall i: nat, m: nat, p | DeletedBefore(runs, i, m, j, k, p) && Outside(runs[i].request.destination) ::
              RestorableIn(hash, unzip, runs[j].events[k].before, runs[i], runs[i].events[m], p)
  {
    hide RunsFrom, RunOk, Restores, GuardedWrite, ChangesState;
    RunAt(hash, unzip, start, runs, end, j);
    StateChangeIsGuarded(hash, unzip, runs[j], runs[j].events[k]);
    forall i: nat, m: nat, p | DeletedBefore(runs, i, m, j, k, p) && Outside(runs[i].request.destination)
      ensures RestorableIn(hash, unzip, runs[j].events[k].before, runs[i], runs[i].events[m], p)
    {
      var now := LedgersRestorableAtEveryStep(hash, unzip, start, runs, end, i, m, j, k, p);
    }
  }

  lemma {:induction false} RunAt(hash: Bytes -> Digest, unzip: Bytes -> Option<Zip>, start: Files, runs: seq<Run>, end: Files, j: nat)
    requires RunsFrom(hash, unzip, start, runs, end) && j < |runs|
    ensures RunOk(hash, unzip, runs[j])
    decreases |runs|
  {
    hide RunsFrom, RunOk;
    var middle := LastRun(hash, unzip, start, runs, end);
    if j < |runs| - 1 { RunAt(hash, unzip, start, runs[..|runs| - 1], middle, j); }
  }

  lemma StateChangeIsGuarded(hash: Bytes -> Digest, unzip: Bytes -> Option<Zip>, run: Run, e: Event)
    requires RunOk(hash, unzip, run) && e in run.events && ChangesState(run, e)
    ensures GuardedWrite(run, e)
  {
    match run
    case ArchiveRunOf(request, events) =>
      ArchiveLeavesState(hash, unzip, request, events, e);
    case DowngradeRunOf(request, raw, v1, events) =>
      assert events[0..] == events;
      assert Downgrading(request, raw, v1, e);
    case BrokerActivity(events) =>
  }

  lemma ArchiveLeavesState(hash: Bytes -> Digest, unzip: Bytes -> Option<Zip>, request: Request, events: seq<Event>, e: Event)
    requires ArchiveRun(hash, unzip, request, [], events) && e in events && e.actor == Tool && request.destination != BrokerState
    ensures SameAt(e.before, e.after, BrokerState)
  {
    var middle: seq<Event> :| PreparedMore(request, [], middle) && RemovedMore(hash, unzip, request, middle, events);
    assert middle[0..] == middle && events == middle + events[|middle|..];
    if e in middle {
      assert Preparing(request, e);
    } else {
      assert Removing(hash, unzip, request, e);
    }
  }

  // ----- an archive kept among the broker's files

  const CONTROL := LedgerFile(Control, Main)
  const EXECUTION := LedgerFile(Execution, Main)
  const EXECUTION_WAL := LedgerFile(Execution, Wal)
  const EXPORT := OtherPath("audit.json")

  /** The control ledger's archive, requested at the path of the execution ledger's log. */
  const CONTROL_REQUEST := Request(Control, EXECUTION_WAL, 0, AuditExport(EXPORT, [0], true, 0, 0), true, false, true)
  const EXECUTION_REQUEST := Request(Execution, OtherPath("execution.zip"), 1, AuditExport(EXPORT, [0], true, 0, 0), true, false, false)

  const BROKER: Files := map[CONTROL := [1], EXECUTION := [3], EXPORT := [0]]
  const ZIPPED: Files := BROKER[Temporary(CONTROL_REQUEST) := [2]]
  const COPIED: Files := ZIPPED[EXECUTION_WAL := [2]]
  const ARCHIVED: Files := COPIED - {Temporary(CONTROL_REQUEST)}
  const REMOVED: Files := ARCHIVED - {CONTROL}

  const CONTROL_MANIFEST :=
    Manifest(Control, true, [Entry(Main, true, 1, Digest(1)), Entry(Wal, false, 0, Digest(0)), Entry(Shm, false, 0, Digest(0))])

  const CONTROL_EVENTS :=
    [Event(Sqlite, BROKER, BROKER), Event(Tool, BROKER, ZIPPED), Event(Tool, ZIPPED, COPIED), Event(Tool, COPIED, ARCHIVED)]

  const DELETION := Event(Tool, ARCHIVED, REMOVED)

  /** The execution ledger's checkpoint empties its log by removing it. */
  const CHECKPOINT := Event(Sqlite, REMOVED, REMOVED - {EXECUTION_WAL})

  function LengthHash(content: Bytes): Digest { Digest(|content|) }

  function ReadZip(content: Bytes): Option<Zip> {
    if content == [2] then Some(Zip(CONTROL_MANIFEST, [0], map[Main := [1]])) else None
  }

  /**
   * Why archives must be kept outside the broker's files, with nothing but the two archivers at work. The control
   * archiver accepts the execution ledger's log as its destination, verifies the archive there and deletes the
   * control ledger; then the execution archiver is accepted as well, and its checkpoint removes the log.
   */
  lemma ArchiveInsideBrokerIsLost()
    ensures RequestAccepted(CONTROL_REQUEST, BROKER) && RequestAccepted(EXECUTION_REQUEST, REMOVED)
    ensures ListsTrio(CONTROL_MANIFEST) && VerifiedArchive(LengthHash, ReadZip, CONTROL_REQUEST, CONTROL_MANIFEST, ARCHIVED[EXECUTION_WAL])
    ensures var runs := [ArchiveRunOf(CONTROL_REQUEST, CONTROL_EVENTS + [DELETION]), ArchiveRunOf(EXECUTION_REQUEST, [CHECKPOINT])];
            && RunsFrom(LengthHash, ReadZip, BROKER, runs, CHECKPOINT.after)
            && ToolDeletes(runs[0], DELETION, CONTROL)
            && RestorableIn(LengthHash, ReadZip, DELETION.after, runs[0], DELETION, CONTROL)
            && !RestorableIn(LengthHash, ReadZip, CHECKPOINT.after, runs[0], DELETION, CONTROL)
  {
    hide RunsFrom, RequestAccepted, VerifiedArchive, Restores;
    BothAccepted();
    ControlIsArchived();
    BothRun();
    ControlIsLost();
  }

  lemma BothAccepted()
    ensures RequestAccepted(CONTROL_REQUEST, BROKER) && RequestAccepted(EXECUTION_REQUEST, REMOVED)
  {
  }

  lemma BothRun()
    ensures RunsFrom(LengthHash, ReadZip, BROKER,
              [ArchiveRunOf(CONTROL_REQUEST, CONTROL_EVENTS + [DELETION]), ArchiveRunOf(EXECUTION_REQUEST, [CHECKPOINT])], CHECKPOINT.after)
  {
    hide RunsFrom, RunOk, BrokerFiles.Chained;
    var first, second := ArchiveRunOf(CONTROL_REQUEST, CONTROL_EVENTS + [DELETION]), ArchiveRunOf(EXECUTION_REQUEST, [CHECKPOINT]);
    assert [] + [first] == [first] && [first] + [second] == [first, second];
    ControlRun();
    ExecutionRun();
    NoRuns(BROKER);
    RunsSnoc(LengthHash, ReadZip, BROKER, [], BROKER, first, REMOVED);
    RunsSnoc(LengthHash, ReadZip, BROKER, [first], REMOVED, second, CHECKPOINT.after);
  }

  lemma ControlIsLost()
    ensures var run := ArchiveRunOf(CONTROL_REQUEST, CONTROL_EVENTS + [DELETION]);
            && ToolDeletes(run, DELETION, CONTROL)
            && RestorableIn(LengthHash, ReadZip, DELETION.after, run, DELETION, CONTROL)
            && !RestorableIn(LengthHash, ReadZip, CHECKPOINT.after, run, DELETION, CONTROL)
  {
    assert DELETION in CONTROL_EVENTS + [DELETION];
    assert REMOVED[EXECUTION_WAL] == [2];
  }

  lemma NoRuns(start: Files)
    ensures RunsFrom(LengthHash, ReadZip, start, [], start)
  {
  }

  lemma ControlIsArchived()
    ensures ListsTrio(CONTROL_MANIFEST) && VerifiedArchive(LengthHash, ReadZip, CONTROL_REQUEST, CONTROL_MANIFEST, [2])
  {
    var entry := CONTROL_MANIFEST.files[0];
    assert entry in CONTROL_MANIFEST.files && entry.present && entry.part == Main;
  }

  /** Preparations and one removal make an archive run. */
  lemma PreparedThenRemoved(hash: Bytes -> Digest, unzip: Bytes -> Option<Zip>, request: Request, prepared: seq<Event>, removal: Event)
    requires PreparedMore(request, [], prepared) && Removing(hash, unzip, request, removal) && prepared != []
    requires RequestAccepted(request, prepared[0].before) && Temporary(request) !in prepared[0].before && request.removeSource
    ensures RunOk(hash, unzip, ArchiveRunOf(request, prepared + [removal]))
  {
    hide PreparedMore, Removing, RequestAccepted;
    assert (prepared + [removal])[|prepared|..] == [removal];
    assert RemovedMore(hash, unzip, request, prepared, prepared + [removal]);
  }

  lemma ControlRun()
    ensures RunOk(LengthHash, ReadZip, ArchiveRunOf(CONTROL_REQUEST, CONTROL_EVENTS + [DELETION]))
    ensures BrokerFiles.Chained(BROKER, CONTROL_EVENTS + [DELETION], REMOVED)
  {
    hide BrokerFiles.Chained, RunOk, Removing, PreparedMore;
    ControlPrepares();
    ControlRemoves();
    ControlChains();
    PreparedThenRemoved(LengthHash, ReadZip, CONTROL_REQUEST, CONTROL_EVENTS, DELETION);
  }

  lemma ControlPrepares()
    ensures PreparedMore(CONTROL_REQUEST, [], CONTROL_EVENTS)
  {
    hide Preparing;
    EachPrepares(CONTROL_REQUEST);
    assert CONTROL_EVENTS[0..] == CONTROL_EVENTS;
    assert forall e | e in CONTROL_EVENTS :: Preparing(CONTROL_REQUEST, e);
  }

  lemma EachPrepares(request: Request)
    requires request == CONTROL_REQUEST
    ensures forall i | 0 <= i < 4 :: Preparing(request, CONTROL_EVENTS[i])
  {
  }

  lemma ControlRemoves()
    ensures Removing(LengthHash, ReadZip, CONTROL_REQUEST, DELETION)
  {
    hide Removing, RemovalSafe;
    ControlIsSafe();
    SafeRemoval(LengthHash, ReadZip, CONTROL_REQUEST, CONTROL_MANIFEST, ARCHIVED, Main);
  }

  lemma ControlIsSafe()
    ensures RemovalSafe(LengthHash, ReadZip, CONTROL_REQUEST, CONTROL_MANIFEST, ARCHIVED)
  {
    hide VerifiedArchive;
    ControlIsArchived();
  }

  lemma ControlChains()
    ensures BrokerFiles.Chained(BROKER, CONTROL_EVENTS + [DELETION], REMOVED)
  {
    hide BrokerFiles.Chained;
    assert CONTROL_EVENTS[..1] == [CONTROL_EVENTS[0]] && CONTROL_EVENTS[..2] == CONTROL_EVENTS[..1] + [CONTROL_EVENTS[1]];
    assert CONTROL_EVENTS[..3] == CONTROL_EVENTS[..2] + [CONTROL_EVENTS[2]] && CONTROL_EVENTS == CONTROL_EVENTS[..3] + [CONTROL_EVENTS[3]];
    OneEvent(BROKER, CONTROL_EVENTS[0]);
    ChainedSnoc(BROKER, CONTROL_EVENTS[..1], BROKER, CONTROL_EVENTS[1]);
    ChainedSnoc(BROKER, CONTROL_EVENTS[..2], ZIPPED, CONTROL_EVENTS[2]);
    ChainedSnoc(BROKER, CONTROL_EVENTS[..3], COPIED, CONTROL_EVENTS[3]);
    ChainedSnoc(BROKER, CONTROL_EVENTS, ARCHIVED, DELETION);
  }

  lemma ExecutionRun()
    ensures RunOk(LengthHash, ReadZip, ArchiveRunOf(EXECUTION_REQUEST, [CHECKPOINT]))
    ensures BrokerFiles.Chained(REMOVED, [CHECKPOINT], CHECKPOINT.after)
  {
    OneEvent(REMOVED, CHECKPOINT);
    assert [CHECKPOINT][0..] == [CHECKPOINT] && Preparing(EXECUTION_REQUEST, CHECKPOINT);
    assert PreparedMore(EXECUTION_REQUEST, [], [CHECKPOINT]);
    RemovedNothing(LengthHash, ReadZip, EXECUTION_REQUEST, [CHECKPOINT]);
  }
}
