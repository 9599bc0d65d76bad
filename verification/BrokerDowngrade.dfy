/** Downgrading the broker state to schema v1: checks, exclusive backup, atomic replace. */
module BrokerDowngrade {
  import opened Results
  import opened BrokerFiles
  import opened LedgerArchive

  const MAX_BROKER_STATE_BYTES := 1024 * 1024

  datatype DowngradeError =
    | LedgersPresent
    | BackupIsState
    | StateUnreadable
    | StateNotV2
    | VaultInvalid
    | DropNotConfirmed
    | BackupExists
    | BackupFailed
    | StateTooLarge
    | WriteFailed

  /** The state as parsed: its schema, whether its vault backend is known, and what it binds. */
  datatype StateDocument = StateDocument(schemaV2: bool, vaultKnown: bool, accounts: seq<string>, credentials: seq<string>)

  datatype DowngradeReport = DowngradeReport(droppedAccounts: nat, retainedCredentials: nat)

  datatype DowngradeRequest = DowngradeRequest(backup: Path, nonce: nat, confirmDrop: bool)

  function StateTemporary(request: DowngradeRequest): Path { TemporaryOf(BrokerState, request.nonce) }

  /** No ledger file of any kind exists, except possibly the backup itself. */
  ghost predicate NoLedgersBut(files: Files, exempt: Path) {
    forall p: Path | p.LedgerFile? && p in files :: p == exempt
  }

  /** Other processes leave the state, the backup and everything outside the broker alone; no ledger file appears. */
  ghost predicate StandsBy(request: DowngradeRequest, before: Files, after: Files) {
    && SameAt(before, after, request.backup) && SameAt(before, after, StateTemporary(request))
    && (forall p: Path | !p.LedgerFile? :: SameAt(before, after, p))
    && (forall p: Path | p.LedgerFile? && p in after :: p in before)
  }

  /**
   * One change of a downgrade run. The state changes once, in one step, from the old bytes to the new
   * ones, when the backup holds the old bytes and no ledger file exists.
   */
  ghost predicate Downgrading(request: DowngradeRequest, raw: Bytes, v1: Bytes, e: Event) {
    match e.actor
    case Sqlite => false
    case Other => StandsBy(request, e.before, e.after)
    case Tool =>
      || ChangesOnly(e.before, e.after, {request.backup, StateTemporary(request)})
      || (&& ChangesOnly(e.before, e.after, {StateTemporary(request), BrokerState})
          && BrokerState in e.before && e.before[BrokerState] == raw
          && BrokerState in e.after && e.after[BrokerState] == v1
          && request.backup in e.before && e.before[request.backup] == raw
          && NoLedgersBut(e.before, request.backup))
  }

  ghost predicate DowngradedMore(request: DowngradeRequest, raw: Bytes, v1: Bytes, before: seq<Event>, after: seq<Event>) {
    before <= after && forall e | e in after[|before|..] :: Downgrading(request, raw, v1, e)
  }

  lemma DowngradedSnoc(request: DowngradeRequest, raw: Bytes, v1: Bytes, before: seq<Event>, after: seq<Event>, e: Event)
    requires DowngradedMore(request, raw, v1, before, after) && Downgrading(request, raw, v1, e)
    ensures DowngradedMore(request, raw, v1, before, after + [e])
  {
    assert (after + [e])[|before|..] == after[|before|..] + [e];
  }

  /** What the tool checks before it writes anything. */
  predicate DowngradeAccepted(request: DowngradeRequest, parse: Bytes -> Option<StateDocument>, files: Files) {
    && (forall p | p in files :: !p.LedgerFile?)
    && request.backup != BrokerState && request.backup !in files
    && BrokerState in files && parse(files[BrokerState]).Some?
    && var state := parse(files[BrokerState]).value;
       && state.schemaV2 && state.vaultKnown
       && (state.accounts != [] ==> request.confirmDrop)
  }

  /** Why a downgrade is refused: what each error says of the request and the files. */
  ghost predicate DowngradeRefusal(error: DowngradeError, request: DowngradeRequest, parse: Bytes -> Option<StateDocument>, files: Files) {
    match error
    case LedgersPresent => exists kind, part :: LedgerFile(kind, part) in files
    case BackupIsState => request.backup == BrokerState
    case StateUnreadable => BrokerState !in files
    case StateNotV2 => BrokerState in files && (parse(files[BrokerState]).None? || !parse(files[BrokerState]).value.schemaV2)
    case VaultInvalid => BrokerState in files && parse(files[BrokerState]).Some? && !parse(files[BrokerState]).value.vaultKnown
    case DropNotConfirmed =>
      BrokerState in files && parse(files[BrokerState]).Some? && parse(files[BrokerState]).value.accounts != [] && !request.confirmDrop
    case BackupExists => request.backup in files
    case _ => false
  }

  /** Something stands in the way of a downgrade. */
  ghost predicate Obstructed(request: DowngradeRequest, parse: Bytes -> Option<StateDocument>, files: Files) {
    exists error: DowngradeError :: DowngradeRefusal(error, request, parse, files)
  }

  lemma LedgerPresent(files: Files)
    ensures (exists p | p in files :: p.LedgerFile?) <==> exists kind, part :: LedgerFile(kind, part) in files
  {
    if exists p | p in files :: p.LedgerFile? {
      var p :| p in files && p.LedgerFile?;
      assert LedgerFile(p.kind, p.part) in files;
    }
  }

  method CheckDowngrade(request: DowngradeRequest, parse: Bytes -> Option<StateDocument>, files: Files)
    returns (r: Option<DowngradeError>)
    ensures r.None? <==> DowngradeAccepted(request, parse, files)
    ensures r.None? ==> !Obstructed(request, parse, files)
    ensures r.Some? ==> DowngradeRefusal(r.value, request, parse, files)
  {
    LedgerPresent(files);
    if exists p | p in files :: p.LedgerFile? {
      return Some(LedgersPresent);
    }
    if request.backup == BrokerState {
      return Some(BackupIsState);
    }
    if BrokerState !in files {
      return Some(StateUnreadable);
    }
    var value := parse(files[BrokerState]);
    if value.None? || !value.value.schemaV2 {
      return Some(StateNotV2);
    }
    if !value.value.vaultKnown {
      return Some(VaultInvalid);
    }
    if value.value.accounts != [] && !request.confirmDrop {
      return Some(DropNotConfirmed);
    }
    if request.backup in files {
      return Some(BackupExists);
    }
    return None;
  }

  /** Another process acts during the downgrade. */
  method OthersStandBy(host: BrokerHost, request: DowngradeRequest)
    requires host.Valid()
    modifies host
    ensures host.Valid() && StandsBy(request, old(host.files), host.files)
    ensures host.events == old(host.events) + [Event(Other, old(host.files), host.files)]
  {
    var dropped: set<Path> := *;
    ghost var before := host.files;
    host.files := host.files - (set p | p in dropped && p.LedgerFile? && p != request.backup);
    ghost var e := Event(Other, before, host.files);
    ChainedSnoc(host.origin, host.events, before, e);
    host.events := host.events + [e];
  }

  /**
   * One downgrade run. The state file is wholly old or wholly new at every step, new only with a
   * backup equal to the old bytes; every failure leaves it old.
   */
  method DowngradeState(host: BrokerHost, request: DowngradeRequest, parse: Bytes -> Option<StateDocument>, encode: StateDocument -> Bytes)
    returns (r: Result<DowngradeReport, DowngradeError>)
    requires host.Valid() && StateTemporary(request) !in host.files && request.backup != StateTemporary(request)
    modifies host
    ensures host.Valid()
    ensures old(Obstructed(request, parse, host.files)) ==>
              && r.Failure? && host.files == old(host.files) && host.events == old(host.events)
              && DowngradeRefusal(r.error, request, parse, old(host.files))
    ensures !old(Obstructed(request, parse, host.files)) ==>
              && BrokerState in old(host.files) && parse(old(host.files)[BrokerState]).Some?
              && var raw := old(host.files[BrokerState]);
                 var state := parse(raw).value;
                 var v1 := encode(StateDocument(false, state.vaultKnown, [], state.credentials));
                 && DowngradedMore(request, raw, v1, old(host.events), host.events)
                 && BrokerState in host.files
                 && (r.Failure? ==>
                       && host.files[BrokerState] == raw && (r.error == BackupFailed || r.error == StateTooLarge || r.error == WriteFailed)
                       && (r.error == StateTooLarge ==> |v1| > 1024 * 1024))
                 && (r.Success? ==>
                       && host.files[BrokerState] == v1 && |v1| <= 1024 * 1024
                       && request.backup in host.files && host.files[request.backup] == raw
                       && NoLedgersBut(host.files, request.backup)
                       && r.value == DowngradeReport(|state.accounts|, |state.credentials|))
  {
    var rejected := CheckDowngrade(request, parse, host.files);
    if rejected.Some? {
      return Failure(rejected.value);
    }
    var raw := host.files[BrokerState];
    var state := parse(raw).value;
    var v1 := encode(state.(schemaV2 := false, accounts := []));
    ghost var start, entry := host.events, host.files;
    OthersStandBy(host, request);
    DowngradedSnoc(request, raw, v1, start, start, Event(Other, entry, host.files));
    ghost var checked := host.files;
    StandingBy(request, entry, checked, raw);
    var backedUp := BackUp(host, request, raw, v1, start);
    assert SameAt(checked, host.files, BrokerState) && SameAt(checked, host.files, StateTemporary(request));
    NoLedgersAfter(checked, host.files, {request.backup}, request.backup);
    if !backedUp {
      return Failure(BackupFailed);
    }
    if |v1| > MAX_BROKER_STATE_BYTES {
      return Failure(StateTooLarge);
    }
    ghost var saved := host.files;
    var replaced := ReplaceState(host, request, raw, v1, start);
    assert SameAt(saved, host.files, request.backup);
    NoLedgersAfter(saved, host.files, {StateTemporary(request), BrokerState}, request.backup);
    if !replaced {
      return Failure(WriteFailed);
    }
    return Success(DowngradeReport(|state.accounts|, |state.credentials|));
  }

  lemma StandingBy(request: DowngradeRequest, before: Files, after: Files, raw: Bytes)
    requires StandsBy(request, before, after) && BrokerState in before && before[BrokerState] == raw
    requires request.backup !in before && StateTemporary(request) !in before
    requires forall p | p in before :: !p.LedgerFile?
    ensures BrokerState in after && after[BrokerState] == raw
    ensures request.backup !in after && StateTemporary(request) !in after && NoLedgersBut(after, request.backup)
  {
    assert SameAt(before, after, BrokerState);
  }

  lemma NoLedgersAfter(before: Files, after: Files, changed: set<Path>, exempt: Path)
    requires ChangesOnly(before, after, changed) && NoLedgersBut(before, exempt)
    requires forall p | p in changed && p.LedgerFile? :: p == exempt
    ensures NoLedgersBut(after, exempt)
  {
    forall p: Path | p.LedgerFile? && p in after ensures p == exempt {
      if p !in changed { assert SameAt(before, after, p); }
    }
  }

  /** The exclusive backup; a failed write leaves a partial file behind. */
  method BackUp(host: BrokerHost, request: DowngradeRequest, raw: Bytes, ghost v1: Bytes, ghost start: seq<Event>) returns (ok: bool)
    requires host.Valid() && request.backup !in host.files && request.backup != BrokerState
    requires DowngradedMore(request, raw, v1, start, host.events)
    modifies host
    ensures host.Valid() && DowngradedMore(request, raw, v1, start, host.events)
    ensures ChangesOnly(old(host.files), host.files, {request.backup})
    ensures ok ==> request.backup in host.files && host.files[request.backup] == raw
  {
    var created: bool := *;
    if !created {
      return false;
    }
    var flushed: bool := *;
    var partial: Bytes := *;
    var content := if flushed then raw else partial;
    DowngradedSnoc(request, raw, v1, start, host.events, Event(Tool, host.files, host.files[request.backup := content]));
    host.Write(request.backup, content);
    return flushed;
  }

  /** `_atomic_write`: an exclusive temporary, then one replace. */
  method ReplaceState(host: BrokerHost, request: DowngradeRequest, raw: Bytes, v1: Bytes, ghost start: seq<Event>) returns (ok: bool)
    requires host.Valid() && StateTemporary(request) !in host.files && request.backup != StateTemporary(request)
    requires BrokerState in host.files && host.files[BrokerState] == raw && request.backup != BrokerState
    requires request.backup in host.files && host.files[request.backup] == raw && NoLedgersBut(host.files, request.backup)
    requires DowngradedMore(request, raw, v1, start, host.events)
    modifies host
    ensures host.Valid() && DowngradedMore(request, raw, v1, start, host.events)
    ensures ChangesOnly(old(host.files), host.files, {StateTemporary(request), BrokerState})
    ensures BrokerState in host.files && host.files[BrokerState] == if ok then v1 else raw
  {
    hide DowngradedMore, Downgrading, NoLedgersBut, BrokerFiles.Chained;
    var created: bool := *;
    if !created {
      return false;
    }
    var temporary := StateTemporary(request);
    var flushed: bool := *;
    var partial: Bytes := *;
    var content := if flushed then v1 else partial;
    ghost var before := host.files;
    TemporaryIsOwn(request, raw, v1, before, before[temporary := content]);
    DowngradedSnoc(request, raw, v1, start, host.events, Event(Tool, before, before[temporary := content]));
    host.Write(temporary, content);
    NoLedgersAfter(before, host.files, {temporary}, request.backup);
    var replaced: bool := *;
    if flushed && replaced {
      Replace(host, request, raw, v1, start);
      return true;
    }
    var unlinked: bool := *;
    if unlinked {
      TemporaryIsOwn(request, raw, v1, host.files, host.files - {temporary});
      DowngradedSnoc(request, raw, v1, start, host.events, Event(Tool, host.files, host.files - {temporary}));
      host.Unlink(temporary);
    }
    return false;
  }

  lemma TemporaryIsOwn(request: DowngradeRequest, raw: Bytes, v1: Bytes, before: Files, after: Files)
    requires ChangesOnly(before, after, {StateTemporary(request)})
    ensures Downgrading(request, raw, v1, Event(Tool, before, after))
  {
  }

  /** The rename over the state file: the one step in which it changes. */
  method Replace(host: BrokerHost, request: DowngradeRequest, raw: Bytes, v1: Bytes, ghost start: seq<Event>)
    requires host.Valid() && request.backup != StateTemporary(request) && request.backup != BrokerState
    requires BrokerState in host.files && host.files[BrokerState] == raw
    requires StateTemporary(request) in host.files && host.files[StateTemporary(request)] == v1
    requires request.backup in host.files && host.files[request.backup] == raw && NoLedgersBut(host.files, request.backup)
    requires DowngradedMore(request, raw, v1, start, host.events)
    modifies host
    ensures host.Valid() && DowngradedMore(request, raw, v1, start, host.events)
    ensures host.files == old(host.files)[BrokerState := v1] - {StateTemporary(request)}
  {
    hide DowngradedMore, BrokerFiles.Chained;
    ghost var before := host.files;
    host.files := host.files[BrokerState := host.files[StateTemporary(request)]] - {StateTemporary(request)};
    ghost var e := Event(Tool, before, host.files);
    ChainedSnoc(host.origin, host.events, before, e);
    DowngradedSnoc(request, raw, v1, start, host.events, e);
    host.events := host.events + [e];
  }
}
