/**
 * Archiving a killed ledger: seal, copy, verify, then remove. Every step can fail, other processes
 * run in between, and what the zip writer and the copy produce is arbitrary until it is verified.
 */
module LedgerArchive {
  import opened Results
  import opened BrokerFiles

  const MAX_ARCHIVE_SOURCE_BYTES := 256 * 1024 * 1024
  const MAX_AUDIT_EXPORT_BYTES := 16 * 1024 * 1024

  datatype ArchiveError =
    | ConfirmationRequired
    | AuditUnavailable
    | DestinationExists
    | LedgerUnavailable
    | PathsOverlap
    | AuditSizeInvalid
    | NotKilled
    | UnresolvedOrders
    | BrokerRunning
    | ProjectionChanged
    | SourceTooLarge
    | ArchiveWriteFailed
    | ArchiveInvalid
    | TemporaryNotRemoved
    | SourceChanged
    | RemovalIncomplete

  /** The audit export: where it is, its bytes, and what they prove. */
  datatype AuditExport = AuditExport(path: Path, payload: Bytes, killed: bool, outstandingConfirmations: nat, unresolvedOrders: nat)

  datatype Request = Request(
    kind: LedgerKind, destination: Path, nonce: nat, audit: AuditExport,
    confirmKilled: bool, confirmUnresolved: bool, removeSource: bool)

  function Temporary(request: Request): Path { TemporaryOf(request.destination, request.nonce) }

  /**
   * What other processes may do while the tool runs. They leave the destination, the temporary and
   * everything outside the broker's own files alone, and no file of the archived ledger appears. The
   * directory lock stands behind the second part; nothing in the script stands behind the first.
   */
  ghost predicate Tolerated(request: Request, before: Files, after: Files) {
    && SameAt(before, after, request.destination) && SameAt(before, after, Temporary(request))
    && (forall p: Path | !p.LedgerFile? && !p.BrokerState? :: SameAt(before, after, p))
    && NoSourceAppears(request.kind, before, after)
  }

  /** No file of the ledger exists that did not exist before. */
  ghost predicate NoSourceAppears(kind: LedgerKind, before: Files, after: Files) {
    forall part :: LedgerFile(kind, part) in after ==> LedgerFile(kind, part) in before
  }

  /** Events before the first removal: the tool writes only its own destination and temporary. */
  ghost predicate Preparing(request: Request, e: Event) {
    match e.actor
    case Tool => ChangesOnly(e.before, e.after, {request.destination, Temporary(request)})
    case Sqlite => ChangesOnly(e.before, e.after, Trio(request.kind))
    case Other => Tolerated(request, e.before, e.after)
  }

  /** One removal: a ledger file goes, the verified archive that restores it stays, the main file goes last. */
  ghost predicate Removing(hash: Bytes -> Digest, unzip: Bytes -> Option<Zip>, request: Request, e: Event) {
    && e.actor == Tool
    && request.destination in e.before && request.destination !in Trio(request.kind)
    && (exists manifest :: ListsTrio(manifest) && VerifiedArchive(hash, unzip, request, manifest, e.before[request.destination]))
    && exists p | p in Trio(request.kind) && p in e.before ::
         && e.after == e.before - {p}
         && Restores(hash, unzip, e.before[request.destination], p, e.before[p])
         && (p.part == Main ==> LedgerFile(request.kind, Wal) !in e.before && LedgerFile(request.kind, Shm) !in e.before)
  }

  ghost predicate AllPreparing(request: Request, events: seq<Event>) {
    forall e | e in events :: Preparing(request, e)
  }

  ghost predicate AllRemoving(hash: Bytes -> Digest, unzip: Bytes -> Option<Zip>, request: Request, events: seq<Event>) {
    forall e | e in events :: Removing(hash, unzip, request, e)
  }

  /** The archive at `destination` was verified against a manifest of this request. */
  ghost predicate VerifiedArchive(hash: Bytes -> Digest, unzip: Bytes -> Option<Zip>, request: Request, manifest: Manifest, content: Bytes) {
    && unzip(content).Some?
    && var zip := unzip(content).value;
       && zip.manifest == manifest && zip.audit == request.audit.payload
       && manifest.kind == request.kind
       && (forall part :: part in zip.members <==> exists entry | entry in manifest.files :: entry.present && entry.part == part)
       && forall entry | entry in manifest.files && entry.present ::
            && entry.part in zip.members
            && |zip.members[entry.part]| == entry.size && hash(zip.members[entry.part]) == entry.sha
  }

  /** The manifest lists the three files in order. */
  ghost predicate ListsTrio(manifest: Manifest) {
    |manifest.files| == 3 && manifest.files[0].part == Main && manifest.files[1].part == Wal && manifest.files[2].part == Shm
  }

  /** The files on disk are the ones the manifest recorded. */
  ghost predicate SourcesAsRecorded(hash: Bytes -> Digest, manifest: Manifest, files: Files) {
    forall entry | entry in manifest.files ::
      var p := LedgerFile(manifest.kind, entry.part);
      && (p in files ==> entry.present && |files[p]| == entry.size && hash(files[p]) == entry.sha)
  }

  /** `after` continues `before` with preparing events only. */
  ghost predicate PreparedMore(request: Request, before: seq<Event>, after: seq<Event>) {
    before <= after && AllPreparing(request, after[|before|..])
  }

  /** `after` continues `before` with removals only. */
  ghost predicate RemovedMore(hash: Bytes -> Digest, unzip: Bytes -> Option<Zip>, request: Request, before: seq<Event>, after: seq<Event>) {
    before <= after && AllRemoving(hash, unzip, request, after[|before|..])
  }

  lemma PreparedSnoc(request: Request, before: seq<Event>, after: seq<Event>, e: Event)
    requires PreparedMore(request, before, after) && Preparing(request, e)
    ensures PreparedMore(request, before, after + [e])
  {
    assert (after + [e])[|before|..] == after[|before|..] + [e];
  }

  lemma PreparedOn(request: Request, a: seq<Event>, b: seq<Event>, c: seq<Event>)
    requires PreparedMore(request, a, b) && PreparedMore(request, b, c)
    ensures PreparedMore(request, a, c)
  {
    assert c[|a|..] == b[|a|..] + c[|b|..];
  }

  lemma RemovedSnoc(hash: Bytes -> Digest, unzip: Bytes -> Option<Zip>, request: Request, before: seq<Event>, after: seq<Event>, e: Event)
    requires RemovedMore(hash, unzip, request, before, after) && Removing(hash, unzip, request, e)
    ensures RemovedMore(hash, unzip, request, before, after + [e])
  {
    assert (after + [e])[|before|..] == after[|before|..] + [e];
  }

  class BrokerHost {
    const hash: Bytes -> Digest
    const unzip: Bytes -> Option<Zip>
    ghost const origin: Files
    var files: Files
    /** Every change to the files, in order. */
    ghost var events: seq<Event>

    ghost predicate Valid()
      reads this
    {
      BrokerFiles.Chained(origin, events, files)
    }

    constructor (hash: Bytes -> Digest, unzip: Bytes -> Option<Zip>, files: Files)
      ensures Valid() && this.files == files == origin && events == [] && this.hash == hash && this.unzip == unzip
    {
      this.hash, this.unzip, this.origin, this.files, this.events := hash, unzip, files, files, [];
    }

    method Write(p: Path, content: Bytes)
      requires Valid()
      modifies this
      ensures Valid() && files == old(files)[p := content] && events == old(events) + [Event(Tool, old(files), files)]
    {
      ghost var e := Event(Tool, files, files[p := content]);
      ChainedSnoc(origin, events, files, e);
      files := files[p := content];
      events := events + [e];
    }

    method Unlink(p: Path)
      requires Valid() && p in files
      modifies this
      ensures Valid() && files == old(files) - {p} && events == old(events) + [Event(Tool, old(files), files)]
    {
      ghost var e := Event(Tool, files, files - {p});
      ChainedSnoc(origin, events, files, e);
      files := files - {p};
      events := events + [e];
    }

    /** SQLite opens, checkpoints and closes the ledger; only the trio can change. */
    method Checkpoint(kind: LedgerKind) returns (ok: bool)
      requires Valid()
      modifies this
      ensures Valid() && ChangesOnly(old(files), files, Trio(kind)) && events == old(events) + [Event(Sqlite, old(files), files)]
    {
      var main: Option<Bytes> := *;
      var wal: Option<Bytes> := *;
      var shm: Option<Bytes> := *;
      ghost var before := files;
      files := files - Trio(kind);
      files := if main.Some? then files[LedgerFile(kind, Main) := main.value] else files;
      files := if wal.Some? then files[LedgerFile(kind, Wal) := wal.value] else files;
      files := if shm.Some? then files[LedgerFile(kind, Shm) := shm.value] else files;
      ghost var e := Event(Sqlite, before, files);
      ChainedSnoc(origin, events, before, e);
      events := events + [e];
      ok := *;
    }

    /** Another process acts. */
    method Elsewhere(request: Request)
      requires Valid()
      modifies this
      ensures Valid() && Tolerated(request, old(files), files) && events == old(events) + [Event(Other, old(files), files)]
    {
      var after: Files := *;
      TolerableIsTolerated(request, files, after);
      TolerableIsTolerated(request, files, files);
      if !TolerableChange(request, files, after) {
        after := files;
      }
      ghost var e := Event(Other, files, after);
      ChainedSnoc(origin, events, files, e);
      files := after;
      events := events + [e];
    }

    /** Size and digest of one source file. */
    method HashFile(p: Path) returns (r: Result<(nat, Digest), ArchiveError>)
      ensures r.Success? ==> p in files && r.value == (|files[p]|, hash(files[p]))
      ensures r.Failure? ==> r.error == if p in files then SourceTooLarge else SourceChanged
      ensures p in files ==> (r.Failure? <==> |files[p]| > 268_435_456)
    {
      if p !in files {
        return Failure(SourceChanged);
      }
      if |files[p]| > MAX_ARCHIVE_SOURCE_BYTES {
        return Failure(SourceTooLarge);
      }
      return Success((|files[p]|, hash(files[p])));
    }

    /** Records size and digest of the three files as they are after the checkpoint. */
    method Seal(request: Request) returns (r: Result<Manifest, ArchiveError>)
      ensures r.Failure? ==> !CheckError(r.error)
      ensures r.Success? ==>
                && ListsTrio(r.value) && r.value.kind == request.kind && r.value.removalRequested == request.removeSource
                && SourcesAsRecorded(hash, r.value, files)
                && PresenceAsRecorded(r.value, files)
    {
      var entries: seq<Entry> := [];
      var parts := [Main, Wal, Shm];
      for i := 0 to 3
        invariant |entries| == i
        invariant forall k | 0 <= k < i ::
                    && entries[k].part == parts[k]
                    && (entries[k].present <==> LedgerFile(request.kind, parts[k]) in files)
                    && (entries[k].present ==>
                          var content := files[LedgerFile(request.kind, parts[k])];
                          |content| == entries[k].size && hash(content) == entries[k].sha)
      {
        var path := LedgerFile(request.kind, parts[i]);
        if path in files {
          var hashed := HashFile(path);
          if hashed.Failure? {
            return Failure(hashed.error);
          }
          entries := entries + [Entry(parts[i], true, hashed.value.0, hashed.value.1)];
        } else {
          entries := entries + [Entry(parts[i], false, 0, Digest(0))];
        }
      }
      return Success(Manifest(request.kind, request.removeSource, entries));
    }

    /** Exclusive copy; on failure after creation it tries to unlink what it created. */
    method CopyExclusive(request: Request) returns (ok: bool)
      requires Valid() && request.destination !in Trio(request.kind)
      modifies this
      ensures Valid() && PreparedMore(request, old(events), events)
      ensures old(request.destination in files) ==> !ok && files == old(files)
      ensures ok ==> request.destination in files
      ensures ChangesOnly(old(files), files, {request.destination})
    {
      if request.destination in files {
        return false;
      }
      var created: bool := *;
      if !created {
        return false;
      }
      var copied: Bytes := *;
      PreparedSnoc(request, events, events, Event(Tool, files, files[request.destination := copied]));
      Write(request.destination, copied);
      var finished: bool := *;
      if finished {
        return true;
      }
      var unlinked: bool := *;
      if unlinked {
        PreparedSnoc(request, old(events), events, Event(Tool, files, files - {request.destination}));
        Unlink(request.destination);
      }
      return false;
    }

    /** Reads the archive back: members, manifest, audit export, then every digest. */
    method VerifyArchive(request: Request, manifest: Manifest) returns (ok: bool)
      requires request.destination in files && manifest.kind == request.kind
      ensures ok <==> VerifiedArchive(hash, unzip, request, manifest, files[request.destination])
    {
      var decoded := unzip(files[request.destination]);
      if decoded.None? {
        return false;
      }
      var zip := decoded.value;
      var expected := set entry | entry in manifest.files && entry.present :: entry.part;
      if zip.members.Keys != expected {
        assert exists part :: (part in zip.members) != (part in expected);
        return false;
      }
      if zip.manifest != manifest || zip.audit != request.audit.payload {
        return false;
      }
      for i := 0 to |manifest.files|
        invariant forall k | 0 <= k < i && manifest.files[k].present ::
                    && manifest.files[k].part in zip.members
                    && |zip.members[manifest.files[k].part]| == manifest.files[k].size
                    && hash(zip.members[manifest.files[k].part]) == manifest.files[k].sha
      {
        var item := manifest.files[i];
        assert item in manifest.files;
        if item.present {
          assert item.part in expected;
          if |zip.members[item.part]| != item.size || hash(zip.members[item.part]) != item.sha {
            return false;
          }
        }
      }
      return true;
    }

    /** Zip into the temporary, copy, verify, and clean up; the temporary goes on every exit that can remove it. */
    method BuildArchive(request: Request, manifest: Manifest) returns (r: Result<(), ArchiveError>)
      requires Valid() && request.destination !in Trio(request.kind) && manifest.kind == request.kind
      requires request.destination !in files && Temporary(request) !in files
      modifies this
      ensures Valid() && PreparedMore(request, old(events), events)
      ensures NoSourceAppears(request.kind, old(files), files)
      ensures r.Success? ==>
                request.destination in files && VerifiedArchive(hash, unzip, request, manifest, files[request.destination])
      ensures Temporary(request) in files <==> r == Failure(TemporaryNotRemoved)
      ensures r.Failure? ==> r.error == ArchiveWriteFailed || r.error == ArchiveInvalid || r.error == TemporaryNotRemoved
    {
      hide VerifiedArchive, PreparedMore, BrokerFiles.Chained;
      PreparedNothing(request, events);
      var started: bool := *;
      if !started {
        return Failure(ArchiveWriteFailed);
      }
      var zipped: Bytes := *;
      OwnTemporary(request, files, files[Temporary(request) := zipped]);
      PreparedSnoc(request, events, events, Event(Tool, files, files[Temporary(request) := zipped]));
      Write(Temporary(request), zipped);
      var finished: bool := *;
      r := Failure(ArchiveWriteFailed);
      if finished {
        ghost var middle := events;
        var unlinkWorks: bool := *;
        r := CopyAndVerify(request, manifest, unlinkWorks);
        PreparedOn(request, old(events), middle, events);
      }
      var unlinked: bool := *;
      if !unlinked {
        return Failure(TemporaryNotRemoved);
      }
      OwnTemporary(request, files, files - {Temporary(request)});
      PreparedSnoc(request, old(events), events, Event(Tool, files, files - {Temporary(request)}));
      Unlink(Temporary(request));
    }

    /**
     * The exclusive copy and its verification; a failure of either unlinks the destination if the
     * unlink works. A destination that some other process created meanwhile makes the copy fail, and
     * the same cleanup then deletes that process's file.
     */
    method CopyAndVerify(request: Request, manifest: Manifest, unlinkWorks: bool) returns (r: Result<(), ArchiveError>)
      requires Valid() && request.destination !in Trio(request.kind) && manifest.kind == request.kind
      requires Temporary(request) in files
      modifies this
      ensures Valid() && PreparedMore(request, old(events), events)
      ensures NoSourceAppears(request.kind, old(files), files) && Temporary(request) in files
      ensures r.Success? ==>
                request.destination in files && VerifiedArchive(hash, unzip, request, manifest, files[request.destination])
      ensures r.Failure? ==> r.error == ArchiveInvalid
      ensures r.Failure? && unlinkWorks ==> request.destination !in files
      ensures old(request.destination in files) ==>
                && r.Failure?
                && (!unlinkWorks ==> request.destination in files && files[request.destination] == old(files)[request.destination])
    {
      PreparedSnoc(request, events, events, Event(Other, files, files));
      ghost var start := events;
      Elsewhere(request);
      PreparedSnoc(request, start, start, events[|start|]);
      ghost var middle, quiet := events, files;
      assert SameAt(old(files), quiet, Temporary(request)) && SameAt(old(files), quiet, request.destination);
      var copied := CopyExclusive(request);
      assert SameAt(quiet, files, Temporary(request));
      OwnWritesAddNoSource(quiet, files, request);
      PreparedOn(request, start, middle, events);
      if copied {
        var verified := VerifyArchive(request, manifest);
        if verified {
          return Success(());
        }
      }
      if unlinkWorks && request.destination in files {
        PreparedSnoc(request, start, events, Event(Tool, files, files - {request.destination}));
        Unlink(request.destination);
      }
      return Failure(ArchiveInvalid);
    }

    /** Every recorded file is still there with its recorded digest. */
    method RehashSources(manifest: Manifest) returns (ok: bool)
      ensures ok <==> forall entry | entry in manifest.files && entry.present ::
                 var p := LedgerFile(manifest.kind, entry.part);
                 p in files && |files[p]| == entry.size <= 268_435_456 && hash(files[p]) == entry.sha
    {
      for i := 0 to |manifest.files|
        invariant forall k | 0 <= k < i && manifest.files[k].present ::
                    var p := LedgerFile(manifest.kind, manifest.files[k].part);
                    p in files && |files[p]| == manifest.files[k].size <= 268_435_456 && hash(files[p]) == manifest.files[k].sha
      {
        var item := manifest.files[i];
        if item.present {
          var hashed := HashFile(LedgerFile(manifest.kind, item.part));
          if hashed.Failure? || hashed.value != (item.size, item.sha) {
            return false;
          }
        }
      }
      return true;
    }

    /** Removes one file of the trio if it exists; the verified archive restores it. */
    method RemovePart(request: Request, manifest: Manifest, part: Part) returns (ok: bool)
      requires Valid() && RemovalSafe(hash, unzip, request, manifest, files)
      requires part == Main ==> LedgerFile(request.kind, Wal) !in files && LedgerFile(request.kind, Shm) !in files
      modifies this
      ensures Valid() && RemovedMore(hash, unzip, request, old(events), events)
      ensures RemovalSafe(hash, unzip, request, manifest, files)
      ensures files == if ok then old(files) - {LedgerFile(request.kind, part)} else old(files)
      ensures !ok ==> LedgerFile(request.kind, part) in files
    {
      var path := LedgerFile(request.kind, part);
      if path !in files {
        assert files == files - {path};
        return true;
      }
      var unlinked: bool := *;
      if !unlinked {
        return false;
      }
      SafeRemoval(hash, unzip, request, manifest, files, part);
      RemovedSnoc(hash, unzip, request, events, events, Event(Tool, files, files - {path}));
      Unlink(path);
      return true;
    }

    /** Rehash, then remove the side files before the main file. */
    method RemoveSources(request: Request, manifest: Manifest) returns (r: Result<(), ArchiveError>)
      requires Valid() && request.destination in files && request.destination !in Trio(request.kind)
      requires VerifiedArchive(hash, unzip, request, manifest, files[request.destination])
      requires ListsTrio(manifest) && manifest.kind == request.kind
      requires forall entry | entry in manifest.files && LedgerFile(request.kind, entry.part) in files :: entry.present
      modifies this
      ensures Valid() && RemovedMore(hash, unzip, request, old(events), events)
      ensures ChangesOnly(old(files), files, Trio(request.kind))
      ensures r.Success? ==> files == old(files) - Trio(request.kind)
      ensures r.Failure? ==> r.error == SourceChanged || r.error == RemovalIncomplete
      ensures r == Failure(SourceChanged) ==> files == old(files)
      ensures r == Failure(RemovalIncomplete) ==> exists p :: p in Trio(request.kind) && p in files
    {
      hide VerifiedArchive, RemovedMore, RemovalSafe, SourcesAsRecorded, ListsTrio;
      ghost var start, stock := events, files;
      var same := RehashSources(manifest);
      DroppingChangesOnly(stock, files, request.kind, {});
      RemovedNothing(hash, unzip, request, events);
      if !same {
        return Failure(SourceChanged);
      }
      RehashedIsSafe(hash, unzip, request, manifest, files);
      var wal, shm, main := LedgerFile(request.kind, Wal), LedgerFile(request.kind, Shm), LedgerFile(request.kind, Main);
      var ok := RemovePart(request, manifest, Wal);
      ghost var first := events;
      if !ok {
        DroppingChangesOnly(stock, files, request.kind, if files == stock then {} else {wal});
        return Failure(RemovalIncomplete);
      }
      ok := RemovePart(request, manifest, Shm);
      RemovedOn(hash, unzip, request, start, first, events);
      DroppingTwice(stock, {wal}, {shm});
      ghost var second := events;
      if !ok {
        DroppingChangesOnly(stock, files, request.kind, if files == stock - {wal} then {wal} else {wal} + {shm});
        return Failure(RemovalIncomplete);
      }
      ok := RemovePart(request, manifest, Main);
      RemovedOn(hash, unzip, request, start, second, events);
      DroppingTwice(stock, {wal} + {shm}, {main});
      assert {wal} + {shm} + {main} == Trio(request.kind);
      DroppingChangesOnly(stock, files, request.kind, if files == stock - ({wal} + {shm}) then {wal} + {shm} else Trio(request.kind));
      if !ok {
        return Failure(RemovalIncomplete);
      }
      return Success(());
    }

    /** The checks before the directory lock is taken. */
    method CheckRequest(request: Request) returns (r: Option<ArchiveError>)
      ensures r.None? <==> RequestAccepted(request, files)
      ensures r.None? <==> !Refused(request, files)
      ensures r.Some? ==> RequestRefusal(r.value, request, files)
    {
      AcceptedIsNotRefused(request, files);
      TrioIsKind(request.kind, request.audit.path);
      TrioIsKind(request.kind, request.destination);
      if !request.confirmKilled {
        return Some(ConfirmationRequired);
      }
      if request.audit.path !in files {
        return Some(AuditUnavailable);
      }
      if request.destination in files {
        return Some(DestinationExists);
      }
      if LedgerFile(request.kind, Main) !in files {
        return Some(LedgerUnavailable);
      }
      if request.audit.path in Trio(request.kind) || request.destination in Trio(request.kind) {
        return Some(PathsOverlap);
      }
      if request.audit.payload == [] || |request.audit.payload| > MAX_AUDIT_EXPORT_BYTES {
        return Some(AuditSizeInvalid);
      }
      if !request.audit.killed || request.audit.outstandingConfirmations != 0 {
        return Some(NotKilled);
      }
      if request.kind == Execution && request.audit.unresolvedOrders != 0 && !request.confirmUnresolved {
        return Some(UnresolvedOrders);
      }
      return None;
    }

    /**
     * One run. Whatever fails, its changes are preparations followed by removals, and each removal
     * leaves behind a verified archive that restores what it removes; a destination that exists on
     * entry is not touched. Success means an archive of every file of the ledger as the checkpoint left it.
     */
    method ArchiveLedger(request: Request) returns (r: Result<Manifest, ArchiveError>, ghost sealed: Files)
      requires Valid() && Temporary(request) !in files && request.kind != Shadow
      modifies this
      ensures Valid() && ArchiveRun(hash, unzip, request, old(events), events)
      ensures old(Refused(request, files)) ==>
                r.Failure? && files == old(files) && events == old(events) && RequestRefusal(r.error, request, old(files))
      ensures !old(Refused(request, files)) && r.Failure? ==> !CheckError(r.error)
      ensures !request.removeSource ==> PreparedMore(request, old(events), events)
      ensures r.Success? ==>
                && |events| > |old(events)| && events[|old(events)|].actor == Sqlite && events[|old(events)|].after == sealed
                && request.destination in files
                && Archives(hash, unzip, request, r.value, sealed, files[request.destination])
                && ListsTrio(r.value) && VerifiedArchive(hash, unzip, request, r.value, files[request.destination])
                && (request.removeSource ==> forall part :: LedgerFile(request.kind, part) !in files)
      ensures Temporary(request) in files ==> r == Failure(TemporaryNotRemoved)
    {
      hide RequestRefusal, Refused, CheckError, ArchiveRun, PreparedMore, VerifiedArchive, ListsTrio, Archives;
      sealed := files;
      ArchivedNothing(hash, unzip, request, events);
      AcceptedIsNotRefused(request, files);
      var rejected := CheckRequest(request);
      if rejected.Some? {
        return Failure(rejected.value), sealed;
      }
      var locked: bool := *;
      if !locked {
        LockIsNoCheck();
        return Failure(BrokerRunning), sealed;
      }
      r, sealed := ArchiveLocked(request);
    }

    /** The checkpoint, and what the ledger's files are after it. */
    method CheckpointAndSeal(request: Request) returns (r: Result<Manifest, ArchiveError>)
      requires Valid() && request.destination !in files && Temporary(request) !in files && request.destination !in Trio(request.kind)
      modifies this
      ensures Valid() && request.destination !in files && Temporary(request) !in files
      ensures events == old(events) + [Event(Sqlite, old(files), files)] && PreparedMore(request, old(events), events)
      ensures r.Success? ==>
                && ListsTrio(r.value) && r.value.kind == request.kind && r.value.removalRequested == request.removeSource
                && SourcesAsRecorded(hash, r.value, files) && PresenceAsRecorded(r.value, files)
      ensures r.Failure? ==> !CheckError(r.error)
    {
      hide ListsTrio, PresenceAsRecorded, SourcesAsRecorded, BrokerFiles.Chained;
      ghost var start, before := events, files;
      var checkpointed := Checkpoint(request.kind);
      assert SameAt(before, files, request.destination) && SameAt(before, files, Temporary(request));
      PreparedNothing(request, start);
      PreparedSnoc(request, start, start, Event(Sqlite, before, files));
      if !checkpointed {
        return Failure(ProjectionChanged);
      }
      r := Seal(request);
    }

    /** The run under the directory lock. */
    method ArchiveLocked(request: Request) returns (r: Result<Manifest, ArchiveError>, ghost sealed: Files)
      requires Valid() && Temporary(request) !in files && RequestAccepted(request, files)
      modifies this
      ensures Valid() && ArchiveRun(hash, unzip, request, old(events), events)
      ensures r.Failure? ==> !CheckError(r.error)
      ensures !request.removeSource ==> PreparedMore(request, old(events), events)
      ensures r.Success? ==>
                && |events| > |old(events)| && events[|old(events)|].actor == Sqlite && events[|old(events)|].after == sealed
                && request.destination in files
                && Archives(hash, unzip, request, r.value, sealed, files[request.destination])
                && ListsTrio(r.value) && VerifiedArchive(hash, unzip, request, r.value, files[request.destination])
                && (request.removeSource ==> forall part :: LedgerFile(request.kind, part) !in files)
      ensures Temporary(request) in files ==> r == Failure(TemporaryNotRemoved)
    {
      hide VerifiedArchive, RemovedMore, ListsTrio, PresenceAsRecorded, SourcesAsRecorded, Archives, PreparedMore, BrokerFiles.Chained;
      ghost var start := events;
      var manifest := CheckpointAndSeal(request);
      ghost var opening := events;
      sealed := files;
      RemovedNothing(hash, unzip, request, opening);
      if manifest.Failure? {
        return Failure(manifest.error), sealed;
      }
      r := Publish(request, manifest.value);
      ghost var middle := events;
      PreparedExtends(request, opening, middle);
      PreparedOn(request, start, opening, middle);
      RemovedNothing(hash, unzip, request, middle);
      if r.Failure? {
        return r, sealed;
      }
      SealedIsArchived(hash, unzip, request, manifest.value, sealed, files[request.destination]);
      if request.removeSource {
        ghost var archived := files;
        var removed := RemoveSources(request, manifest.value);
        RemovedExtends(hash, unzip, request, middle, events);
        assert SameAt(archived, files, request.destination) && SameAt(archived, files, Temporary(request));
        if removed.Failure? {
          return Failure(removed.error), sealed;
        }
        forall part ensures LedgerFile(request.kind, part) !in files {
          PartInTrio(request.kind, part);
        }
      }
      var archiveDigest := HashFile(request.destination);
      if archiveDigest.Failure? {
        return Failure(archiveDigest.error), sealed;
      }
    }

    /** The archive built and verified, and the sources still no more than the manifest recorded. */
    method Publish(request: Request, manifest: Manifest) returns (r: Result<Manifest, ArchiveError>)
      requires Valid() && request.destination !in Trio(request.kind) && manifest.kind == request.kind
      requires request.destination !in files && Temporary(request) !in files
      requires PresenceAsRecorded(manifest, files)
      modifies this
      ensures Valid() && PreparedMore(request, old(events), events)
      ensures r.Success? ==>
                && r.value == manifest && request.destination in files
                && VerifiedArchive(hash, unzip, request, manifest, files[request.destination])
                && (forall entry | entry in manifest.files && LedgerFile(request.kind, entry.part) in files :: entry.present)
      ensures Temporary(request) in files ==> r == Failure(TemporaryNotRemoved)
      ensures r.Failure? ==> !CheckError(r.error)
    {
      hide VerifiedArchive, PreparedMore;
      ghost var start, stock := events, files;
      var built := BuildArchive(request, manifest);
      if built.Failure? {
        return Failure(built.error);
      }
      ghost var middle, quiet := events, files;
      Elsewhere(request);
      PreparedNothing(request, middle);
      PreparedSnoc(request, middle, middle, events[|middle|]);
      PreparedOn(request, start, middle, events);
      assert SameAt(quiet, files, request.destination) && SameAt(quiet, files, Temporary(request));
      return Success(manifest);
    }
  }

  /** What each refusal says of the request and the files. */
  ghost predicate RequestRefusal(error: ArchiveError, request: Request, files: Files) {
    match error
    case ConfirmationRequired => !request.confirmKilled
    case AuditUnavailable => request.audit.path !in files
    case DestinationExists => request.destination in files
    case LedgerUnavailable => LedgerFile(request.kind, Main) !in files
    case PathsOverlap =>
      || (request.audit.path.LedgerFile? && request.audit.path.kind == request.kind)
      || (request.destination.LedgerFile? && request.destination.kind == request.kind)
    case AuditSizeInvalid => request.audit.payload == [] || |request.audit.payload| > 16 * 1024 * 1024
    case NotKilled => !request.audit.killed || request.audit.outstandingConfirmations != 0
    case UnresolvedOrders => request.kind == Execution && request.audit.unresolvedOrders != 0 && !request.confirmUnresolved
    case _ => false
  }

  /** One of the checks before the lock refuses the request. */
  ghost predicate Refused(request: Request, files: Files) {
    exists error: ArchiveError :: RequestRefusal(error, request, files)
  }

  ghost predicate CheckError(error: ArchiveError) {
    || error == ConfirmationRequired || error == AuditUnavailable || error == DestinationExists || error == LedgerUnavailable
    || error == PathsOverlap || error == AuditSizeInvalid || error == NotKilled || error == UnresolvedOrders
  }

  /** Membership in the three files of a ledger, part by part. */
  lemma TrioIsKind(kind: LedgerKind, p: Path)
    ensures p in Trio(kind) <==> p.LedgerFile? && p.kind == kind
  {
    if p.LedgerFile? && p.kind == kind { PartInTrio(kind, p.part); }
  }

  /** The checks accept exactly what nothing refuses. */
  lemma AcceptedIsNotRefused(request: Request, files: Files)
    ensures RequestAccepted(request, files) <==> !Refused(request, files)
  {
    TrioIsKind(request.kind, request.audit.path);
    TrioIsKind(request.kind, request.destination);
    if !RequestAccepted(request, files) {
      assert || RequestRefusal(ConfirmationRequired, request, files) || RequestRefusal(AuditUnavailable, request, files)
             || RequestRefusal(DestinationExists, request, files) || RequestRefusal(LedgerUnavailable, request, files)
             || RequestRefusal(PathsOverlap, request, files) || RequestRefusal(AuditSizeInvalid, request, files)
             || RequestRefusal(NotKilled, request, files) || RequestRefusal(UnresolvedOrders, request, files);
    }
  }

  /** What the script checks before it takes the lock. */
  predicate RequestAccepted(request: Request, files: Files) {
    && request.confirmKilled
    && request.audit.path in files && request.destination !in files
    && LedgerFile(request.kind, Main) in files
    && request.audit.path !in Trio(request.kind) && request.destination !in Trio(request.kind)
    && 0 < |request.audit.payload| <= MAX_AUDIT_EXPORT_BYTES
    && request.audit.killed && request.audit.outstandingConfirmations == 0
    && (request.kind == Execution && request.audit.unresolvedOrders != 0 ==> request.confirmUnresolved)
  }

  /** The archive holds the audit export, the manifest, and exactly the ledger's files, each with the size and digest of its bytes. */
  ghost predicate Archives(hash: Bytes -> Digest, unzip: Bytes -> Option<Zip>, request: Request, manifest: Manifest, sealed: Files, archive: Bytes) {
    && unzip(archive).Some?
    && var zip := unzip(archive).value;
       && zip.manifest == manifest && zip.audit == request.audit.payload
       && manifest.kind == request.kind && manifest.removalRequested == request.removeSource
       && forall part :: Holds(hash, zip, LedgerFile(request.kind, part), sealed)
  }

  ghost predicate Holds(hash: Bytes -> Digest, zip: Zip, p: Path, files: Files)
    requires p.LedgerFile?
  {
    && (p.part in zip.members <==> p in files)
    && (p in files && p.part in zip.members ==> |zip.members[p.part]| == |files[p]| && hash(zip.members[p.part]) == hash(files[p]))
  }

  /** A verified archive of a manifest that records the files holds those files. */
  lemma SealedIsArchived(hash: Bytes -> Digest, unzip: Bytes -> Option<Zip>, request: Request, manifest: Manifest, sealed: Files, archive: Bytes)
    requires ListsTrio(manifest) && manifest.kind == request.kind && manifest.removalRequested == request.removeSource
    requires SourcesAsRecorded(hash, manifest, sealed) && PresenceAsRecorded(manifest, sealed)
    requires VerifiedArchive(hash, unzip, request, manifest, archive)
    ensures Archives(hash, unzip, request, manifest, sealed, archive)
  {
    forall part ensures Holds(hash, unzip(archive).value, LedgerFile(request.kind, part), sealed) {
      EntryOfPart(manifest, part);
    }
  }

  lemma EntryOfPart(manifest: Manifest, part: Part)
    requires ListsTrio(manifest)
    ensures exists entry | entry in manifest.files :: entry.part == part
    ensures forall a, b | a in manifest.files && b in manifest.files && a.part == b.part :: a == b
  {
    var entry := manifest.files[match part case Main => 0 case Wal => 1 case Shm => 2];
    assert entry in manifest.files && entry.part == part;
  }

  lemma ArchivedNothing(hash: Bytes -> Digest, unzip: Bytes -> Option<Zip>, request: Request, events: seq<Event>)
    ensures PreparedMore(request, events, events) && ArchiveRun(hash, unzip, request, events, events)
  {
    PreparedNothing(request, events);
    RemovedNothing(hash, unzip, request, events);
  }

  lemma OwnTemporary(request: Request, before: Files, after: Files)
    requires ChangesOnly(before, after, {Temporary(request)})
    ensures Preparing(request, Event(Tool, before, after))
  {
  }

  lemma LockIsNoCheck()
    ensures !CheckError(BrokerRunning)
  {
  }

  lemma PreparedExtends(request: Request, before: seq<Event>, after: seq<Event>)
    requires PreparedMore(request, before, after)
    ensures before <= after
  {
  }

  lemma RemovedExtends(hash: Bytes -> Digest, unzip: Bytes -> Option<Zip>, request: Request, before: seq<Event>, after: seq<Event>)
    requires RemovedMore(hash, unzip, request, before, after)
    ensures before <= after
  {
  }

  /** Preparations, then removals. */
  ghost predicate ArchiveRun(hash: Bytes -> Digest, unzip: Bytes -> Option<Zip>, request: Request, before: seq<Event>, after: seq<Event>) {
    exists middle: seq<Event> :: PreparedMore(request, before, middle) && RemovedMore(hash, unzip, request, middle, after)
  }

  lemma PreparedNothing(request: Request, events: seq<Event>)
    ensures PreparedMore(request, events, events)
  {
  }

  lemma RemovedNothing(hash: Bytes -> Digest, unzip: Bytes -> Option<Zip>, request: Request, events: seq<Event>)
    ensures RemovedMore(hash, unzip, request, events, events)
  {
  }

  lemma RehashedIsSafe(hash: Bytes -> Digest, unzip: Bytes -> Option<Zip>, request: Request, manifest: Manifest, files: Files)
    requires request.destination in files && request.destination !in Trio(request.kind)
    requires VerifiedArchive(hash, unzip, request, manifest, files[request.destination])
    requires ListsTrio(manifest) && manifest.kind == request.kind
    requires forall entry | entry in manifest.files && LedgerFile(request.kind, entry.part) in files :: entry.present
    requires forall entry | entry in manifest.files && entry.present ::
               var p := LedgerFile(manifest.kind, entry.part);
               p in files && |files[p]| == entry.size && hash(files[p]) == entry.sha
    ensures RemovalSafe(hash, unzip, request, manifest, files)
  {
  }

  lemma OwnWritesAddNoSource(before: Files, after: Files, request: Request)
    requires ChangesOnly(before, after, {request.destination}) && request.destination !in Trio(request.kind)
    ensures NoSourceAppears(request.kind, before, after)
  {
    forall part | LedgerFile(request.kind, part) in after ensures LedgerFile(request.kind, part) in before {
      PartInTrio(request.kind, part);
      assert SameAt(before, after, LedgerFile(request.kind, part));
    }
  }

  /** Dropping some of the trio changes nothing else. */
  lemma DroppingChangesOnly(before: Files, after: Files, kind: LedgerKind, dropped: set<Path>)
    requires dropped <= Trio(kind) && after == before - dropped
    ensures ChangesOnly(before, after, Trio(kind))
  {
  }

  lemma DroppingTwice(before: Files, a: set<Path>, b: set<Path>)
    ensures before - a - b == before - (a + b)
  {
  }

  lemma RemovedOn(hash: Bytes -> Digest, unzip: Bytes -> Option<Zip>, request: Request, a: seq<Event>, b: seq<Event>, c: seq<Event>)
    requires RemovedMore(hash, unzip, request, a, b) && RemovedMore(hash, unzip, request, b, c)
    ensures RemovedMore(hash, unzip, request, a, c)
  {
    assert c[|a|..] == b[|a|..] + c[|b|..];
  }

  /** A verified archive whose manifest matches every source file that still exists. */
  ghost predicate RemovalSafe(hash: Bytes -> Digest, unzip: Bytes -> Option<Zip>, request: Request, manifest: Manifest, files: Files) {
    && request.destination !in Trio(request.kind) && request.destination in files
    && VerifiedArchive(hash, unzip, request, manifest, files[request.destination])
    && ListsTrio(manifest) && manifest.kind == request.kind
    && SourcesAsRecorded(hash, manifest, files)
  }

  lemma PartIsRestorable(hash: Bytes -> Digest, unzip: Bytes -> Option<Zip>, request: Request, manifest: Manifest, files: Files, part: Part)
    requires RemovalSafe(hash, unzip, request, manifest, files) && LedgerFile(request.kind, part) in files
    ensures Restores(hash, unzip, files[request.destination], LedgerFile(request.kind, part), files[LedgerFile(request.kind, part)])
  {
    var entry := manifest.files[match part case Main => 0 case Wal => 1 case Shm => 2];
    assert entry in manifest.files && entry.part == part;
  }

  /** Removing a file the archive restores is a removal of this run. */
  lemma SafeRemoval(hash: Bytes -> Digest, unzip: Bytes -> Option<Zip>, request: Request, manifest: Manifest, files: Files, part: Part)
    requires RemovalSafe(hash, unzip, request, manifest, files) && LedgerFile(request.kind, part) in files
    requires part == Main ==> LedgerFile(request.kind, Wal) !in files && LedgerFile(request.kind, Shm) !in files
    ensures Removing(hash, unzip, request, Event(Tool, files, files - {LedgerFile(request.kind, part)}))
  {
    hide VerifiedArchive, ListsTrio, SourcesAsRecorded, Restores;
    PartIsRestorable(hash, unzip, request, manifest, files, part);
    PartInTrio(request.kind, part);
  }

  /** A file is present exactly when its entry says so. */
  ghost predicate PresenceAsRecorded(manifest: Manifest, files: Files) {
    forall entry | entry in manifest.files :: entry.present <==> LedgerFile(manifest.kind, entry.part) in files
  }

  /** `Tolerated`, decided over the finite domains of the two states. */
  predicate TolerableChange(request: Request, before: Files, after: Files)
  {
    && (forall p | p in before.Keys + after.Keys && (p == request.destination || (!p.LedgerFile? && !p.BrokerState?)) ::
          p in before && p in after && before[p] == after[p])
    && (LedgerFile(request.kind, Main) in after ==> LedgerFile(request.kind, Main) in before)
    && (LedgerFile(request.kind, Wal) in after ==> LedgerFile(request.kind, Wal) in before)
    && (LedgerFile(request.kind, Shm) in after ==> LedgerFile(request.kind, Shm) in before)
  }

  lemma TolerableIsTolerated(request: Request, before: Files, after: Files)
    ensures TolerableChange(request, before, after) <==> Tolerated(request, before, after)
  {
    if Tolerated(request, before, after) {
      forall p | p in before.Keys + after.Keys && (p == request.destination || (!p.LedgerFile? && !p.BrokerState?))
        ensures p in before && p in after && before[p] == after[p]
      {
        assert SameAt(before, after, p);
      }
    }
    if TolerableChange(request, before, after) {
      forall p: Path | p == request.destination || (!p.LedgerFile? && !p.BrokerState?) ensures SameAt(before, after, p) {
        assert p in before || p in after ==> p in before.Keys + after.Keys;
      }
      forall part | LedgerFile(request.kind, part) in after ensures LedgerFile(request.kind, part) in before {
        match part
        case Main =>
        case Wal =>
        case Shm =>
      }
    }
  }
}
