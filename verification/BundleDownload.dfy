/** Downloading a pinned bundle: bounded copy, verification, and a cache target that only ever holds verified bytes. */
module BundleDownload {
  import opened Results

  const MAX_DOWNLOAD_BYTES: nat := 67_108_864

  datatype Release = Release(runtimeId: string, version: string, filename: string, sha256: Digest, size: nat)

  /** Cache targets and supplied bundles are named by file; temporaries get names nothing else has. */
  datatype Path = Target(filename: string) | Supplied(filename: string) | Temporary(id: nat)

  datatype Node = Folder | File(bytes: Bytes)

  type Files = map<Path, Node>

  datatype BootstrapError =
    | Misconfigured
    | ReleaseMissing
    | PlatformUnsupported
    | UnmanagedActivation
    | CheckFailed
    | Unreadable
    | PinMismatch
    | NotAFile
    | DownloadTooLarge
    | DownloadSizeMismatch
    | DownloadFailed
    | InstallFailed

  /** The errors of reading, checking and downloading one bundle. */
  ghost predicate ResolveError(error: BootstrapError) {
    match error
    case Unreadable => true
    case PinMismatch => true
    case NotAFile => true
    case DownloadTooLarge => true
    case DownloadSizeMismatch => true
    case DownloadFailed => true
    case _ => false
  }

  lemma DownloadErrors()
    ensures ResolveError(Unreadable) && ResolveError(PinMismatch) && ResolveError(NotAFile)
    ensures ResolveError(DownloadTooLarge) && ResolveError(DownloadSizeMismatch) && ResolveError(DownloadFailed)
  {
  }

  /** What the server sends: chunks up to an empty one, or a failure before the end. */
  datatype Response = Unreachable | Response(chunks: seq<Bytes>, broken: bool)

  datatype Activation = Activation(version: string, bundleSha256: Option<Digest>, enabled: bool, autoStart: bool, required: bool)

  type Registry = map<string, Activation>

  datatype Manifest = Manifest(runtimeId: string, version: string)

  ghost predicate Matches(hash: Bytes -> Digest, bytes: Bytes, release: Release) {
    hash(bytes) == release.sha256 && |bytes| == release.size
  }

  /** The file at a path is the release's bundle. */
  ghost predicate Verified(hash: Bytes -> Digest, files: Files, path: Path, release: Release) {
    path in files && files[path].File? && Matches(hash, files[path].bytes, release)
  }

  /** Nothing that existed was changed or removed. */
  ghost predicate Keeps(before: Files, after: Files) {
    forall p | p in before :: p in after && after[p] == before[p]
  }

  /** Nothing that existed was changed, and no cache target appeared. */
  ghost predicate Untouched(before: Files, after: Files) {
    Keeps(before, after) && forall name: string :: Target(name) in after <==> Target(name) in before
  }

  /** Only the release's own cache target may appear, and it holds the pinned bundle if it does. */
  ghost predicate TargetSafe(hash: Bytes -> Digest, before: Files, after: Files, release: Release) {
    && Keeps(before, after)
    && forall name: string | Target(name) in after && Target(name) !in before ::
         name == release.filename && Verified(hash, after, Target(name), release)
  }

  /** The bytes before the first empty chunk. */
  function Received(chunks: seq<Bytes>): Bytes {
    if chunks == [] || chunks[0] == [] then [] else chunks[0] + Received(chunks[1..])
  }

  lemma ReceivedFrom(chunks: seq<Bytes>, i: nat)
    requires i <= |chunks|
    ensures Received(chunks[i..]) == if i == |chunks| || chunks[i] == [] then [] else chunks[i] + Received(chunks[i + 1..])
  {
    if i < |chunks| { assert chunks[i..][1..] == chunks[i + 1..]; }
  }

  lemma KeepsOn(a: Files, b: Files, c: Files)
    requires Keeps(a, b) && Keeps(b, c)
    ensures Keeps(a, c)
  {
  }

  class BootstrapHost {
    const hash: Bytes -> Digest
    const manifest: Bytes -> Manifest
    var files: Files
    var registry: Registry
    var nextTemporary: nat
    ghost var history: seq<Files>
    ghost var installs: seq<seq<(Release, Bytes)>>
    ghost var requests: nat

    /** Temporaries not yet created do not exist. */
    ghost predicate Valid()
      reads this
    {
      forall id: nat | id >= nextTemporary :: Temporary(id) !in files
    }

    constructor (hash: Bytes -> Digest, manifest: Bytes -> Manifest, files: Files, registry: Registry)
      requires forall id: nat :: Temporary(id) !in files
      ensures Valid() && this.files == files && this.registry == registry && this.hash == hash && this.manifest == manifest
    {
      this.hash, this.manifest, this.files, this.registry := hash, manifest, files, registry;
      nextTemporary, history, installs, requests := 0, [], [], 0;
    }

    /** Reads a file and compares size and digest with the pin. */
    method VerifiedLocalBundle(path: Path, release: Release) returns (r: Result<Path, BootstrapError>)
      ensures r.Success? ==> r.value == path && Verified(hash, files, path, release)
      ensures r.Failure? ==> r.error == Unreadable || r.error == PinMismatch
      ensures r == Failure(PinMismatch) ==> !Verified(hash, files, path, release)
    {
      var readable: bool := *;
      if !readable || path !in files || !files[path].File? {
        return Failure(Unreadable);
      }
      var bytes := files[path].bytes;
      if hash(bytes) != release.sha256 || |bytes| != release.size {
        return Failure(PinMismatch);
      }
      return Success(path);
    }

    /** One write to a temporary; it may fail. */
    method WriteTemporary(temporary: Path, bytes: Bytes) returns (ok: bool)
      requires temporary.Temporary? && temporary.id < nextTemporary && Valid()
      modifies this`files, this`history
      ensures Valid()
      ensures files == (if ok then old(files)[temporary := File(bytes)] else old(files))
      ensures history == (if ok then old(history) + [files] else old(history))
    {
      ok := *;
      if ok {
        files := files[temporary := File(bytes)];
        history := history + [files];
      }
    }

    /** Copies a response into the temporary, never past the pinned size. */
    method CopyResponse(response: Response, temporary: Path, ghost before: Files, expectedSize: nat)
      returns (r: Option<BootstrapError>, ghost interrupted: bool)
      requires response.Response? && Valid() && temporary.Temporary? && temporary.id < nextTemporary
      requires temporary !in before && Untouched(before, files)
      modifies this`files, this`history
      ensures Valid() && Untouched(before, files)
      ensures HistoryKeeps(before, old(history), history)
      ensures r.None? ==> temporary in files && files[temporary] == File(Received(response.chunks)) && |Received(response.chunks)| == expectedSize
      ensures r.Some? ==> r.value == DownloadFailed || r.value == DownloadTooLarge || r.value == DownloadSizeMismatch
      ensures r.Some? && r.value != DownloadFailed ==> response.broken || |Received(response.chunks)| != expectedSize || expectedSize > MAX_DOWNLOAD_BYTES
      ensures !interrupted && !response.broken ==> (r.None? <==> |Received(response.chunks)| == expectedSize <= 67_108_864)
      ensures r.None? && response.broken ==> [] in response.chunks
    {
      hide Keeps, Untouched, HistoryKeeps, Received;
      var size := 0;
      var written: Bytes := [];
      NoHistory(before, history);
      var created := WriteTemporary(temporary, []);
      if !created {
        return Some(DownloadFailed), true;
      }
      TemporaryWritten(before, old(files), temporary, [], old(history));
      assert response.chunks[0..] == response.chunks;
      var i := 0;
      while i < |response.chunks| && response.chunks[i] != []
        invariant 0 <= i <= |response.chunks| && size == |written|
        invariant Received(response.chunks) == written + Received(response.chunks[i..])
        invariant Valid() && Untouched(before, files)
        invariant HistoryKeeps(before, old(history), history)
        invariant temporary in files && files[temporary] == File(written)
        invariant size <= expectedSize && size <= MAX_DOWNLOAD_BYTES
        decreases |response.chunks| - i
      {
        var chunk := response.chunks[i];
        ReceivedFrom(response.chunks, i);
        size := size + |chunk|;
        if size > expectedSize || size > MAX_DOWNLOAD_BYTES {
          return Some(DownloadTooLarge), false;
        }
        ghost var earlier, past := files, history;
        var ok := WriteTemporary(temporary, written + chunk);
        if !ok {
          return Some(DownloadFailed), true;
        }
        TemporaryWritten(before, earlier, temporary, written + chunk, past);
        HistoryJoins(before, old(history), past, history);
        written := written + chunk;
        i := i + 1;
      }
      if i == |response.chunks| && response.broken {
        return Some(DownloadFailed), false;
      }
      ReceivedFrom(response.chunks, i);
      assert Received(response.chunks) == written;
      if size != expectedSize {
        return Some(DownloadSizeMismatch), false;
      }
      return None, false;
    }

    /** The cached bundle if it is there and matches; otherwise a verified download moved into place. */
    method Download(release: Release, response: Response) returns (r: Result<(Path, bool), BootstrapError>)
      requires Valid()
      modifies this`files, this`history, this`nextTemporary, this`requests
      ensures Valid() && TargetSafe(hash, old(files), files, release)
      ensures HistorySafe(hash, old(files), release, old(history), history)
      ensures r.Success? ==> r.value.0 == Target(release.filename) && Verified(hash, files, r.value.0, release)
      ensures r.Failure? ==> ResolveError(r.error)
      ensures r.Success? ==> (r.value.1 <==> Target(release.filename) !in old(files))
      ensures Target(release.filename) in old(files) ==> files == old(files) && requests == old(requests)
      ensures Target(release.filename) in old(files) && !Verified(hash, old(files), Target(release.filename), release) ==> r.Failure?
    {
      hide ResolveError, Received;
      DownloadErrors();
      var destination := Target(release.filename);
      NothingChanged(hash, files, release, history);
      if destination in files {
        if files[destination].Folder? {
          return Failure(NotAFile);
        }
        var verified := VerifiedLocalBundle(destination, release);
        return if verified.Success? then Success((destination, false)) else Failure(verified.error);
      }
      hide Keeps, Untouched, TargetSafe, HistoryKeeps, HistorySafe, Matches;
      ghost var before := files;
      var temporary := Temporary(nextTemporary);
      assert temporary !in before;
      UntouchedItself(files);
      nextTemporary := nextTemporary + 1;
      var created := WriteTemporary(temporary, []);
      if !created {
        return Failure(DownloadFailed);
      }
      TemporaryWritten(before, before, temporary, [], old(history));
      KeptIsSafe(hash, before, files, release, old(history), history);
      requests := requests + 1;
      if response.Unreachable? {
        RemoveTemporary(temporary, before, release, old(history));
        return Failure(DownloadFailed);
      }
      ghost var started := history;
      var copied, interrupted := CopyResponse(response, temporary, before, release.size);
      HistoryJoins(before, old(history), started, history);
      KeptIsSafe(hash, before, files, release, old(history), history);
      if copied.Some? {
        RemoveTemporary(temporary, before, release, old(history));
        return Failure(copied.value);
      }
      var checked := VerifiedLocalBundle(temporary, release);
      if checked.Failure? {
        RemoveTemporary(temporary, before, release, old(history));
        return Failure(checked.error);
      }
      var replaced: bool := *;
      if !replaced {
        RemoveTemporary(temporary, before, release, old(history));
        return Failure(DownloadFailed);
      }
      ghost var earlier, past := files, history;
      files := files[destination := files[temporary]] - {temporary};
      history := history + [files];
      Replaced(hash, before, earlier, release, temporary, old(history), past);
      var verified := VerifiedLocalBundle(destination, release);
      return if verified.Success? then Success((destination, true)) else Failure(verified.error);
    }

    /** The cleanup of a failed download; its own failure is ignored. */
    method RemoveTemporary(temporary: Path, ghost before: Files, release: Release, ghost past: seq<Files>)
      requires Valid() && temporary.Temporary? && temporary !in before
      requires TargetSafe(hash, before, files, release) && HistorySafe(hash, before, release, past, history)
      modifies this`files, this`history
      ensures Valid() && TargetSafe(hash, before, files, release) && HistorySafe(hash, before, release, past, history)
    {
      var removed: bool := *;
      if removed {
        Removed(hash, before, files, release, temporary, past, history);
        files := files - {temporary};
        history := history + [files];
      }
    }
  }

  // ----- states between the steps

  /** Every state since `past` keeps what was there and creates no cache target. */
  ghost predicate HistoryKeeps(before: Files, past: seq<Files>, now: seq<Files>) {
    past <= now && forall k | |past| <= k < |now| ::
      Untouched(before, now[k])
  }

  /** In every state since `past` the cache target is safe. */
  ghost predicate HistorySafe(hash: Bytes -> Digest, before: Files, release: Release, past: seq<Files>, now: seq<Files>) {
    past <= now && forall k | |past| <= k < |now| :: TargetSafe(hash, before, now[k], release)
  }

  lemma UntouchedItself(files: Files)
    ensures Untouched(files, files)
  {
  }

  lemma NoHistory(before: Files, past: seq<Files>)
    ensures HistoryKeeps(before, past, past)
  {
  }

  lemma NothingChanged(hash: Bytes -> Digest, files: Files, release: Release, past: seq<Files>)
    ensures TargetSafe(hash, files, files, release) && HistorySafe(hash, files, release, past, past)
  {
  }

  lemma TemporaryWritten(before: Files, files: Files, temporary: Path, bytes: Bytes, past: seq<Files>)
    requires temporary.Temporary? && temporary !in before && Untouched(before, files)
    ensures var after := files[temporary := File(bytes)];
            && Untouched(before, after)
            && HistoryKeeps(before, past, past + [after])
  {
  }

  lemma HistoryJoins(before: Files, a: seq<Files>, b: seq<Files>, c: seq<Files>)
    requires HistoryKeeps(before, a, b) && HistoryKeeps(before, b, c)
    ensures HistoryKeeps(before, a, c)
  {
    forall k | |a| <= k < |c| ensures Untouched(before, c[k]) {
      if k < |b| { assert c[k] == b[k]; }
    }
  }

  lemma KeptIsSafe(hash: Bytes -> Digest, before: Files, files: Files, release: Release, past: seq<Files>, now: seq<Files>)
    requires Untouched(before, files)
    requires HistoryKeeps(before, past, now)
    ensures TargetSafe(hash, before, files, release) && HistorySafe(hash, before, release, past, now)
  {
    hide Keeps;
  }

  /** The atomic rename publishes bytes that were verified under the temporary name. */
  lemma Replaced(hash: Bytes -> Digest, before: Files, files: Files, release: Release, temporary: Path, past: seq<Files>, now: seq<Files>)
    requires temporary.Temporary? && temporary !in before && TargetSafe(hash, before, files, release)
    requires Verified(hash, files, temporary, release) && Target(release.filename) !in before && HistorySafe(hash, before, release, past, now)
    ensures var after := files[Target(release.filename) := files[temporary]] - {temporary};
            && TargetSafe(hash, before, after, release) && HistorySafe(hash, before, release, past, now + [after])
  {
    hide Matches;
    var after := files[Target(release.filename) := files[temporary]] - {temporary};
    forall name: string | Target(name) in after && Target(name) !in before
      ensures name == release.filename && Verified(hash, after, Target(name), release)
    {
      assert name != release.filename ==> Target(name) in files;
    }
    HistoryGrows(hash, before, release, past, now, after);
  }

  lemma Removed(hash: Bytes -> Digest, before: Files, files: Files, release: Release, temporary: Path, past: seq<Files>, now: seq<Files>)
    requires temporary.Temporary? && temporary !in before
    requires TargetSafe(hash, before, files, release) && HistorySafe(hash, before, release, past, now)
    ensures var after := files - {temporary};
            && TargetSafe(hash, before, after, release) && HistorySafe(hash, before, release, past, now + [after])
  {
    hide Matches;
    var after := files - {temporary};
    forall name: string | Target(name) in after && Target(name) !in before
      ensures name == release.filename && Verified(hash, after, Target(name), release)
    {
      assert Target(name) in files;
    }
    HistoryGrows(hash, before, release, past, now, after);
  }

  lemma HistoryGrows(hash: Bytes -> Digest, before: Files, release: Release, past: seq<Files>, now: seq<Files>, after: Files)
    requires HistorySafe(hash, before, release, past, now) && TargetSafe(hash, before, after, release)
    ensures HistorySafe(hash, before, release, past, now + [after])
  {
    hide TargetSafe;
  }
}
