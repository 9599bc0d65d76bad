/** One bootstrap run, and the fixpoint it reaches. */
module BootstrapRun {
  import opened Results
  import opened Sorting
  import opened BundleDownload
  import opened PluginBootstrap

  /** Cache targets that were absent hold verified bundles of the given releases, and everything older is unchanged. */
  ghost predicate Clean(hash: Bytes -> Digest, before: Files, releases: seq<Release>, after: Files) {
    && Keeps(before, after)
    && forall name: string | Target(name) in after && Target(name) !in before ::
         exists r | r in releases :: r.filename == name && Verified(hash, after, Target(name), r)
  }

  ghost predicate AlwaysClean(hash: Bytes -> Digest, before: Files, releases: seq<Release>, past: seq<Files>, now: seq<Files>) {
    past <= now && forall k | |past| <= k < |now| :: Clean(hash, before, releases, now[k])
  }

  ghost predicate AllVerified(hash: Bytes -> Digest, files: Files, resolved: seq<(Path, bool)>, releases: seq<Release>) {
    |resolved| == |releases| && forall i | 0 <= i < |resolved| :: Verified(hash, files, resolved[i].0, releases[i])
  }

  lemma CleanAfterDownload(hash: Bytes -> Digest, before: Files, middle: Files, after: Files, done: seq<Release>, r: Release)
    requires Clean(hash, before, done, middle) && TargetSafe(hash, middle, after, r)
    ensures Clean(hash, before, done + [r], after)
  {
    hide Matches;
    forall name: string | Target(name) in after && Target(name) !in before
      ensures exists x | x in done + [r] :: x.filename == name && Verified(hash, after, Target(name), x)
    {
      if Target(name) in middle {
        var x :| x in done && x.filename == name && Verified(hash, middle, Target(name), x);
        assert x in done + [r] && Verified(hash, after, Target(name), x);
      } else {
        assert r in done + [r];
      }
    }
  }

  lemma CleanForMore(hash: Bytes -> Digest, before: Files, some: seq<Release>, all: seq<Release>, after: Files)
    requires Clean(hash, before, some, after) && forall r | r in some :: r in all
    ensures Clean(hash, before, all, after)
  {
    hide Verified;
    forall name: string | Target(name) in after && Target(name) !in before
      ensures exists x | x in all :: x.filename == name && Verified(hash, after, Target(name), x)
    {
      var x :| x in some && x.filename == name && Verified(hash, after, Target(name), x);
    }
  }

  lemma AlwaysCleanStep(hash: Bytes -> Digest, before: Files, middle: Files, done: seq<Release>, r: Release,
                        past: seq<Files>, now: seq<Files>, next: seq<Files>)
    requires Clean(hash, before, done, middle) && AlwaysClean(hash, before, done, past, now)
    requires HistorySafe(hash, middle, r, now, next)
    ensures AlwaysClean(hash, before, done + [r], past, next)
  {
    hide Clean, TargetSafe;
    forall k | |past| <= k < |next| ensures Clean(hash, before, done + [r], next[k]) {
      if k < |now| {
        assert next[k] == now[k];
        CleanForMore(hash, before, done, done + [r], now[k]);
      } else {
        CleanAfterDownload(hash, before, middle, next[k], done, r);
      }
    }
  }

  lemma NothingDone(hash: Bytes -> Digest, files: Files, past: seq<Files>)
    ensures Clean(hash, files, [], files) && AlwaysClean(hash, files, [], past, past)
    ensures AllVerified(hash, files, [], [])
  {
  }

  lemma VerifiedStays(hash: Bytes -> Digest, before: Files, after: Files, resolved: seq<(Path, bool)>, releases: seq<Release>)
    requires AllVerified(hash, before, resolved, releases) && Keeps(before, after)
    ensures AllVerified(hash, after, resolved, releases)
  {
    hide Matches;
  }

  lemma VerifiedSnoc(hash: Bytes -> Digest, files: Files, resolved: seq<(Path, bool)>, releases: seq<Release>, p: (Path, bool), r: Release)
    requires AllVerified(hash, files, resolved, releases) && Verified(hash, files, p.0, r)
    ensures AllVerified(hash, files, resolved + [p], releases + [r])
  {
    hide Verified;
  }

  /** Every pending bundle is read from its place: its cache target, or the supplied file when one release is selected, or that file name in the supplied directory. */
  ghost predicate InPlace(env: Environment, selectedCount: nat, pending: seq<Release>, resolved: seq<(Path, bool)>) {
    && |resolved| == |pending|
    && forall i | 0 <= i < |pending| ::
         resolved[i].0 == if env.bundle.NoOverride? then Target(pending[i].filename)
                          else Supplied(if selectedCount == 1 then "" else pending[i].filename)
  }

  // ----- the three stages

  /** Checks what is already at its pin and collects the rest; refuses to touch an unmanaged activation. */
  method CheckSelected(host: BootstrapHost, selected: seq<Release>) returns (r: Result<seq<Release>, BootstrapError>)
    ensures r.Success? ==> r.value == Pending(host.registry, selected)
    ensures r.Success? ==> forall x | x in selected :: !Unmanaged(host.registry, x)
    ensures r.Failure? ==> r.error == UnmanagedActivation || r.error == CheckFailed
    ensures r == Failure(UnmanagedActivation) ==> exists x | x in selected :: Unmanaged(host.registry, x)
    ensures r == Failure(CheckFailed) ==> exists x | x in selected :: AtPin(host.registry, x)
  {
    var pending: seq<Release> := [];
    for i := 0 to |selected|
      invariant pending == Pending(host.registry, selected[..i])
      invariant forall x | x in selected[..i] :: !Unmanaged(host.registry, x)
    {
      var release := selected[i];
      assert selected[..i + 1] == selected[..i] + [release];
      FilterSnoc(NotAtPin(host.registry), selected[..i], release);
      if Unmanaged(host.registry, release) {
        return Failure(UnmanagedActivation);
      }
      if AtPin(host.registry, release) {
        var checked: bool := *;
        if !checked {
          return Failure(CheckFailed);
        }
      } else {
        pending := pending + [release];
      }
    }
    assert selected[..|selected|] == selected;
    return Success(pending);
  }

  /** Verifies supplied bundles in place. */
  method VerifySupplied(host: BootstrapHost, pending: seq<Release>, single: bool) returns (r: Result<seq<(Path, bool)>, BootstrapError>)
    ensures r.Success? ==> AllVerified(host.hash, host.files, r.value, pending) && forall p | p in r.value :: !p.1
    ensures r.Success? ==> |r.value| == |pending| && forall i | 0 <= i < |pending| :: r.value[i].0 == Supplied(if single then "" else pending[i].filename)
    ensures r.Failure? ==> ResolveError(r.error)
  {
    hide AllVerified, Verified;
    var resolved: seq<(Path, bool)> := [];
    NothingDone(host.hash, host.files, host.history);
    assert pending[..0] == [];
    for i := 0 to |pending|
      invariant AllVerified(host.hash, host.files, resolved, pending[..i]) && forall p | p in resolved :: !p.1
      invariant |resolved| == i && forall k | 0 <= k < i :: resolved[k].0 == Supplied(if single then "" else pending[k].filename)
    {
      var path := Supplied(if single then "" else pending[i].filename);
      var verified := host.VerifiedLocalBundle(path, pending[i]);
      if verified.Failure? {
        return Failure(verified.error);
      }
      VerifiedSnoc(host.hash, host.files, resolved, pending[..i], (path, false), pending[i]);
      assert pending[..i + 1] == pending[..i] + [pending[i]];
      resolved := resolved + [(path, false)];
    }
    assert pending[..|pending|] == pending;
    return Success(resolved);
  }

  /** A bundle is reported as downloaded only if it was not cached before, and always if nothing else could have cached it. */
  ghost predicate DownloadsTrue(before: Files, pending: seq<Release>, resolved: seq<(Path, bool)>) {
    && |resolved| == |pending|
    && forall i | 0 <= i < |pending| ::
         && (resolved[i].1 ==> Target(pending[i].filename) !in before)
         && (!resolved[i].1 ==>
               Target(pending[i].filename) in before || exists j | 0 <= j < i :: pending[j].filename == pending[i].filename)
  }

  lemma DownloadsSnoc(before: Files, now: Files, hash: Bytes -> Digest, pending: seq<Release>, resolved: seq<(Path, bool)>, r: Release, p: (Path, bool))
    requires DownloadsTrue(before, pending, resolved) && Clean(hash, before, pending, now)
    requires p.1 <==> Target(r.filename) !in now
    ensures DownloadsTrue(before, pending + [r], resolved + [p])
  {
    hide Verified;
    var all, answers := pending + [r], resolved + [p];
    assert Target(r.filename) in before ==> Target(r.filename) in now;
    forall i | 0 <= i < |all|
      ensures answers[i].1 ==> Target(all[i].filename) !in before
      ensures !answers[i].1 ==> Target(all[i].filename) in before || exists j | 0 <= j < i :: all[j].filename == all[i].filename
    {
      if i < |pending| {
        assert all[i] == pending[i] && answers[i] == resolved[i];
        if !answers[i].1 && Target(all[i].filename) !in before {
          var j :| 0 <= j < i && pending[j].filename == pending[i].filename;
          assert all[j].filename == all[i].filename;
        }
      } else if !p.1 && Target(r.filename) !in before {
        var x :| x in pending && x.filename == r.filename && Verified(hash, now, Target(r.filename), x);
        var j :| 0 <= j < |pending| && pending[j] == x;
        assert all[j].filename == all[i].filename;
      }
    }
  }

  /** Downloads every pending bundle that is not cached yet. */
  method DownloadAll(host: BootstrapHost, pending: seq<Release>, responses: Release -> Response)
    returns (r: Result<seq<(Path, bool)>, BootstrapError>)
    requires host.Valid()
    modifies host`files, host`history, host`nextTemporary, host`requests
    ensures host.Valid() && Clean(host.hash, old(host.files), pending, host.files)
    ensures AlwaysClean(host.hash, old(host.files), pending, old(host.history), host.history)
    ensures r.Success? ==> AllVerified(host.hash, host.files, r.value, pending)
    ensures r.Success? ==> DownloadsTrue(old(host.files), pending, r.value)
    ensures r.Success? ==> |r.value| == |pending| && forall i | 0 <= i < |pending| :: r.value[i].0 == Target(pending[i].filename)
    ensures r.Failure? ==> ResolveError(r.error)
    ensures pending == [] ==> r.Success? && host.files == old(host.files) && host.requests == old(host.requests)
  {
    hide AllVerified, Verified, Clean, AlwaysClean, HistorySafe, TargetSafe, Keeps, DownloadsTrue;
    var resolved: seq<(Path, bool)> := [];
    NothingDone(host.hash, host.files, host.history);
    NothingDownloaded(host.files);
    assert pending[..0] == [];
    for i := 0 to |pending|
      invariant host.Valid() && AllVerified(host.hash, host.files, resolved, pending[..i])
      invariant DownloadsTrue(old(host.files), pending[..i], resolved)
      invariant |resolved| == i && forall k | 0 <= k < i :: resolved[k].0 == Target(pending[k].filename)
      invariant Clean(host.hash, old(host.files), pending[..i], host.files)
      invariant AlwaysClean(host.hash, old(host.files), pending[..i], old(host.history), host.history)
      invariant i == 0 ==> host.files == old(host.files) && host.requests == old(host.requests)
    {
      ghost var before, past := host.files, host.history;
      var release := pending[i];
      var bundle := host.Download(release, responses(release));
      assert pending[..i + 1] == pending[..i] + [release];
      CleanAfterDownload(host.hash, old(host.files), before, host.files, pending[..i], release);
      AlwaysCleanStep(host.hash, old(host.files), before, pending[..i], release, old(host.history), past, host.history);
      if bundle.Failure? {
        CleanForMore(host.hash, old(host.files), pending[..i + 1], pending, host.files);
        HistoryForMore(host.hash, old(host.files), pending[..i + 1], pending, old(host.history), host.history);
        return Failure(bundle.error);
      }
      DownloadsSnoc(old(host.files), before, host.hash, pending[..i], resolved, release, bundle.value);
      SafeKeeps(host.hash, before, host.files, release);
      VerifiedStays(host.hash, before, host.files, resolved, pending[..i]);
      VerifiedSnoc(host.hash, host.files, resolved, pending[..i], bundle.value, release);
      resolved := resolved + [bundle.value];
    }
    assert pending[..|pending|] == pending;
    return Success(resolved);
  }

  lemma NothingDownloaded(files: Files)
    ensures DownloadsTrue(files, [], [])
  {
  }

  lemma SafeKeeps(hash: Bytes -> Digest, before: Files, after: Files, release: Release)
    requires TargetSafe(hash, before, after, release)
    ensures Keeps(before, after)
  {
  }

  lemma HistoryForMore(hash: Bytes -> Digest, before: Files, some: seq<Release>, all: seq<Release>, past: seq<Files>, now: seq<Files>)
    requires AlwaysClean(hash, before, some, past, now) && forall r | r in some :: r in all
    ensures AlwaysClean(hash, before, all, past, now)
  {
    hide Clean;
    forall k | |past| <= k < |now| ensures Clean(hash, before, all, now[k]) {
      CleanForMore(hash, before, some, all, now[k]);
    }
  }

  /** Why bundles cannot be resolved: nowhere to take them from, or a failed read, check or download. */
  ghost predicate ResolveFault(error: BootstrapError, env: Environment, selectedCount: nat) {
    match error
    case Misconfigured =>
      match env.bundle {
        case NoOverride => !(env.cacheValid && env.timeoutSeconds.Some? && 0.1 <= env.timeoutSeconds.value <= 300.0)
        case EmptyOverride => true
        case Override(isDirectory) => !isDirectory && selectedCount != 1
      }
    case _ => ResolveError(error)
  }

  /** Where pending bundles come from: nowhere, the supplied path, or the download cache. */
  method ResolveBundles(host: BootstrapHost, env: Environment, selectedCount: nat, pending: seq<Release>, responses: Release -> Response)
    returns (r: Result<seq<(Path, bool)>, BootstrapError>)
    requires host.Valid()
    modifies host`files, host`history, host`nextTemporary, host`requests
    ensures host.Valid() && Clean(host.hash, old(host.files), pending, host.files)
    ensures AlwaysClean(host.hash, old(host.files), pending, old(host.history), host.history)
    ensures r.Success? ==> AllVerified(host.hash, host.files, r.value, pending)
    ensures pending == [] ==> r.Success?
    ensures r.Success? ==> InPlace(env, selectedCount, pending, r.value)
    ensures r.Success? && env.bundle.NoOverride? ==> DownloadsTrue(old(host.files), pending, r.value)
    ensures r.Success? && !env.bundle.NoOverride? ==> forall p | p in r.value :: !p.1
    ensures r.Failure? ==> ResolveFault(r.error, env, selectedCount)
    ensures pending == [] || !env.bundle.NoOverride? ==> host.files == old(host.files) && host.requests == old(host.requests)
  {
    hide AllVerified, Clean, AlwaysClean, DownloadsTrue;
    NothingDone(host.hash, host.files, host.history);
    NothingDownloaded(host.files);
    CleanForMore(host.hash, host.files, [], pending, host.files);
    HistoryForMore(host.hash, host.files, [], pending, host.history, host.history);
    if pending == [] {
      return Success([]);
    }
    if env.bundle != NoOverride {
      if env.bundle.EmptyOverride? {
        return Failure(Misconfigured);
      }
      if selectedCount != 1 && !env.bundle.isDirectory {
        return Failure(Misconfigured);
      }
      r := VerifySupplied(host, pending, selectedCount == 1);
      return;
    }
    if !env.cacheValid || env.timeoutSeconds.None? || !(0.1 <= env.timeoutSeconds.value <= 300.0) {
      return Failure(Misconfigured);
    }
    r := DownloadAll(host, pending, responses);
  }

  /** The installer's visible contract: it takes verified bundles only, and publishes all activations at once or none. */
  method InstallMany(host: BootstrapHost, pending: seq<Release>, resolved: seq<(Path, bool)>) returns (ok: bool, ghost bundles: seq<(Release, Bytes)>)
    requires AllVerified(host.hash, host.files, resolved, pending) && pending != []
    modifies host`registry, host`installs
    ensures InstallsPending(host.hash, bundles, pending) && host.installs == old(host.installs) + [bundles]
    ensures |bundles| == |pending| == |resolved| && forall i | 0 <= i < |pending| ::
              bundles[i].0 == pending[i] && resolved[i].0 in host.files && host.files[resolved[i].0] == File(bundles[i].1)
    ensures host.registry == (if ok then Activated(host.hash, host.manifest, old(host.registry), bundles) else old(host.registry))
  {
    var loaded: seq<(Release, Bytes)> := [];
    for i := 0 to |pending|
      invariant |loaded| == i
      invariant forall k | 0 <= k < i :: loaded[k].0 == pending[k] && Matches(host.hash, loaded[k].1, pending[k])
      invariant |resolved| == |pending|
      invariant forall k | 0 <= k < i :: resolved[k].0 in host.files && host.files[resolved[k].0] == File(loaded[k].1)
    {
      assert Verified(host.hash, host.files, resolved[i].0, pending[i]);
      loaded := loaded + [(pending[i], host.files[resolved[i].0].bytes)];
    }
    bundles := loaded;
    host.installs := host.installs + [loaded];
    ok := *;
    if ok {
      host.registry := Activated(host.hash, host.manifest, host.registry, loaded);
    }
  }

  function ItemsOf(before: Registry, after: Registry, selected: seq<Release>, pending: seq<Release>, resolved: seq<(Path, bool)>): (r: seq<Item>)
    requires |resolved| == |pending|
    ensures |r| == |selected|
  {
    if selected == [] then []
    else
      var s := selected[|selected| - 1];
      ItemsOf(before, after, selected[..|selected| - 1], pending, resolved)
      + [ItemOf(before, after, s, pending, resolved)]
  }

  function ItemOf(before: Registry, after: Registry, s: Release, pending: seq<Release>, resolved: seq<(Path, bool)>): Item
    requires |resolved| == |pending|
  {
    var changed := s in pending && (s.runtimeId !in before || s.runtimeId !in after || before[s.runtimeId] != after[s.runtimeId]);
    Item(s.runtimeId, s.version, s.sha256, if changed then Installed else Ready, changed,
         exists i | 0 <= i < |pending| :: pending[i] == s && resolved[i].1)
  }

  // ----- the run

  ghost predicate ValidEnvironment(env: Environment) {
    Distinct(env.required) && (env.lock.Some? ==> DistinctIds(env.lock.value))
  }

  function SelectedBy(env: Environment): seq<Release> {
    if env.lock.None? then [] else Selected(env.lock.value, env.required)
  }

  /** Whether the environment asks for the bootstrap at all. */
  predicate Enabled(env: Environment) {
    env.hostEnabled == Some(true) && env.bootstrapEnabled == Some(true)
  }

  /** A routed first-party runtime is missing from the lock. */
  predicate LockIncomplete(env: Environment) {
    env.lock.Some? && exists id | id in env.required :: id in FIRST_PARTY_RUNTIME_IDS && !Locked(env.lock.value, id)
  }

  /** Nothing to do: the host or the bootstrap is switched off, or no official runtime is routed. */
  predicate Skips(env: Environment) {
    || env.hostEnabled == Some(false)
    || (env.hostEnabled == Some(true) && env.bootstrapEnabled == Some(false))
    || (Enabled(env) && env.lock.Some? && !LockIncomplete(env) && SelectedBy(env) == [])
  }

  // ----- the run in plain terms

  /** A release of the lock whose runtime is routed. */
  ghost predicate Routed(env: Environment, r: Release) {
    env.lock.Some? && r in env.lock.value && r.runtimeId in env.required
  }

  /** The registry activates exactly this bundle of this version. */
  ghost predicate Pinned(registry: Registry, r: Release) {
    r.runtimeId in registry && registry[r.runtimeId] == Activation(r.version, Some(r.sha256), true, true, true)
  }

  /** A first-party runtime is routed and the lock does not name it. */
  ghost predicate FirstPartyMissing(env: Environment) {
    && env.lock.Some?
    && exists id | id in env.required && (id == "candlescope.pyne" || id == "candlescope.pine-compat") ::
         forall r | r in env.lock.value :: r.runtimeId != id
  }

  /** The run has nothing to do. */
  ghost predicate NothingToDo(env: Environment) {
    || env.hostEnabled == Some(false)
    || (env.hostEnabled == Some(true) && env.bootstrapEnabled == Some(false))
    || (env.hostEnabled == Some(true) && env.bootstrapEnabled == Some(true) && env.lock.Some? && !FirstPartyMissing(env)
        && forall r :: !Routed(env, r))
  }

  /** New files in the cache are bundles of routed releases that were not at their pin; older files are as they were. */
  ghost predicate CacheSafe(hash: Bytes -> Digest, env: Environment, registry: Registry, before: Files, after: Files) {
    && (forall p | p in before :: p in after && after[p] == before[p])
    && forall name: string | Target(name) in after && Target(name) !in before ::
         exists r | Routed(env, r) && !Pinned(registry, r) :: r.filename == name && HoldsBundle(hash, after, Target(name), r)
  }

  ghost predicate HoldsBundle(hash: Bytes -> Digest, files: Files, p: Path, r: Release) {
    p in files && files[p].File? && hash(files[p].bytes) == r.sha256 && |files[p].bytes| == r.size
  }

  /** One installation: a bundle of matching size and digest for every routed release that was not at its pin, and no other. */
  ghost predicate InstallsExactly(hash: Bytes -> Digest, env: Environment, registry: Registry, bundles: seq<(Release, Bytes)>) {
    && (forall i | 0 <= i < |bundles| ::
          Routed(env, bundles[i].0) && !Pinned(registry, bundles[i].0)
          && hash(bundles[i].1) == bundles[i].0.sha256 && |bundles[i].1| == bundles[i].0.size)
    && (forall r | Routed(env, r) && !Pinned(registry, r) :: exists i | 0 <= i < |bundles| :: bundles[i].0 == r)
  }

  /** What is installed was read from the cache, or from the supplied file when one release is routed, or else from the supplied directory. */
  ghost predicate ReadFrom(env: Environment, files: Files, bundles: seq<(Release, Bytes)>) {
    forall i | 0 <= i < |bundles| :: ReadAt(env, files, bundles[i].0, bundles[i].1)
  }

  ghost predicate ReadAt(env: Environment, files: Files, r: Release, bytes: Bytes) {
    var p := if env.bundle.NoOverride? then Target(r.filename) else Supplied(if OneRouted(env) then "" else r.filename);
    p in files && files[p] == File(bytes)
  }

  /** The items follow the routes; each names its release, and says truly whether the registry's entry changed. */
  ghost predicate ItemsSay(env: Environment, cache: Files, before: Registry, after: Registry, items: seq<Item>) {
    && env.lock.Some? && |items| == |Filter(InLock(env.lock.value), env.required)|
    && forall i | 0 <= i < |items| ::
         ItemSays(env, cache, before, after, Filter(InLock(env.lock.value), env.required)[i], items[i])
  }

  ghost predicate ItemSays(env: Environment, cache: Files, before: Registry, after: Registry, id: string, item: Item) {
    && item.runtimeId == id && (item.status == Installed <==> item.changed)
    && exists r | Routed(env, r) :: ItemNames(item, r, before, after) && DownloadNamed(env, cache, before, item, r)
  }

  ghost predicate ItemNames(item: Item, r: Release, before: Registry, after: Registry) {
    && item.runtimeId == r.runtimeId && item.version == r.version && item.bundleSha256 == r.sha256
    && (item.changed <==> !Pinned(before, r) && !SameEntry(before, after, r.runtimeId))
  }

  /** What an item says of a download: nothing cached the bundle before, and nothing else than the run could have fetched it. */
  ghost predicate DownloadNamed(env: Environment, cache: Files, registry: Registry, item: Item, r: Release) {
    && (item.downloaded ==> !Pinned(registry, r) && env.bundle.NoOverride? && Target(r.filename) !in cache)
    && (!Pinned(registry, r) && env.bundle.NoOverride? && Target(r.filename) !in cache ==>
          item.downloaded || exists x | Routed(env, x) && x.filename == r.filename :: x != r)
  }

  ghost predicate SameEntry(before: Registry, after: Registry, id: string) {
    id in before && id in after && before[id] == after[id]
  }

  /** Why a run fails. */
  ghost predicate BootstrapFault(error: BootstrapError, env: Environment, platformOk: Release -> bool, registry: Registry) {
    match error
    case Misconfigured =>
      || env.hostEnabled.None? || env.bootstrapEnabled.None? || env.lock.None? || !env.registryPathValid
      || ((exists r :: Routed(env, r) && !Pinned(registry, r)) && !BundleSourceValid(env))
    case ReleaseMissing => FirstPartyMissing(env)
    case PlatformUnsupported => exists r :: Routed(env, r) && !platformOk(r)
    case UnmanagedActivation => exists r :: Routed(env, r) && r.runtimeId in registry && registry[r.runtimeId].bundleSha256.None?
    case CheckFailed => exists r :: Routed(env, r) && Pinned(registry, r)
    case _ => exists r :: Routed(env, r) && !Pinned(registry, r)
  }

  /** A supplied bundle or directory that fits, or a usable download cache with a timeout in range. */
  ghost predicate BundleSourceValid(env: Environment) {
    match env.bundle
    case NoOverride => env.cacheValid && env.timeoutSeconds.Some? && 0.1 <= env.timeoutSeconds.value <= 300.0
    case EmptyOverride => false
    case Override(isDirectory) => isDirectory || OneRouted(env)
  }

  ghost predicate OneRouted(env: Environment) {
    env.lock.Some? && |Filter(InLock(env.lock.value), env.required)| == 1
  }

  lemma RoutedAreSelected(env: Environment)
    ensures forall r :: r in SelectedBy(env) <==> Routed(env, r)
  {
    if env.lock.Some? { SelectedMembers(env.lock.value, env.required); }
  }

  lemma PendingAreUnpinned(env: Environment, registry: Registry)
    ensures forall r :: r in Pending(registry, SelectedBy(env)) <==> Routed(env, r) && !Pinned(registry, r)
  {
    hide Selected, Filter;
    RoutedAreSelected(env);
    FilterMembers(NotAtPin(registry), SelectedBy(env));
  }

  lemma SkipsMeansNothingToDo(env: Environment)
    ensures Skips(env) <==> NothingToDo(env)
    ensures LockIncomplete(env) <==> FirstPartyMissing(env)
  {
    RoutedAreSelected(env);
    hide Selected;
    if env.lock.Some? {
      FirstPartyUnlocked(env, "candlescope.pyne");
      FirstPartyUnlocked(env, "candlescope.pine-compat");
      assert SelectedBy(env) == [] <==> forall r :: !Routed(env, r) by {
        if SelectedBy(env) != [] { assert SelectedBy(env)[0] in SelectedBy(env); }
      }
    }
  }

  lemma FirstPartyUnlocked(env: Environment, id: string)
    requires env.lock.Some?
    ensures !Locked(env.lock.value, id) <==> forall r | r in env.lock.value :: r.runtimeId != id
  {
  }

  lemma CleanIsSafe(hash: Bytes -> Digest, env: Environment, registry: Registry, before: Files, after: Files)
    requires Clean(hash, before, Pending(registry, SelectedBy(env)), after)
    ensures CacheSafe(hash, env, registry, before, after)
  {
    hide Pending;
    PendingAreUnpinned(env, registry);
    forall name: string | Target(name) in after && Target(name) !in before
      ensures exists r | Routed(env, r) && !Pinned(registry, r) :: r.filename == name && HoldsBundle(hash, after, Target(name), r)
    {
      var r :| r in Pending(registry, SelectedBy(env)) && r.filename == name && Verified(hash, after, Target(name), r);
      assert HoldsBundle(hash, after, Target(name), r);
    }
  }

  lemma AlwaysSafe(hash: Bytes -> Digest, env: Environment, registry: Registry, before: Files, past: seq<Files>, now: seq<Files>)
    requires AlwaysClean(hash, before, Pending(registry, SelectedBy(env)), past, now)
    ensures past <= now && forall k | |past| <= k < |now| :: CacheSafe(hash, env, registry, before, now[k])
  {
    hide Pending, Clean, CacheSafe;
    forall k | |past| <= k < |now| ensures CacheSafe(hash, env, registry, before, now[k]) {
      CleanIsSafe(hash, env, registry, before, now[k]);
    }
  }

  lemma InstallIsExact(hash: Bytes -> Digest, env: Environment, registry: Registry, bundles: seq<(Release, Bytes)>)
    requires InstallsPending(hash, bundles, Pending(registry, SelectedBy(env)))
    ensures InstallsExactly(hash, env, registry, bundles)
  {
    hide Pending;
    PendingAreUnpinned(env, registry);
    var pending := Pending(registry, SelectedBy(env));
    forall i | 0 <= i < |bundles|
      ensures Routed(env, bundles[i].0) && !Pinned(registry, bundles[i].0)
      ensures hash(bundles[i].1) == bundles[i].0.sha256 && |bundles[i].1| == bundles[i].0.size
    {
      assert pending[i] in pending;
    }
    forall r | Routed(env, r) && !Pinned(registry, r) ensures exists i | 0 <= i < |bundles| :: bundles[i].0 == r {
      assert r in pending;
      var i :| 0 <= i < |pending| && pending[i] == r;
      assert bundles[i].0 == r;
    }
  }

  lemma PlacesAreRead(env: Environment, files: Files, pending: seq<Release>, resolved: seq<(Path, bool)>, bundles: seq<(Release, Bytes)>)
    requires ValidEnvironment(env) && env.lock.Some? && InPlace(env, |SelectedBy(env)|, pending, resolved)
    requires |bundles| == |pending| && forall i | 0 <= i < |pending| ::
               bundles[i].0 == pending[i] && resolved[i].0 in files && files[resolved[i].0] == File(bundles[i].1)
    ensures ReadFrom(env, files, bundles)
  {
    hide DistinctIds, Selected, Filter;
    SelectedFollowsRoutes(env.lock.value, env.required);
    IdsAt(SelectedBy(env));
    forall i | 0 <= i < |bundles| ensures ReadAt(env, files, bundles[i].0, bundles[i].1) {
      assert bundles[i].0 == pending[i];
    }
  }

  lemma {:induction false} ItemsAt(before: Registry, after: Registry, selected: seq<Release>, pending: seq<Release>, resolved: seq<(Path, bool)>, i: nat)
    requires |resolved| == |pending| && i < |selected|
    ensures ItemsOf(before, after, selected, pending, resolved)[i] == ItemOf(before, after, selected[i], pending, resolved)
  {
    if i < |selected| - 1 { ItemsAt(before, after, selected[..|selected| - 1], pending, resolved, i); }
  }

  lemma ItemIsTrue(before: Registry, after: Registry, s: Release, pending: seq<Release>, resolved: seq<(Path, bool)>)
    requires |resolved| == |pending| && (s in pending <==> !Pinned(before, s))
    ensures var item := ItemOf(before, after, s, pending, resolved);
            ItemNames(item, s, before, after) && (item.status == Installed <==> item.changed)
  {
  }

  lemma DownloadIsTrue(env: Environment, cache: Files, before: Registry, after: Registry, s: Release, pending: seq<Release>, resolved: seq<(Path, bool)>)
    requires |resolved| == |pending| && DistinctIds(pending) && pending == Pending(before, SelectedBy(env)) && Routed(env, s)
    requires env.bundle.NoOverride? ==> DownloadsTrue(cache, pending, resolved)
    requires !env.bundle.NoOverride? ==> forall p | p in resolved :: !p.1
    ensures DownloadNamed(env, cache, before, ItemOf(before, after, s, pending, resolved), s)
  {
    hide Pending, Pinned, Routed;
    PendingAreUnpinned(env, before);
    var item := ItemOf(before, after, s, pending, resolved);
    if item.downloaded {
      var i :| 0 <= i < |pending| && pending[i] == s && resolved[i].1;
      assert resolved[i] in resolved && pending[i] in pending;
    }
    if !Pinned(before, s) && env.bundle.NoOverride? && Target(s.filename) !in cache && !item.downloaded {
      var i :| 0 <= i < |pending| && pending[i] == s;
      assert !resolved[i].1;
      var j :| 0 <= j < i && pending[j].filename == s.filename;
      assert pending[j] in pending && pending[j].runtimeId != s.runtimeId;
    }
  }

  lemma ItemsAreTrue(env: Environment, cache: Files, before: Registry, after: Registry, pending: seq<Release>, resolved: seq<(Path, bool)>)
    requires env.lock.Some? && DistinctIds(env.lock.value) && pending == Pending(before, SelectedBy(env)) && |resolved| == |pending|
    requires env.bundle.NoOverride? ==> DownloadsTrue(cache, pending, resolved)
    requires !env.bundle.NoOverride? ==> forall p | p in resolved :: !p.1
    requires DistinctIds(pending)
    ensures ItemsSay(env, cache, before, after, ItemsOf(before, after, SelectedBy(env), pending, resolved))
  {
    hide Pending, Selected, DistinctIds, ItemOf, ItemsOf, ItemSays, Pinned, Filter, DownloadsTrue, Routed;
    var selected := SelectedBy(env);
    PendingAreUnpinned(env, before);
    RoutedAreSelected(env);
    SelectedFollowsRoutes(env.lock.value, env.required);
    IdsAt(selected);
    var items := ItemsOf(before, after, selected, pending, resolved);
    forall i | 0 <= i < |items|
      ensures ItemSays(env, cache, before, after, Filter(InLock(env.lock.value), env.required)[i], items[i])
    {
      assert selected[i] in selected;
      ItemsAt(before, after, selected, pending, resolved, i);
      OneItemIsTrue(env, cache, before, after, selected[i], pending, resolved);
    }
  }

  lemma OneItemIsTrue(env: Environment, cache: Files, before: Registry, after: Registry, s: Release, pending: seq<Release>, resolved: seq<(Path, bool)>)
    requires |resolved| == |pending| && DistinctIds(pending) && pending == Pending(before, SelectedBy(env)) && Routed(env, s)
    requires env.bundle.NoOverride? ==> DownloadsTrue(cache, pending, resolved)
    requires !env.bundle.NoOverride? ==> forall p | p in resolved :: !p.1
    ensures ItemSays(env, cache, before, after, s.runtimeId, ItemOf(before, after, s, pending, resolved))
  {
    hide Pending, DistinctIds, DownloadsTrue, DownloadNamed, Routed, Pinned, ItemOf, SelectedBy;
    PendingAreUnpinned(env, before);
    ItemIsTrue(before, after, s, pending, resolved);
    DownloadIsTrue(env, cache, before, after, s, pending, resolved);
  }

  /**
   * A run. It has nothing to do exactly when the host or the bootstrap is switched off or no locked runtime is routed;
   * otherwise every routed release the lock names ends at its pin or the run fails and the registry is as it was. No
   * installation starts before every bundle it needs has matched its pin; with every routed release at its pin nothing
   * is fetched or installed; no entry of the registry that is not routed changes.
   */
  method EnsureFirstPartyPlugins(host: BootstrapHost, env: Environment, platformOk: Release -> bool, responses: Release -> Response)
    returns (r: Result<Outcome, BootstrapError>)
    requires host.Valid() && ValidEnvironment(env)
    modifies host
    ensures host.Valid()
    ensures r == Success(Skipped) <==> NothingToDo(env)
    ensures r == Failure(ReleaseMissing) <==>
              env.hostEnabled == Some(true) && env.bootstrapEnabled == Some(true) && env.lock.Some? && FirstPartyMissing(env)
    ensures r.Failure? ==> BootstrapFault(r.error, env, platformOk, old(host.registry))
    ensures r.Failure? || r.value.Skipped? ==> host.registry == old(host.registry)
    ensures CacheSafe(host.hash, env, old(host.registry), old(host.files), host.files)
    ensures old(host.history) <= host.history
    ensures forall k | |old(host.history)| <= k < |host.history| ::
              CacheSafe(host.hash, env, old(host.registry), old(host.files), host.history[k])
    ensures host.installs == old(host.installs)
         || (exists bundles :: host.installs == old(host.installs) + [bundles]
                            && InstallsExactly(host.hash, env, old(host.registry), bundles) && ReadFrom(env, host.files, bundles))
    ensures r.Success? && r.value.Finished? ==>
              && env.hostEnabled == Some(true) && env.bootstrapEnabled == Some(true) && (exists x :: Routed(env, x))
              && ItemsSay(env, old(host.files), old(host.registry), host.registry, r.value.items)
              && (r.value.changed <==> exists i | 0 <= i < |r.value.items| :: r.value.items[i].changed)
              && (r.value.downloaded <==> exists i | 0 <= i < |r.value.items| :: r.value.items[i].downloaded)
              && (forall x | Routed(env, x) ::
                    platformOk(x) && !(x.runtimeId in old(host.registry) && old(host.registry)[x.runtimeId].bundleSha256.None?))
    ensures r.Success? && r.value.Finished? && PinsNameBundles(host.hash, host.manifest, SelectedBy(env)) ==>
              && (forall x | Routed(env, x) :: Pinned(host.registry, x))
              && (forall id | id in old(host.registry) && (forall x | Routed(env, x) :: x.runtimeId != id) ::
                    SameEntry(old(host.registry), host.registry, id))
    ensures (forall x | Routed(env, x) :: Pinned(old(host.registry), x)) ==>
              && host.files == old(host.files) && host.registry == old(host.registry)
              && host.installs == old(host.installs) && host.requests == old(host.requests)
  {
    hide AllVerified, Clean, AlwaysClean, InstallsPending, Activated, PinsNameBundles, DistinctIds, Pending, Selected, AtPin, Unmanaged, ItemsOf,
         CacheSafe, InstallsExactly, ItemsSay, Pinned, NothingToDo, FirstPartyMissing, BootstrapFault, Routed, SameEntry, Skips, LockIncomplete, ReadFrom;
    var before := host.registry;
    SkipsMeansNothingToDo(env);
    EarlyFaults(env, platformOk, before);
    NothingCached(host.hash, env, before, host.files);
    AllPinned(env, before);
    StepsOfSkip(env);
    if env.hostEnabled.None? {
      return Failure(Misconfigured);
    }
    if !env.hostEnabled.value {
      return Success(Skipped);
    }
    if env.bootstrapEnabled.None? {
      return Failure(Misconfigured);
    }
    if !env.bootstrapEnabled.value {
      return Success(Skipped);
    }
    if env.lock.None? {
      return Failure(Misconfigured);
    }
    if LockIncomplete(env) {
      return Failure(ReleaseMissing);
    }
    if SelectedBy(env) == [] {
      return Success(Skipped);
    }
    r := Bootstrap(host, env, platformOk, responses);
  }

  /** The part of a run that has something to do. */
  method Bootstrap(host: BootstrapHost, env: Environment, platformOk: Release -> bool, responses: Release -> Response)
    returns (r: Result<Outcome, BootstrapError>)
    requires host.Valid() && ValidEnvironment(env) && env.lock.Some? && SelectedBy(env) != []
    requires env.hostEnabled.Some? && env.bootstrapEnabled.Some?
    modifies host
    ensures host.Valid()
    ensures r.Failure? ==>
              && BootstrapFault(r.error, env, platformOk, old(host.registry)) && r.error != ReleaseMissing
              && host.registry == old(host.registry)
    ensures CacheSafe(host.hash, env, old(host.registry), old(host.files), host.files)
    ensures old(host.history) <= host.history
    ensures forall k | |old(host.history)| <= k < |host.history| ::
              CacheSafe(host.hash, env, old(host.registry), old(host.files), host.history[k])
    ensures host.installs == old(host.installs)
         || (exists bundles :: host.installs == old(host.installs) + [bundles]
                            && InstallsExactly(host.hash, env, old(host.registry), bundles) && ReadFrom(env, host.files, bundles))
    ensures r.Success? ==>
              && r.value.Finished? && ItemsSay(env, old(host.files), old(host.registry), host.registry, r.value.items)
              && (r.value.changed <==> exists i | 0 <= i < |r.value.items| :: r.value.items[i].changed)
              && (r.value.downloaded <==> exists i | 0 <= i < |r.value.items| :: r.value.items[i].downloaded)
              && (forall x | Routed(env, x) ::
                    platformOk(x) && !(x.runtimeId in old(host.registry) && old(host.registry)[x.runtimeId].bundleSha256.None?))
    ensures r.Success? && PinsNameBundles(host.hash, host.manifest, SelectedBy(env)) ==>
              && (forall x | Routed(env, x) :: Pinned(host.registry, x))
              && (forall id | id in old(host.registry) && (forall x | Routed(env, x) :: x.runtimeId != id) ::
                    SameEntry(old(host.registry), host.registry, id))
    ensures Pending(old(host.registry), SelectedBy(env)) == [] ==>
              && host.files == old(host.files) && host.registry == old(host.registry)
              && host.installs == old(host.installs) && host.requests == old(host.requests)
  {
    hide AllVerified, Clean, AlwaysClean, InstallsPending, Activated, PinsNameBundles, DistinctIds, Pending, Selected, AtPin, ItemsOf,
         CacheSafe, InstallsExactly, ItemsSay, Pinned, FirstPartyMissing, BootstrapFault, Routed, SameEntry, DownloadsTrue, InPlace, ReadFrom, Filter;
    var selected := SelectedBy(env);
    ghost var before := host.registry;
    var registry := host.registry;
    NothingCached(host.hash, env, before, host.files);
    RoutedAreSelected(env);
    EarlyFaults(env, platformOk, before);
    if exists x | x in selected :: !platformOk(x) {
      return Failure(PlatformUnsupported);
    }
    if !env.registryPathValid {
      return Failure(Misconfigured);
    }
    var checked := CheckSelected(host, selected);
    if checked.Failure? {
      CheckFaults(checked.error, env, platformOk, before);
      return Failure(checked.error);
    }
    var pending := checked.value;
    var resolved := ResolveBundles(host, env, |selected|, pending, responses);
    CleanIsSafe(host.hash, env, before, old(host.files), host.files);
    AlwaysSafe(host.hash, env, before, old(host.files), old(host.history), host.history);
    if resolved.Failure? {
      ResolveFaults(resolved.error, env, platformOk, before);
      return Failure(resolved.error);
    }
    ResolvedLength(host.hash, host.files, resolved.value, pending);
    if pending == [] {
      NothingPendingAtPins(before, selected);
      PinsKept(env, before);
    } else {
      var ok, bundles := InstallMany(host, pending, resolved.value);
      InstallIsExact(host.hash, env, before, bundles);
      PlacesAreRead(env, host.files, pending, resolved.value, bundles);
      if !ok {
        InstallFaults(env, platformOk, before);
        return Failure(InstallFailed);
      }
      if PinsNameBundles(host.hash, host.manifest, selected) {
        SelectedDistinct(env.lock.value, env.required);
        EverythingPinned(host.hash, host.manifest, env, before, bundles);
      }
    }
    var items := ItemsOf(registry, host.registry, selected, pending, resolved.value);
    SelectedDistinct(env.lock.value, env.required);
    PendingDistinct(before, selected);
    ItemsAreTrue(env, old(host.files), before, host.registry, pending, resolved.value);
    var changed := exists i | 0 <= i < |items| :: items[i].changed;
    var downloaded := exists i | 0 <= i < |items| :: items[i].downloaded;
    return Success(Finished(items, changed, downloaded));
  }

  // ----- the branches of a run

  lemma EarlyFaults(env: Environment, platformOk: Release -> bool, registry: Registry)
    ensures env.hostEnabled.None? || env.bootstrapEnabled.None? || env.lock.None? || !env.registryPathValid ==>
              BootstrapFault(Misconfigured, env, platformOk, registry)
    ensures LockIncomplete(env) ==> BootstrapFault(ReleaseMissing, env, platformOk, registry)
    ensures (exists x | x in SelectedBy(env) :: !platformOk(x)) ==> BootstrapFault(PlatformUnsupported, env, platformOk, registry)
  {
    hide Selected, FirstPartyMissing, LockIncomplete;
    RoutedAreSelected(env);
    SkipsMeansNothingToDo(env);
  }

  lemma CheckFaults(error: BootstrapError, env: Environment, platformOk: Release -> bool, registry: Registry)
    requires error == UnmanagedActivation || error == CheckFailed
    requires error == UnmanagedActivation ==> exists x | x in SelectedBy(env) :: Unmanaged(registry, x)
    requires error == CheckFailed ==> exists x | x in SelectedBy(env) :: AtPin(registry, x)
    ensures BootstrapFault(error, env, platformOk, registry)
  {
    hide Selected;
    RoutedAreSelected(env);
    if error == CheckFailed {
      var x :| x in SelectedBy(env) && AtPin(registry, x);
      assert Routed(env, x) && Pinned(registry, x);
    }
  }

  lemma ResolveFaults(error: BootstrapError, env: Environment, platformOk: Release -> bool, registry: Registry)
    requires Pending(registry, SelectedBy(env)) != [] && ResolveFault(error, env, |SelectedBy(env)|) && ValidEnvironment(env)
    ensures BootstrapFault(error, env, platformOk, registry) && error != ReleaseMissing
  {
    hide Selected, DistinctIds, Filter;
    PendingAreUnpinned(env, registry);
    var x := Pending(registry, SelectedBy(env))[0];
    assert x in Pending(registry, SelectedBy(env));
    assert Routed(env, x) && !Pinned(registry, x);
    if env.lock.Some? { SelectedFollowsRoutes(env.lock.value, env.required); }
  }

  lemma InstallFaults(env: Environment, platformOk: Release -> bool, registry: Registry)
    requires Pending(registry, SelectedBy(env)) != []
    ensures BootstrapFault(InstallFailed, env, platformOk, registry)
  {
    hide Selected;
    PendingAreUnpinned(env, registry);
    var x := Pending(registry, SelectedBy(env))[0];
    assert x in Pending(registry, SelectedBy(env));
    assert Routed(env, x) && !Pinned(registry, x);
  }

  lemma NothingCached(hash: Bytes -> Digest, env: Environment, registry: Registry, files: Files)
    ensures CacheSafe(hash, env, registry, files, files)
  {
  }

  lemma AllPinned(env: Environment, registry: Registry)
    ensures (forall x | Routed(env, x) :: Pinned(registry, x)) <==> Pending(registry, SelectedBy(env)) == []
  {
    hide Pending, Selected;
    PendingAreUnpinned(env, registry);
    var pending := Pending(registry, SelectedBy(env));
    if pending != [] { assert pending[0] in pending; }
  }

  lemma StepsOfSkip(env: Environment)
    ensures env.hostEnabled == Some(false) ==> Skips(env)
    ensures env.hostEnabled == Some(true) && env.bootstrapEnabled == Some(false) ==> Skips(env)
    ensures env.hostEnabled.None? || (env.hostEnabled == Some(true) && env.bootstrapEnabled.None?) ==> !Skips(env)
    ensures env.hostEnabled == Some(true) && env.bootstrapEnabled == Some(true) ==>
              (Skips(env) <==> env.lock.Some? && !LockIncomplete(env) && SelectedBy(env) == [])
    ensures LockIncomplete(env) ==> env.lock.Some?
    ensures SelectedBy(env) != [] ==> exists x :: Routed(env, x)
  {
    hide Selected;
    RoutedAreSelected(env);
    if SelectedBy(env) != [] { assert SelectedBy(env)[0] in SelectedBy(env); }
  }

  lemma PinsKept(env: Environment, registry: Registry)
    requires forall x | x in SelectedBy(env) :: AtPin(registry, x)
    ensures forall x | Routed(env, x) :: Pinned(registry, x)
    ensures forall id | id in registry :: SameEntry(registry, registry, id)
  {
    hide Selected;
    RoutedAreSelected(env);
  }

  lemma EverythingPinned(hash: Bytes -> Digest, manifest: Bytes -> Manifest, env: Environment, registry: Registry, bundles: seq<(Release, Bytes)>)
    requires InstallsPending(hash, bundles, Pending(registry, SelectedBy(env))) && PinsNameBundles(hash, manifest, SelectedBy(env))
    requires DistinctIds(SelectedBy(env))
    ensures forall x | Routed(env, x) :: Pinned(Activated(hash, manifest, registry, bundles), x)
    ensures forall id | id in registry && (forall x | Routed(env, x) :: x.runtimeId != id) ::
              SameEntry(registry, Activated(hash, manifest, registry, bundles), id)
  {
    hide Activated, Selected, Pending, PinsNameBundles, InstallsPending, DistinctIds;
    RoutedAreSelected(env);
    PendingAreUnpinned(env, registry);
    AllAtPins(hash, manifest, registry, bundles, SelectedBy(env));
    FewerPins(hash, manifest, SelectedBy(env), Pending(registry, SelectedBy(env)));
    PendingDistinct(registry, SelectedBy(env));
    ActivatedAtPins(hash, manifest, registry, bundles, Pending(registry, SelectedBy(env)));
  }

  lemma ResolvedLength(hash: Bytes -> Digest, files: Files, resolved: seq<(Path, bool)>, releases: seq<Release>)
    requires AllVerified(hash, files, resolved, releases)
    ensures |resolved| == |releases|
  {
  }

  /** The fixpoint: a run that finishes makes the next run with the same environment fetch and install nothing. */
  method EnsureTwice(host: BootstrapHost, env: Environment, platformOk: Release -> bool, responses: Release -> Response, later: Release -> Response)
    returns (first: Result<Outcome, BootstrapError>, second: Result<Outcome, BootstrapError>, ghost between: (Files, Registry, int, int))
    requires host.Valid() && ValidEnvironment(env) && PinsNameBundles(host.hash, host.manifest, SelectedBy(env))
    modifies host
    ensures first.Success? && first.value.Finished? ==>
              && (forall x | Routed(env, x) :: Pinned(between.1, x))
              && between == (host.files, host.registry, |host.installs|, host.requests)
  {
    hide PinsNameBundles, Selected, Routed, Pinned, CacheSafe, InstallsExactly, ItemsSay, NothingToDo, FirstPartyMissing, BootstrapFault, SameEntry, ReadFrom;
    first := EnsureFirstPartyPlugins(host, env, platformOk, responses);
    between := (host.files, host.registry, |host.installs|, host.requests);
    second := EnsureFirstPartyPlugins(host, env, platformOk, later);
  }
}
