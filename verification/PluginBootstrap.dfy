/** First-party plugin bootstrap: verify every pending bundle, then publish all activations at once. */
module PluginBootstrap {
  import opened Results
  import opened Sorting
  import opened BundleDownload

  const FIRST_PARTY_RUNTIME_IDS: set<string> := {"candlescope.pyne", "candlescope.pine-compat"}

  datatype Override = NoOverride | EmptyOverride | Override(isDirectory: bool)

  /** The environment, already parsed; `None` marks a value the parser rejects. */
  datatype Environment = Environment(
    hostEnabled: Option<bool>, bootstrapEnabled: Option<bool>, required: seq<string>, lock: Option<seq<Release>>,
    registryPathValid: bool, bundle: Override, cacheValid: bool, timeoutSeconds: Option<real>)

  datatype Status = Ready | Installed

  datatype Item = Item(runtimeId: string, version: string, bundleSha256: Digest, status: Status, changed: bool, downloaded: bool)

  datatype Outcome = Skipped | Finished(items: seq<Item>, changed: bool, downloaded: bool)

  // ----- selection and pins

  predicate Locked(lock: seq<Release>, id: string) { exists r | r in lock :: r.runtimeId == id }

  ghost predicate DistinctIds(releases: seq<Release>) {
    forall i, j | 0 <= i < j < |releases| :: releases[i].runtimeId != releases[j].runtimeId
  }

  function ReleaseOf(id: string): Release -> bool { (r: Release) => r.runtimeId == id }

  /** The locked releases of the routed runtimes, in route order. */
  function Selected(lock: seq<Release>, required: seq<string>): seq<Release> {
    if required == [] then []
    else Selected(lock, required[..|required| - 1]) + Filter(ReleaseOf(required[|required| - 1]), lock)
  }

  predicate AtPin(registry: Registry, r: Release) {
    r.runtimeId in registry && registry[r.runtimeId] == Activation(r.version, Some(r.sha256), true, true, true)
  }

  predicate Unmanaged(registry: Registry, r: Release) {
    r.runtimeId in registry && registry[r.runtimeId].bundleSha256.None?
  }

  function NotAtPin(registry: Registry): Release -> bool { (r: Release) => !AtPin(registry, r) }

  function Pending(registry: Registry, selected: seq<Release>): seq<Release> {
    Filter(NotAtPin(registry), selected)
  }

  /** The registry after publishing the bundles' activations. */
  function Activated(hash: Bytes -> Digest, manifest: Bytes -> Manifest, registry: Registry, bundles: seq<(Release, Bytes)>): Registry {
    if bundles == [] then registry
    else
      var bytes := bundles[|bundles| - 1].1;
      Activated(hash, manifest, registry, bundles[..|bundles| - 1])
        [manifest(bytes).runtimeId := Activation(manifest(bytes).version, Some(hash(bytes)), true, true, true)]
  }

  /** The lock names what its bundles contain: bytes that match a pin carry that runtime id and version. */
  ghost predicate PinsNameBundles(hash: Bytes -> Digest, manifest: Bytes -> Manifest, releases: seq<Release>) {
    forall r, bytes {:trigger Matches(hash, bytes, r)} | r in releases :: Matches(hash, bytes, r) ==> manifest(bytes) == Manifest(r.runtimeId, r.version)
  }

  /** The bundles handed to the installer: every pending release with bytes that match its pin. */
  ghost predicate InstallsPending(hash: Bytes -> Digest, bundles: seq<(Release, Bytes)>, pending: seq<Release>) {
    |bundles| == |pending| && forall i | 0 <= i < |bundles| :: bundles[i].0 == pending[i] && Matches(hash, bundles[i].1, bundles[i].0)
  }

  lemma {:induction false} ActivatedAtPins(hash: Bytes -> Digest, manifest: Bytes -> Manifest, registry: Registry, bundles: seq<(Release, Bytes)>, pending: seq<Release>)
    requires InstallsPending(hash, bundles, pending) && PinsNameBundles(hash, manifest, pending) && DistinctIds(pending)
    ensures forall r | r in pending :: AtPin(Activated(hash, manifest, registry, bundles), r)
    ensures forall id | id in registry && !Locked(pending, id) ::
              id in Activated(hash, manifest, registry, bundles) && Activated(hash, manifest, registry, bundles)[id] == registry[id]
  {
    if bundles != [] {
      hide Matches, DistinctIds, PinsNameBundles, InstallsPending, AtPin;
      var n := |bundles| - 1;
      LastBundle(hash, manifest, bundles, pending);
      var front, last := pending[..n], pending[n];
      assert pending == front + [last];
      ActivatedAtPins(hash, manifest, registry, bundles[..n], front);
      var before, after := Activated(hash, manifest, registry, bundles[..n]), Activated(hash, manifest, registry, bundles);
      assert after == before[last.runtimeId := Activation(last.version, Some(last.sha256), true, true, true)];
      PinAdded(before, after, front, last);
      forall id | id in registry && !Locked(pending, id) ensures id in after && after[id] == registry[id] {
        assert last in pending && last.runtimeId != id;
        assert !Locked(front, id);
      }
    }
  }

  lemma LastBundle(hash: Bytes -> Digest, manifest: Bytes -> Manifest, bundles: seq<(Release, Bytes)>, pending: seq<Release>)
    requires InstallsPending(hash, bundles, pending) && PinsNameBundles(hash, manifest, pending) && DistinctIds(pending) && bundles != []
    ensures |pending| == |bundles|
    ensures var n := |bundles| - 1;
            && InstallsPending(hash, bundles[..n], pending[..n]) && PinsNameBundles(hash, manifest, pending[..n])
            && DistinctIds(pending[..n]) && !Locked(pending[..n], pending[n].runtimeId)
            && manifest(bundles[n].1) == Manifest(pending[n].runtimeId, pending[n].version) && hash(bundles[n].1) == pending[n].sha256
  {
    var n := |bundles| - 1;
    assert pending[n] in pending && forall r | r in pending[..n] :: r in pending;
    assert Matches(hash, bundles[n].1, pending[n]);
    forall r | r in pending[..n] ensures r.runtimeId != pending[n].runtimeId {
      var i :| 0 <= i < n && pending[..n][i] == r;
      assert pending[i].runtimeId != pending[n].runtimeId;
    }
  }

  lemma PinAdded(before: Registry, after: Registry, front: seq<Release>, last: Release)
    requires after == before[last.runtimeId := Activation(last.version, Some(last.sha256), true, true, true)]
    requires (forall r | r in front :: AtPin(before, r)) && !Locked(front, last.runtimeId)
    ensures forall r | r in front + [last] :: AtPin(after, r)
  {
  }

  /** After publishing, every selected release is at its pin. */
  lemma AllAtPins(hash: Bytes -> Digest, manifest: Bytes -> Manifest, registry: Registry, bundles: seq<(Release, Bytes)>, selected: seq<Release>)
    requires InstallsPending(hash, bundles, Pending(registry, selected)) && PinsNameBundles(hash, manifest, selected) && DistinctIds(selected)
    ensures forall r | r in selected :: AtPin(Activated(hash, manifest, registry, bundles), r)
  {
    hide Activated, InstallsPending, AtPin;
    var pending := Pending(registry, selected);
    FilterMembers(NotAtPin(registry), selected);
    PendingDistinct(registry, selected);
    FewerPins(hash, manifest, selected, pending);
    ActivatedAtPins(hash, manifest, registry, bundles, pending);
    forall r | r in selected ensures AtPin(Activated(hash, manifest, registry, bundles), r) {
      if r !in pending {
        assert AtPin(registry, r);
        OtherIds(selected, pending, r);
        Carried(registry, Activated(hash, manifest, registry, bundles), r);
      }
    }
  }

  lemma Carried(before: Registry, after: Registry, r: Release)
    requires AtPin(before, r)
    requires r.runtimeId in before ==> r.runtimeId in after && after[r.runtimeId] == before[r.runtimeId]
    ensures AtPin(after, r) && r.runtimeId in before
  {
  }

  lemma OtherIds(selected: seq<Release>, pending: seq<Release>, r: Release)
    requires DistinctIds(selected) && r in selected && r !in pending && forall p | p in pending :: p in selected
    ensures !Locked(pending, r.runtimeId)
  {
    forall p | p in pending ensures p.runtimeId != r.runtimeId {
      var i :| 0 <= i < |selected| && selected[i] == p;
      var j :| 0 <= j < |selected| && selected[j] == r;
      assert i != j;
    }
  }

  lemma PendingDistinct(registry: Registry, selected: seq<Release>)
    requires DistinctIds(selected)
    ensures DistinctIds(Pending(registry, selected))
  {
    var pending := Pending(registry, selected);
    forall i, j | 0 <= i < j < |pending| ensures pending[i].runtimeId != pending[j].runtimeId {
      var a, b := FilterPosition(NotAtPin(registry), selected, i, j);
    }
  }

  lemma FewerPins(hash: Bytes -> Digest, manifest: Bytes -> Manifest, all: seq<Release>, some: seq<Release>)
    requires PinsNameBundles(hash, manifest, all) && forall r | r in some :: r in all
    ensures PinsNameBundles(hash, manifest, some)
  {
  }

  /** The fixpoint: once every selected release is at its pin, nothing is pending. */
  lemma NothingPendingAtPins(registry: Registry, selected: seq<Release>)
    ensures Pending(registry, selected) == [] <==> forall r | r in selected :: AtPin(registry, r)
  {
    FilterMembers(NotAtPin(registry), selected);
    if forall r | r in selected :: AtPin(registry, r) {
      FilterKeepsNone(NotAtPin(registry), selected);
    }
  }

  lemma {:induction false} SelectedMembers(lock: seq<Release>, required: seq<string>)
    ensures forall r :: r in Selected(lock, required) <==> r in lock && r.runtimeId in required
  {
    if required != [] {
      var front, last := required[..|required| - 1], required[|required| - 1];
      assert required == front + [last];
      SelectedMembers(lock, front);
      FilterMembers(ReleaseOf(last), lock);
    }
  }

  /** A runtime that the lock names. */
  ghost function InLock(lock: seq<Release>): string -> bool {
    (id: string) => exists r | r in lock :: r.runtimeId == id
  }

  function IdsOf(releases: seq<Release>): (ids: seq<string>)
    ensures |ids| == |releases|
  {
    if releases == [] then [] else IdsOf(releases[..|releases| - 1]) + [releases[|releases| - 1].runtimeId]
  }

  lemma {:induction false} IdsOfParts(a: seq<Release>, b: seq<Release>)
    ensures IdsOf(a + b) == IdsOf(a) + IdsOf(b)
  {
    if b == [] {
      assert a + b == a;
    } else {
      IdsOfParts(a, b[..|b| - 1]);
      assert (a + b)[..|a + b| - 1] == a + b[..|b| - 1];
    }
  }

  lemma {:induction false} IdsAt(releases: seq<Release>)
    ensures forall i | 0 <= i < |releases| :: IdsOf(releases)[i] == releases[i].runtimeId
  {
    if releases != [] { IdsAt(releases[..|releases| - 1]); }
  }

  /** The selection follows the routes: one release for every routed runtime the lock names, in route order. */
  lemma {:induction false} SelectedFollowsRoutes(lock: seq<Release>, required: seq<string>)
    requires DistinctIds(lock)
    ensures IdsOf(Selected(lock, required)) == Filter(InLock(lock), required)
  {
    hide DistinctIds, ReleaseOf;
    if required != [] {
      var front, last := required[..|required| - 1], required[|required| - 1];
      SelectedFollowsRoutes(lock, front);
      OneOfId(lock, last);
      IdsOfParts(Selected(lock, front), Filter(ReleaseOf(last), lock));
    }
  }

  lemma OneOfId(lock: seq<Release>, id: string)
    requires DistinctIds(lock)
    ensures IdsOf(Filter(ReleaseOf(id), lock)) == if InLock(lock)(id) then [id] else []
  {
    hide Filter;
    var found := Filter(ReleaseOf(id), lock);
    AtMostOneLocked(lock, id);
    FilterMembers(ReleaseOf(id), lock);
    IdsAt(found);
    assert found != [] ==> found[0] in found;
    if InLock(lock)(id) {
      var r :| r in lock && r.runtimeId == id;
      assert r in found;
    }
  }

  /** Distinct routes over a lock without duplicate ids select distinct releases. */
  lemma {:induction false} SelectedDistinct(lock: seq<Release>, required: seq<string>)
    requires DistinctIds(lock) && Distinct(required)
    ensures DistinctIds(Selected(lock, required))
  {
    if required != [] {
      var front, last := required[..|required| - 1], required[|required| - 1];
      SelectedDistinct(lock, front);
      SelectedMembers(lock, front);
      FilterMembers(ReleaseOf(last), lock);
      AtMostOneLocked(lock, last);
      assert last !in front;
      var a, b := Selected(lock, front), Filter(ReleaseOf(last), lock);
      var all := a + b;
      forall i, j | 0 <= i < j < |all| ensures all[i].runtimeId != all[j].runtimeId {
        if j >= |a| { assert i < |a| && all[j] in b && a[i] in a; }
      }
    }
  }

  lemma AtMostOneLocked(lock: seq<Release>, id: string)
    requires DistinctIds(lock)
    ensures |Filter(ReleaseOf(id), lock)| <= 1
  {
    if |Filter(ReleaseOf(id), lock)| > 1 {
      var a, b := FilterPosition(ReleaseOf(id), lock, 0, 1);
      assert false;
    }
  }
}
