/** The reference marketplace's hash-chained release log and the indexes cut from it. */
module TransparencyLog {
  import opened Results
  import opened Sorting

  type Key = nat
  type Signature = nat

  datatype Permission = Permission(id: string, detail: string)

  datatype Artifact = Artifact(fileName: string, sha256: Digest)

  datatype SignedArtifact = SignedArtifact(artifact: Artifact, signature: Signature)

  datatype Projection = Projection(
    pluginId: string, version: string, publisherId: string, artifact: Artifact,
    required: seq<Permission>, optional: seq<Permission>, licenseExpression: string, dependencies: seq<string>)

  datatype Statement = Statement(
    pluginId: string, version: string, publisherId: string, artifacts: seq<SignedArtifact>, publishedAt: int,
    licenseExpression: string, dependencies: seq<string>, rolloutStage: string, officialMaintained: bool,
    required: seq<Permission>, optional: seq<Permission>, sha256Sums: (Digest, string))

  datatype Transparency = Transparency(logIndex: nat, leaf: Digest, previous: Digest, record: Digest)

  datatype Release = Release(statement: Statement, signature: Signature, transparency: Transparency)

  /** Everything that is signed, and everything that is hashed into the log. */
  datatype Signed =
    | ArtifactStatement(pluginId: string, version: string, publisherId: string, artifact: Artifact)
    | ReleaseStatement(statement: Statement)
    | IndexBody(body: Body)

  datatype Document =
    | LeafDocument(statement: Statement, signature: Signature)
    | RecordDocument(logIndex: nat, leaf: Digest, previous: Digest)

  datatype Revocation = Revocation(scope: string, subject: string, effectiveAt: string)

  const INDEX_LIFETIME_MS: int := 2_592_000_000

  datatype Body = Body(
    sequence: int, generatedAt: int, expiresAt: int, previousIndex: Option<Digest>, transparencyHead: Digest,
    publishers: set<string>, releases: seq<Release>, revocations: seq<Revocation>)

  datatype Index = Index(body: Body, signature: Signature)

  datatype Call = Call(projection: Projection, publishedAt: int, officialMaintained: bool, rolloutStage: string)

  /** What the marketplace is built from; hashing and signing are parameters. */
  datatype Marketplace = Marketplace(
    keys: map<string, Key>, rootKey: Key, zero: Digest, hash: Document -> Digest, sign: (Key, Signed) -> Signature,
    before: (string, string) -> bool)

  function ById(m: Marketplace): (Permission, Permission) -> bool {
    (a: Permission, b: Permission) => m.before(a.id, b.id)
  }

  function ByScope(m: Marketplace): (Revocation, Revocation) -> bool {
    (a: Revocation, b: Revocation) =>
      if a.scope != b.scope then m.before(a.scope, b.scope)
      else if a.subject != b.subject then m.before(a.subject, b.subject)
      else m.before(a.effectiveAt, b.effectiveAt)
  }

  // ----- the log as a function of the calls

  function Head(m: Marketplace, releases: seq<Release>): Digest {
    if releases == [] then m.zero else releases[|releases| - 1].transparency.record
  }

  function StatementOf(m: Marketplace, call: Call): Statement
    requires call.projection.publisherId in m.keys
  {
    var p := call.projection;
    var signature := m.sign(m.keys[p.publisherId], ArtifactStatement(p.pluginId, p.version, p.publisherId, p.artifact));
    Statement(p.pluginId, p.version, p.publisherId, [SignedArtifact(p.artifact, signature)], call.publishedAt,
              p.licenseExpression, p.dependencies, call.rolloutStage, call.officialMaintained,
              Sort(ById(m), p.required), Sort(ById(m), p.optional), (p.artifact.sha256, p.artifact.fileName))
  }

  function NextRelease(m: Marketplace, releases: seq<Release>, statement: Statement): Release
    requires statement.publisherId in m.keys
  {
    var signature := m.sign(m.keys[statement.publisherId], ReleaseStatement(statement));
    var leaf := m.hash(LeafDocument(statement, signature));
    var previous, logIndex := Head(m, releases), |releases| + 1;
    Release(statement, signature, Transparency(logIndex, leaf, previous, m.hash(RecordDocument(logIndex, leaf, previous))))
  }

  /** The releases after a sequence of calls; a call by an unknown publisher adds nothing. */
  function Log(m: Marketplace, calls: seq<Call>): seq<Release> {
    if calls == [] then []
    else
      var before, call := Log(m, calls[..|calls| - 1]), calls[|calls| - 1];
      if call.projection.publisherId in m.keys then before + [NextRelease(m, before, StatementOf(m, call))] else before
  }

  // ----- what a statement says, in the call's own fields

  ghost predicate OrderIsTotal(m: Marketplace) {
    && (forall a, b :: m.before(a, b) || m.before(b, a))
    && (forall a, b, c :: m.before(a, b) && m.before(b, c) ==> m.before(a, c))
    && (forall a, b :: m.before(a, b) && m.before(b, a) ==> a == b)
  }

  /** The same permissions, listed by id. */
  ghost predicate ListsById(m: Marketplace, given: seq<Permission>, listed: seq<Permission>) {
    multiset(listed) == multiset(given) && forall i, j | 0 <= i < j < |listed| :: m.before(listed[i].id, listed[j].id)
  }

  ghost predicate StatementSays(m: Marketplace, call: Call, s: Statement)
    requires call.projection.publisherId in m.keys
  {
    var p := call.projection;
    && s.pluginId == p.pluginId && s.version == p.version && s.publisherId == p.publisherId
    && |s.artifacts| == 1 && s.artifacts[0].artifact == p.artifact
    && s.artifacts[0].signature == m.sign(m.keys[p.publisherId], ArtifactStatement(p.pluginId, p.version, p.publisherId, p.artifact))
    && s.publishedAt == call.publishedAt && s.rolloutStage == call.rolloutStage && s.officialMaintained == call.officialMaintained
    && s.licenseExpression == p.licenseExpression && s.dependencies == p.dependencies
    && s.sha256Sums == (p.artifact.sha256, p.artifact.fileName)
    && (OrderIsTotal(m) ==> ListsById(m, p.required, s.required) && ListsById(m, p.optional, s.optional))
  }

  lemma SortListsById(m: Marketplace, given: seq<Permission>)
    requires OrderIsTotal(m)
    ensures ListsById(m, given, Sort(ById(m), given))
  {
    forall a, b ensures ById(m)(a, b) || ById(m)(b, a) {
      assert m.before(a.id, b.id) || m.before(b.id, a.id);
    }
    forall a, b, c | ById(m)(a, b) && ById(m)(b, c) ensures ById(m)(a, c) {
      assert m.before(a.id, b.id) && m.before(b.id, c.id);
    }
    SortIsSortedPermutation(ById(m), given);
  }

  lemma StatementIsFaithful(m: Marketplace, call: Call)
    requires call.projection.publisherId in m.keys
    ensures StatementSays(m, call, StatementOf(m, call))
  {
    hide ListsById, OrderIsTotal, Sort;
    if OrderIsTotal(m) {
      SortListsById(m, call.projection.required);
      SortListsById(m, call.projection.optional);
    }
  }

  /** The same revocations, by scope, then subject, then time. */
  ghost predicate ListsRevocations(m: Marketplace, given: seq<Revocation>, listed: seq<Revocation>) {
    && multiset(listed) == multiset(given)
    && forall i, j | 0 <= i < j < |listed| ::
         var a, b := listed[i], listed[j];
         && (a.scope != b.scope ==> m.before(a.scope, b.scope))
         && (a.scope == b.scope && a.subject != b.subject ==> m.before(a.subject, b.subject))
         && (a.scope == b.scope && a.subject == b.subject ==> m.before(a.effectiveAt, b.effectiveAt))
  }

  lemma ByScopeIsTotal(m: Marketplace)
    requires OrderIsTotal(m)
    ensures TotalPreorder(ByScope(m))
  {
    forall a, b ensures ByScope(m)(a, b) || ByScope(m)(b, a) {
      assert m.before(a.scope, b.scope) || m.before(b.scope, a.scope);
      assert m.before(a.subject, b.subject) || m.before(b.subject, a.subject);
      assert m.before(a.effectiveAt, b.effectiveAt) || m.before(b.effectiveAt, a.effectiveAt);
    }
    forall a, b, c | ByScope(m)(a, b) && ByScope(m)(b, c) ensures ByScope(m)(a, c) {
      assert m.before(a.scope, b.scope) && m.before(b.scope, c.scope) ==> m.before(a.scope, c.scope);
      assert m.before(a.subject, b.subject) && m.before(b.subject, c.subject) ==> m.before(a.subject, c.subject);
      assert m.before(a.effectiveAt, b.effectiveAt) && m.before(b.effectiveAt, c.effectiveAt) ==> m.before(a.effectiveAt, c.effectiveAt);
    }
  }

  lemma SortListsRevocations(m: Marketplace, given: seq<Revocation>)
    ensures OrderIsTotal(m) ==> ListsRevocations(m, given, Sort(ByScope(m), given))
  {
    if OrderIsTotal(m) {
      ByScopeIsTotal(m);
      SortIsSortedPermutation(ByScope(m), given);
    }
  }

  ghost function Known(m: Marketplace): Call -> bool {
    (c: Call) => c.projection.publisherId in m.keys
  }

  /** The log holds one release for each call of a known publisher, in order, and each states its own call. */
  lemma {:induction false} LogFollowsCalls(m: Marketplace, calls: seq<Call>)
    ensures |Log(m, calls)| == |Filter(Known(m), calls)|
    ensures forall i | 0 <= i < |Log(m, calls)| ::
              Filter(Known(m), calls)[i].projection.publisherId in m.keys
              && StatementSays(m, Filter(Known(m), calls)[i], Log(m, calls)[i].statement)
  {
    hide StatementSays, StatementOf;
    if calls != [] {
      LogFollowsCalls(m, calls[..|calls| - 1]);
      var call := calls[|calls| - 1];
      if call.projection.publisherId in m.keys { StatementIsFaithful(m, call); }
    }
  }

  // ----- what a chain is

  /** Release `i` is numbered, hashed and chained to the release before it. */
  ghost predicate LinkedAt(m: Marketplace, releases: seq<Release>, i: nat)
    requires i < |releases|
  {
    var r := releases[i];
    && r.transparency.logIndex == i + 1
    && r.transparency.leaf == m.hash(LeafDocument(r.statement, r.signature))
    && r.transparency.previous == (if i == 0 then m.zero else releases[i - 1].transparency.record)
    && r.transparency.record == m.hash(RecordDocument(i + 1, r.transparency.leaf, r.transparency.previous))
  }

  /** Its signatures are those of its publisher. */
  ghost predicate SignedAt(m: Marketplace, releases: seq<Release>, i: nat)
    requires i < |releases|
  {
    var s := releases[i].statement;
    && s.publisherId in m.keys && releases[i].signature == m.sign(m.keys[s.publisherId], ReleaseStatement(s))
    && |s.artifacts| == 1
    && s.artifacts[0].signature
         == m.sign(m.keys[s.publisherId], ArtifactStatement(s.pluginId, s.version, s.publisherId, s.artifacts[0].artifact))
  }

  ghost predicate WellFormed(m: Marketplace, releases: seq<Release>) {
    forall i | 0 <= i < |releases| :: LinkedAt(m, releases, i)
  }

  lemma WellFormedPrefix(m: Marketplace, releases: seq<Release>, k: nat)
    requires WellFormed(m, releases) && k <= |releases|
    ensures WellFormed(m, releases[..k])
  {
    forall i | 0 <= i < k ensures LinkedAt(m, releases[..k], i) {
      assert LinkedAt(m, releases, i) && releases[..k][..i] == releases[..i];
    }
  }

  lemma WellFormedSnoc(m: Marketplace, releases: seq<Release>, r: Release)
    requires WellFormed(m, releases)
    requires r.transparency == Transparency(|releases| + 1, m.hash(LeafDocument(r.statement, r.signature)), Head(m, releases),
               m.hash(RecordDocument(|releases| + 1, m.hash(LeafDocument(r.statement, r.signature)), Head(m, releases))))
    ensures WellFormed(m, releases + [r])
  {
    var longer := releases + [r];
    forall i | 0 <= i < |longer| ensures LinkedAt(m, longer, i) {
      if i < |releases| {
        assert LinkedAt(m, releases, i) && longer[..i] == releases[..i];
      } else {
        assert longer[..i] == releases;
      }
    }
  }

  /** For every sequence of calls the chain is well formed and signed. */
  lemma {:induction false} LogIsWellFormed(m: Marketplace, calls: seq<Call>)
    ensures WellFormed(m, Log(m, calls))
    ensures forall i | 0 <= i < |Log(m, calls)| :: SignedAt(m, Log(m, calls), i)
  {
    if calls != [] {
      hide WellFormed, LinkedAt, StatementOf;
      var front, call := calls[..|calls| - 1], calls[|calls| - 1];
      LogIsWellFormed(m, front);
      if call.projection.publisherId in m.keys {
        var next := NextRelease(m, Log(m, front), StatementOf(m, call));
        StatementIsSigned(m, call);
        WellFormedSnoc(m, Log(m, front), next);
        forall i | 0 <= i < |Log(m, calls)| ensures SignedAt(m, Log(m, calls), i) {
          if i < |Log(m, front)| { assert SignedAt(m, Log(m, front), i); }
        }
      } else {
        assert Log(m, calls) == Log(m, front);
      }
    } else {
      assert Log(m, calls) == [];
    }
  }

  lemma StatementIsSigned(m: Marketplace, call: Call)
    requires call.projection.publisherId in m.keys
    ensures var s := StatementOf(m, call);
            && s.publisherId == call.projection.publisherId && |s.artifacts| == 1
            && s.artifacts[0].signature
                 == m.sign(m.keys[s.publisherId], ArtifactStatement(s.pluginId, s.version, s.publisherId, s.artifacts[0].artifact))
  {
  }

  /** The log only grows: the log after a prefix of the calls is a prefix of the log. */
  lemma {:induction false} LogExtends(m: Marketplace, calls: seq<Call>, k: nat)
    requires k <= |calls|
    ensures Log(m, calls[..k]) <= Log(m, calls)
  {
    if k < |calls| {
      LogExtends(m, calls[..|calls| - 1], k);
      assert calls[..|calls| - 1][..k] == calls[..k];
    } else {
      assert calls[..k] == calls;
    }
  }

  class SignedReferenceMarketplace {
    const marketplace: Marketplace
    var releases: seq<Release>
    ghost var calls: seq<Call>

    ghost predicate Valid()
      reads this
    {
      releases == Log(marketplace, calls)
    }

    constructor (marketplace: Marketplace)
      ensures Valid() && calls == [] && this.marketplace == marketplace
    {
      this.marketplace := marketplace;
      releases, calls := [], [];
    }

    /** Appends one signed release to the chain, or refuses an unknown publisher. */
    method AddRelease(call: Call) returns (r: Option<Release>)
      requires Valid()
      modifies this
      ensures Valid() && calls == old(calls) + [call]
      ensures r.Some? <==> call.projection.publisherId in marketplace.keys
      ensures releases == (if r.Some? then old(releases) + [r.value] else old(releases))
      ensures r.Some? ==>
                && StatementSays(marketplace, call, r.value.statement)
                && LinkedAt(marketplace, releases, |releases| - 1) && SignedAt(marketplace, releases, |releases| - 1)
    {
      ghost var longer := calls + [call];
      assert longer[..|longer| - 1] == calls;
      calls := longer;
      if call.projection.publisherId !in marketplace.keys {
        return None;
      }
      var statement := StatementOf(marketplace, call);
      StatementIsFaithful(marketplace, call);
      StatementIsSigned(marketplace, call);
      var signature := marketplace.sign(marketplace.keys[statement.publisherId], ReleaseStatement(statement));
      var leaf := marketplace.hash(LeafDocument(statement, signature));
      var previous := if releases != [] then releases[|releases| - 1].transparency.record else marketplace.zero;
      var logIndex := |releases| + 1;
      var record := marketplace.hash(RecordDocument(logIndex, leaf, previous));
      var release := Release(statement, signature, Transparency(logIndex, leaf, previous, record));
      releases := releases + [release];
      return Some(release);
    }

    /** A signed index over the first `releaseCount` releases. */
    function IndexOf(sequence: int, generatedAt: int, releaseCount: int, previousIndex: Option<Digest>, revocations: seq<Revocation>): (r: Index)
      reads this
      ensures r.body.releases == Prefix(releases, releaseCount) && r.body.transparencyHead == Head(marketplace, r.body.releases)
      ensures 0 <= releaseCount <= |releases| ==> r.body.releases == releases[..releaseCount]
      ensures releaseCount > |releases| ==> r.body.releases == releases
      ensures r.body.transparencyHead
           == if r.body.releases == [] then marketplace.zero else r.body.releases[|r.body.releases| - 1].transparency.record
      ensures r.body.sequence == sequence && r.body.generatedAt == generatedAt && r.body.previousIndex == previousIndex
      ensures r.body.expiresAt == generatedAt + 30 * 86_400_000
      ensures r.body.publishers == marketplace.keys.Keys
      ensures OrderIsTotal(marketplace) ==> ListsRevocations(marketplace, revocations, r.body.revocations)
      ensures r.signature == marketplace.sign(marketplace.rootKey, IndexBody(r.body))
    {
      SortListsRevocations(marketplace, revocations);
      var selected := Prefix(releases, releaseCount);
      var body := Body(sequence, generatedAt, generatedAt + INDEX_LIFETIME_MS, previousIndex, Head(marketplace, selected), marketplace.keys.Keys, selected,
                       Sort(ByScope(marketplace), revocations));
      Index(body, marketplace.sign(marketplace.rootKey, IndexBody(body)))
    }
  }

  // ----- main results

  /** An index over `k` releases is a prefix of every later index over at least as many. */
  lemma IndexesExtend(m: Marketplace, calls: seq<Call>, earlier: nat, k: nat, later: nat)
    requires earlier <= |calls| && k <= later && k <= |Log(m, calls[..earlier])|
    ensures Prefix(Log(m, calls[..earlier]), k) <= Prefix(Log(m, calls), later)
  {
    LogExtends(m, calls, earlier);
    var a, b := Log(m, calls[..earlier]), Log(m, calls);
    assert Prefix(a, k) == b[..k];
  }

  /** The documents hashed into a log. */
  function Documents(releases: seq<Release>): set<Document> {
    (set r | r in releases :: LeafDocument(r.statement, r.signature))
    + (set r | r in releases :: RecordDocument(r.transparency.logIndex, r.transparency.leaf, r.transparency.previous))
  }

  /** Two documents of the two logs that hash alike, or a record document of either log that hashes to zero. */
  ghost predicate Broken(m: Marketplace, a: seq<Release>, b: seq<Release>, x: Document, y: Document) {
    || (x in Documents(a) && y in Documents(b) && x != y && m.hash(x) == m.hash(y))
    || (x in Documents(a) + Documents(b) && m.hash(x) == m.zero)
  }

  lemma DocumentsOf(releases: seq<Release>, r: Release)
    requires r in releases
    ensures LeafDocument(r.statement, r.signature) in Documents(releases)
    ensures RecordDocument(r.transparency.logIndex, r.transparency.leaf, r.transparency.previous) in Documents(releases)
  {
  }

  lemma DocumentsPrefix(releases: seq<Release>, k: nat)
    requires k <= |releases|
    ensures Documents(releases[..k]) <= Documents(releases)
  {
  }

  /** Logs with equal heads hold the same releases, or they exhibit a pair of colliding documents or a preimage of zero. */
  lemma {:induction false} EqualHeadsFixTheLog(m: Marketplace, a: seq<Release>, b: seq<Release>) returns (x: Document, y: Document)
    requires WellFormed(m, a) && WellFormed(m, b) && Head(m, a) == Head(m, b)
    ensures a == b || Broken(m, a, b, x, y)
    decreases |a|
  {
    if a == [] && b == [] {
      x, y := RecordDocument(0, m.zero, m.zero), RecordDocument(0, m.zero, m.zero);
    } else if a == [] || b == [] {
      var some := if a == [] then b else a;
      var last := some[|some| - 1];
      assert last in some && LinkedAt(m, some, |some| - 1);
      DocumentsOf(some, last);
      x, y := RecordDocument(|some|, last.transparency.leaf, last.transparency.previous), RecordDocument(0, m.zero, m.zero);
    } else {
      x, y := LastReleases(m, a, b);
      if !Broken(m, a, b, x, y) {
        var frontA, frontB := a[..|a| - 1], b[..|b| - 1];
        WellFormedPrefix(m, a, |a| - 1);
        WellFormedPrefix(m, b, |b| - 1);
        x, y := EqualHeadsFixTheLog(m, frontA, frontB);
        DocumentsPrefix(a, |a| - 1);
        DocumentsPrefix(b, |b| - 1);
        assert a == frontA + [a[|a| - 1]] && b == frontB + [b[|b| - 1]];
      }
    }
  }

  /** Equal heads force equal last releases and equal heads before them, unless documents collide. */
  lemma LastReleases(m: Marketplace, a: seq<Release>, b: seq<Release>) returns (x: Document, y: Document)
    requires WellFormed(m, a) && WellFormed(m, b) && a != [] && b != [] && Head(m, a) == Head(m, b)
    ensures Broken(m, a, b, x, y)
         || (a[|a| - 1] == b[|b| - 1] && Head(m, a[..|a| - 1]) == Head(m, b[..|b| - 1]))
  {
    var p, q := a[|a| - 1], b[|b| - 1];
    assert LinkedAt(m, a, |a| - 1) && LinkedAt(m, b, |b| - 1);
    DocumentsOf(a, p);
    DocumentsOf(b, q);
    x := RecordDocument(p.transparency.logIndex, p.transparency.leaf, p.transparency.previous);
    y := RecordDocument(q.transparency.logIndex, q.transparency.leaf, q.transparency.previous);
    if x == y {
      x, y := LeafDocument(p.statement, p.signature), LeafDocument(q.statement, q.signature);
    }
  }
}
