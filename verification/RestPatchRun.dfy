/** The patch run over an archive directory, with every step able to fail. */
module RestPatchRun {
  import opened Results
  import opened Sorting
  import opened Grids
  import opened GapReports
  import opened GapExpansion
  import opened Catalogs
  import opened CatalogObjects
  import opened RestPatch
  import opened RestPatchTheorem
  import Evidence
  import ExactResponse

  datatype HttpAnswer = Unreachable | Answer(status: int, jsonContent: bool, body: Bytes, receivedAtMs: int)

  /** What a run is wired to: the grid's successor, the decoder, digests and encodings, and the URL of a bucket's request. */
  datatype Wiring = Wiring(
    next: int -> int, decode: Bytes -> ExactResponse.Payload, hash: Bytes -> Digest, encode: Evidence.Receipt -> Bytes,
    requestUrl: int -> string, objectDigest: (SourceKey, ExactResponse.Bar) -> Digest)

  /** A usable answer that says the bucket is empty, or that this is its bar. */
  ghost predicate Answers(w: Wiring, answer: HttpAnswer, openMs: int, bar: Option<ExactResponse.Bar>) {
    && answer.Answer? && answer.status == 200 && answer.jsonContent
    && ExactResponse.Says(w.decode(answer.body), openMs, w.next(openMs), bar)
  }

  /** The receipt under `digest` records this answer to this bucket's request, and the answer's body is stored beside it. */
  ghost predicate ReceiptStored(w: Wiring, files: Evidence.Files, answer: HttpAnswer, openMs: int, digest: Digest) {
    && answer.Answer?
    && Evidence.ResponsePath(w.hash(answer.body)) in files && files[Evidence.ResponsePath(w.hash(answer.body))] == answer.body
    && Evidence.ReceiptPath(digest) in files
    && files[Evidence.ReceiptPath(digest)]
         == w.encode(Evidence.Receipt(w.requestUrl(openMs), 200, true, answer.receivedAtMs, openMs, w.hash(answer.body), |answer.body|))
  }

  ghost predicate EmptyProbed(w: Wiring, files: Evidence.Files, answer: HttpAnswer, openMs: int) {
    Answers(w, answer, openMs, None) && exists digest: Digest :: ReceiptStored(w, files, answer, openMs, digest)
  }

  ghost predicate BarProbed(w: Wiring, files: Evidence.Files, answer: HttpAnswer, p: PendingBar) {
    Answers(w, answer, p.openMs, Some(p.bar)) && ReceiptStored(w, files, answer, p.openMs, p.receipt)
  }

  /** The catalog object of bucket `t` holds the bar this answer gave for it, under a key that names the stored receipt. */
  ghost predicate ObjectServed(w: Wiring, files: Evidence.Files, answer: HttpAnswer, t: int, o: HistoryObject) {
    && o.key.RestKey? && o.key.openMs == t && o.firstOpenMs == t == o.lastOpenMs && o.segments == [Segment(t, t, 1)]
    && ReceiptStored(w, files, answer, t, o.key.receipt)
    && exists bar: ExactResponse.Bar :: Answers(w, answer, t, Some(bar)) && o.sha == w.objectDigest(o.key, bar)
  }

  /** Why one probe fails. */
  ghost predicate ProbeFault(w: Wiring, error: PatchError, answer: HttpAnswer, openMs: int) {
    match error
    case HttpFailed => answer.Unreachable? || answer.status != 200
    case ContentTypeNotJson => answer.Answer? && !answer.jsonContent
    case BadResponse(_) => answer.Answer? && forall bar :: !ExactResponse.Says(w.decode(answer.body), openMs, w.next(openMs), bar)
    case EvidenceFailed(evidence) => evidence == Evidence.ReceiptChanged ==> Evidence.Collision(w.hash)
    case _ => false
  }

  /** Why a sequence of probes fails: the answers ran out, or one of them did not do. */
  ghost predicate ProbesFault(w: Wiring, error: PatchError, opens: seq<int>, exchange: seq<HttpAnswer>) {
    || (error == HttpFailed && |exchange| < |opens|)
    || exists i | 0 <= i < |opens| && i < |exchange| :: ProbeFault(w, error, exchange[i], opens[i])
  }

  /** Each pending bar was the answer to its own bucket's request. */
  ghost predicate BarsBacked(w: Wiring, files: Evidence.Files, opens: seq<int>, exchange: seq<HttpAnswer>, pending: seq<PendingBar>) {
    forall p | p in pending ::
      exists i | 0 <= i < |opens| && i < |exchange| :: opens[i] == p.openMs && BarProbed(w, files, exchange[i], p)
  }

  ghost predicate EmptiesBacked(w: Wiring, files: Evidence.Files, opens: seq<int>, exchange: seq<HttpAnswer>, empty: seq<int>) {
    forall t | t in empty ::
      exists i | 0 <= i < |opens| && i < |exchange| :: opens[i] == t && EmptyProbed(w, files, exchange[i], t)
  }

  lemma ReceiptLasts(w: Wiring, before: Evidence.Files, after: Evidence.Files, answer: HttpAnswer, openMs: int, digest: Digest)
    requires Evidence.Extends(before, after) && ReceiptStored(w, before, answer, openMs, digest)
    ensures ReceiptStored(w, after, answer, openMs, digest)
  {
  }

  lemma BackedLasts(w: Wiring, before: Evidence.Files, after: Evidence.Files, opens: seq<int>, exchange: seq<HttpAnswer>, t: int,
                    pending: seq<PendingBar>, empty: seq<int>)
    requires Evidence.Extends(before, after)
    requires BarsBacked(w, before, opens, exchange, pending) && EmptiesBacked(w, before, opens, exchange, empty)
    ensures BarsBacked(w, after, opens + [t], exchange, pending) && EmptiesBacked(w, after, opens + [t], exchange, empty)
  {
    hide Answers, ReceiptStored, Evidence.Extends;
    forall p | p in pending
      ensures exists i | 0 <= i < |opens + [t]| && i < |exchange| :: (opens + [t])[i] == p.openMs && BarProbed(w, after, exchange[i], p)
    {
      var i :| 0 <= i < |opens| && i < |exchange| && opens[i] == p.openMs && BarProbed(w, before, exchange[i], p);
      ReceiptLasts(w, before, after, exchange[i], p.openMs, p.receipt);
      assert (opens + [t])[i] == p.openMs;
    }
    forall u | u in empty
      ensures exists i | 0 <= i < |opens + [t]| && i < |exchange| :: (opens + [t])[i] == u && EmptyProbed(w, after, exchange[i], u)
    {
      var i :| 0 <= i < |opens| && i < |exchange| && opens[i] == u && EmptyProbed(w, before, exchange[i], u);
      var digest :| ReceiptStored(w, before, exchange[i], u, digest);
      ReceiptLasts(w, before, after, exchange[i], u, digest);
      assert (opens + [t])[i] == u;
    }
  }

  lemma BarsBackedSnoc(w: Wiring, files: Evidence.Files, opens: seq<int>, exchange: seq<HttpAnswer>, pending: seq<PendingBar>, p: PendingBar)
    requires BarsBacked(w, files, opens, exchange, pending) && opens != [] && |opens| <= |exchange|
    requires opens[|opens| - 1] == p.openMs && BarProbed(w, files, exchange[|opens| - 1], p)
    ensures BarsBacked(w, files, opens, exchange, pending + [p])
  {
    hide BarProbed;
  }

  lemma EmptiesBackedSnoc(w: Wiring, files: Evidence.Files, opens: seq<int>, exchange: seq<HttpAnswer>, empty: seq<int>, t: int)
    requires EmptiesBacked(w, files, opens, exchange, empty) && opens != [] && |opens| <= |exchange|
    requires opens[|opens| - 1] == t && EmptyProbed(w, files, exchange[|opens| - 1], t)
    ensures EmptiesBacked(w, files, opens, exchange, empty + [t])
  {
    hide EmptyProbed;
  }

  function OpensOfBars(pending: seq<PendingBar>): (r: seq<int>)
    ensures |r| == |pending|
  {
    if pending == [] then [] else OpensOfBars(pending[..|pending| - 1]) + [pending[|pending| - 1].openMs]
  }

  lemma OpensOfBarsSnoc(pending: seq<PendingBar>, p: PendingBar)
    ensures OpensOfBars(pending + [p]) == OpensOfBars(pending) + [p.openMs]
  {
    assert (pending + [p])[..|pending|] == pending;
  }

  lemma {:induction false} OpensOfBarsAt(pending: seq<PendingBar>)
    ensures forall i | 0 <= i < |pending| :: OpensOfBars(pending)[i] == pending[i].openMs
  {
    if pending != [] { OpensOfBarsAt(pending[..|pending| - 1]); }
  }

  /** What the run writes, in order. */
  datatype Event = EvidenceStored(openMs: int) | ObjectWritten | CatalogWritten | PointerSet | IndexSet

  datatype PendingBar = PendingBar(openMs: int, receipt: Digest, bar: ExactResponse.Bar)

  datatype Report = Report(epoch: Digest, probed: nat, patched: seq<int>, confirmedEmpty: seq<int>, gapCount: nat, missingBars: int)

  /** A REST key names an open that its object covers. */
  ghost predicate KeysNameContents(objects: seq<HistoryObject>) {
    forall o | o in objects && o.key.RestKey? :: Contains(o, o.key.openMs)
  }

  /** A stored receipt for the bucket, with its stored response. */
  ghost predicate HasEvidence(store: Evidence.Files, encode: Evidence.Receipt -> Bytes, openMs: int) {
    exists digest: Digest, receipt: Evidence.Receipt ::
      && Evidence.ReceiptPath(digest) in store
      && store[Evidence.ReceiptPath(digest)] == encode(receipt)
      && receipt.openTimeMs == openMs
      && Evidence.ResponsePath(receipt.responseDigest) in store
  }

  lemma EvidenceLasts(before: Evidence.Files, after: Evidence.Files, encode: Evidence.Receipt -> Bytes, openMs: int)
    requires Evidence.Extends(before, after) && HasEvidence(before, encode, openMs)
    ensures HasEvidence(after, encode, openMs)
  {
    var digest: Digest, receipt: Evidence.Receipt :|
      && Evidence.ReceiptPath(digest) in before
      && before[Evidence.ReceiptPath(digest)] == encode(receipt)
      && receipt.openTimeMs == openMs
      && Evidence.ResponsePath(receipt.responseDigest) in before;
    assert Evidence.ReceiptPath(digest) in after && after[Evidence.ReceiptPath(digest)] == encode(receipt);
  }

  ghost predicate AllEvidence(store: Evidence.Files, encode: Evidence.Receipt -> Bytes, opens: seq<int>) {
    forall t | t in opens :: HasEvidence(store, encode, t)
  }

  lemma AllEvidenceSnoc(before: Evidence.Files, after: Evidence.Files, encode: Evidence.Receipt -> Bytes, opens: seq<int>, t: int)
    requires Evidence.Extends(before, after) && AllEvidence(before, encode, opens) && HasEvidence(after, encode, t)
    ensures AllEvidence(after, encode, opens + [t])
  {
    forall o | o in opens + [t] ensures HasEvidence(after, encode, o) {
      if o in opens { EvidenceLasts(before, after, encode, o); }
    }
  }

  lemma EvidenceKept(a: Evidence.Files)
    ensures Evidence.Extends(a, a)
  {
  }

  lemma ExtendsOn(a: Evidence.Files, b: Evidence.Files, c: Evidence.Files)
    requires Evidence.Extends(a, b) && Evidence.Extends(b, c)
    ensures Evidence.Extends(a, c)
  {
  }

  lemma NothingProbed(w: Wiring, opens: seq<int>, exchange: seq<HttpAnswer>, store: Evidence.Files, log: seq<Event>)
    ensures opens[..0] == [] && Interleaves(opens[..0], OpensOfBars([]), []) && AllEvidence(store, w.encode, opens[..0])
    ensures BarsBacked(w, store, opens[..0], exchange, []) && EmptiesBacked(w, store, opens[..0], exchange, [])
    ensures log == log + EvidenceEvents(opens[..0])
  {
  }

  lemma ProbeFails(w: Wiring, error: PatchError, opens: seq<int>, exchange: seq<HttpAnswer>, i: nat)
    requires i < |opens| && (i >= |exchange| ==> error == HttpFailed)
    requires i < |exchange| ==> ProbeFault(w, error, exchange[i], opens[i])
    ensures ProbesFault(w, error, opens, exchange)
  {
    hide ProbeFault;
  }

  /** What each branch of a probe knows of its answer. */
  lemma AnswerRead(w: Wiring, answer: HttpAnswer, openMs: int)
    ensures answer.Unreachable? || answer.status != 200 ==> ProbeFault(w, HttpFailed, answer, openMs)
    ensures answer.Answer? && !answer.jsonContent ==> ProbeFault(w, ContentTypeNotJson, answer, openMs)
    ensures answer.Answer? && answer.status == 200 && answer.jsonContent ==>
              var parsed := ExactResponse.ParseExactResponse(w.decode(answer.body), openMs, w.next(openMs));
              && (parsed.Failure? ==> ProbeFault(w, BadResponse(parsed.error), answer, openMs))
              && (parsed.Success? ==> Answers(w, answer, openMs, parsed.value))
  {
    hide ExactResponse.ParseExactResponse, ExactResponse.Says;
    if answer.Answer? {
      ExactResponse.AcceptsExactly(w.decode(answer.body), openMs, w.next(openMs));
    }
  }

  lemma EvidenceFaults(w: Wiring, error: Evidence.EvidenceError, answer: HttpAnswer, openMs: int)
    requires error == Evidence.ReceiptChanged ==> Evidence.Collision(w.hash)
    ensures ProbeFault(w, EvidenceFailed(error), answer, openMs)
  {
  }

  lemma ReceiptOfAnswer(w: Wiring, files: Evidence.Files, answer: HttpAnswer, openMs: int, digest: Digest, bar: Option<ExactResponse.Bar>)
    requires answer.Answer? && answer.status == 200 && answer.jsonContent && Answers(w, answer, openMs, bar)
    requires Evidence.ResponsePath(w.hash(answer.body)) in files && files[Evidence.ResponsePath(w.hash(answer.body))] == answer.body
    requires Evidence.ReceiptPath(digest) in files
    requires files[Evidence.ReceiptPath(digest)]
               == w.encode(Evidence.Receipt(w.requestUrl(openMs), answer.status, answer.jsonContent, answer.receivedAtMs, openMs,
                                            w.hash(answer.body), |answer.body|))
    ensures HasEvidence(files, w.encode, openMs)
    ensures bar.None? ==> EmptyProbed(w, files, answer, openMs)
    ensures bar.Some? ==> BarProbed(w, files, answer, PendingBar(openMs, digest, bar.value))
  {
    hide Answers;
    assert ReceiptStored(w, files, answer, openMs, digest);
  }

  lemma EvidenceEventsSnoc(before: seq<Event>, opens: seq<int>, t: int)
    ensures before + EvidenceEvents(opens + [t]) == before + EvidenceEvents(opens) + [EvidenceStored(t)]
  {
    assert (opens + [t])[..|opens|] == opens;
  }

  function EvidenceEvents(opens: seq<int>): seq<Event> {
    if opens == [] then [] else EvidenceEvents(opens[..|opens| - 1]) + [EvidenceStored(opens[|opens| - 1])]
  }

  ghost predicate NoEvidenceEvents(events: seq<Event>) {
    forall e | e in events :: !e.EvidenceStored?
  }

  ghost predicate StoredCatalog(g: Grid, epochOf: Catalog -> Digest, epoch: Digest, c: Catalog, objects: set<Digest>)
    requires ValidGrid(g)
  {
    && epochOf(c) == epoch
    && ValidCatalog(g, c) && KeysNameContents(c.objects)
    && (forall o | o in c.objects :: o.sha in objects)
  }

  ghost predicate CatalogsStored(g: Grid, epochOf: Catalog -> Digest, catalogs: map<Digest, Catalog>, objects: set<Digest>)
    requires ValidGrid(g)
  {
    forall epoch | epoch in catalogs :: StoredCatalog(g, epochOf, epoch, catalogs[epoch], objects)
  }

  /** `after` continues `before` with publication events only. */
  ghost predicate Publishes(before: seq<Event>, after: seq<Event>) {
    before <= after && NoEvidenceEvents(after[|before|..])
  }

  lemma PublishesMore(before: seq<Event>, after: seq<Event>, e: Event)
    requires Publishes(before, after) && !e.EvidenceStored?
    ensures Publishes(before, after + [e])
  {
    assert (after + [e])[|before|..] == after[|before|..] + [e];
  }

  lemma PublishesNothing(log: seq<Event>)
    ensures Publishes(log, log)
  {
  }

  lemma PublishesOn(a: seq<Event>, b: seq<Event>, c: seq<Event>)
    requires Publishes(a, b) && Publishes(b, c)
    ensures Publishes(a, c)
  {
    assert c[|a|..] == b[|a|..] + c[|b|..];
  }

  /** The manifest a publication would write: merged objects and their merged segments. */
  method PrepareManifest(g: Grid, epochOf: Catalog -> Digest, catalogs: map<Digest, Catalog>, objects: set<Digest>,
                         expected: Digest, added: seq<HistoryObject>)
    returns (r: Result<Catalog, CatalogError>)
    requires ValidGrid(g) && CatalogsStored(g, epochOf, catalogs, objects) && expected in catalogs
    requires KeysNameContents(added) && forall o | o in added :: ValidObject(g, o) && o.sha in objects
    ensures r.Success? ==>
              && r.value.objects == NextObjects(catalogs[expected].objects, added)
              && CatalogsStored(g, epochOf, catalogs[epochOf(r.value) := r.value], objects)
    ensures r.Failure? ==> added != [] && !MergeAccepted(catalogs[expected].objects, added)
  {
    var before := catalogs[expected];
    assert StoredCatalog(g, epochOf, expected, before, objects);
    var merged := MergeCatalogObjects(before.objects, added);
    if merged.Failure? {
      return Failure(merged.error);
    }
    if merged.value == [] {
      return Failure(EmptyCatalog);
    }
    var segments := MergeSegments(g, merged.value);
    var manifest := Catalog(merged.value, segments);
    MergedCatalogIsStored(g, epochOf, before, added, manifest, objects);
    StoreGrows(g, epochOf, catalogs, objects, manifest);
    return Success(manifest);
  }

  /** Two different catalogs with one epoch. */
  ghost predicate EpochCollision(epochOf: Catalog -> Digest) {
    exists a: Catalog, b: Catalog :: a != b && epochOf(a) == epochOf(b)
  }

  lemma EpochsCollide(epochOf: Catalog -> Digest, a: Catalog, b: Catalog)
    requires a != b && epochOf(a) == epochOf(b)
    ensures EpochCollision(epochOf)
  {
  }

  lemma StoredUnderEpoch(g: Grid, epochOf: Catalog -> Digest, catalogs: map<Digest, Catalog>, objects: set<Digest>, epoch: Digest)
    requires ValidGrid(g) && CatalogsStored(g, epochOf, catalogs, objects) && epoch in catalogs
    ensures StoredCatalog(g, epochOf, epoch, catalogs[epoch], objects) && epochOf(catalogs[epoch]) == epoch
  {
  }

  lemma StoreGrows(g: Grid, epochOf: Catalog -> Digest, catalogs: map<Digest, Catalog>, objects: set<Digest>, manifest: Catalog)
    requires ValidGrid(g) && CatalogsStored(g, epochOf, catalogs, objects)
    requires StoredCatalog(g, epochOf, epochOf(manifest), manifest, objects)
    ensures CatalogsStored(g, epochOf, catalogs[epochOf(manifest) := manifest], objects)
  {
  }

  class ReplayHistoryArchive {
    const grid: Grid
    const epochOf: Catalog -> Digest
    const objectDigest: (SourceKey, ExactResponse.Bar) -> Digest
    const decode: Bytes -> ExactResponse.Payload
    const requestUrl: int -> string
    const evidence: Evidence.EvidenceStore

    var catalogs: map<Digest, Catalog>
    var current: Option<Digest>
    var index: Option<Digest>
    var objects: set<Digest>
    ghost var log: seq<Event>

    ghost predicate Valid()
      reads this, evidence
    {
      && ValidGrid(grid) && evidence.Valid()
      && CatalogsStored(grid, epochOf, catalogs, objects)
      && (current.Some? ==> current.value in catalogs)
    }

    constructor (grid: Grid, epochOf: Catalog -> Digest, objectDigest: (SourceKey, ExactResponse.Bar) -> Digest,
                 decode: Bytes -> ExactResponse.Payload, requestUrl: int -> string, evidence: Evidence.EvidenceStore)
      requires ValidGrid(grid) && evidence.Valid()
      ensures Valid() && current.None? && this.grid == grid && this.evidence == evidence
    {
      this.grid, this.epochOf, this.objectDigest, this.decode := grid, epochOf, objectDigest, decode;
      this.requestUrl, this.evidence := requestUrl, evidence;
      catalogs, current, index, objects, log := map[], None, None, {}, [];
    }

    ghost function Wired(): Wiring {
      Wiring(grid.next, decode, evidence.hash, evidence.encode, requestUrl, objectDigest)
    }

    lemma ValidParts()
      requires Valid()
      ensures ValidGrid(grid) && CatalogsStored(grid, epochOf, catalogs, objects)
      ensures current.Some? ==> current.value in catalogs
    {
    }

    /** One request for one bucket: a confirmed empty bucket, an exact bar with its receipt, or an error. */
    method Probe(openMs: int, answer: HttpAnswer) returns (r: Result<Option<PendingBar>, PatchError>)
      requires Valid()
      modifies this`log, evidence
      ensures Valid() && Evidence.Extends(old(evidence.files), evidence.files)
      ensures r.Success? ==> HasEvidence(evidence.files, evidence.encode, openMs) && log == old(log) + [EvidenceStored(openMs)]
      ensures r.Success? && r.value.Some? ==> r.value.value.openMs == openMs && BarProbed(Wired(), evidence.files, answer, r.value.value)
      ensures r.Success? && r.value.None? ==> EmptyProbed(Wired(), evidence.files, answer, openMs)
      ensures r.Failure? ==> log == old(log) && ProbeFault(Wired(), r.error, answer, openMs)
    {
      hide Evidence.Sound, Evidence.AllSound, Evidence.Extends, CatalogsStored, ValidGrid, ProbeFault, BarProbed, EmptyProbed, Answers,
           ReceiptStored, HasEvidence, ExactResponse.ParseExactResponse;
      EvidenceKept(evidence.files);
      AnswerRead(Wired(), answer, openMs);
      if answer.Unreachable? || answer.status != 200 {
        return Failure(HttpFailed);
      }
      if !answer.jsonContent {
        return Failure(ContentTypeNotJson);
      }
      var bar := ExactResponse.ParseExactResponse(decode(answer.body), openMs, grid.next(openMs));
      if bar.Failure? {
        return Failure(BadResponse(bar.error));
      }
      var stored := evidence.PersistSourceReceipt(requestUrl(openMs), answer.body, answer.receivedAtMs, openMs, answer.status, answer.jsonContent);
      if stored.Failure? {
        EvidenceFaults(Wired(), stored.error, answer, openMs);
        return Failure(EvidenceFailed(stored.error));
      }
      log := log + [EvidenceStored(openMs)];
      ReceiptOfAnswer(Wired(), evidence.files, answer, openMs, stored.value.1, bar.value);
      if bar.value.None? {
        return Success(None);
      }
      return Success(Some(PendingBar(openMs, stored.value.1, bar.value.value)));
    }

    /** Probes the opens in order and stops at the first failure. */
    method ProbeAll(opens: seq<int>, exchange: seq<HttpAnswer>) returns (r: Result<(seq<PendingBar>, seq<int>), PatchError>)
      requires Valid()
      modifies this`log, evidence
      ensures Valid() && Evidence.Extends(old(evidence.files), evidence.files)
      ensures exists k: nat | k <= |opens| :: log == old(log) + EvidenceEvents(opens[..k]) && (r.Success? ==> k == |opens|)
      ensures r.Failure? ==> ProbesFault(Wired(), r.error, opens, exchange)
      ensures r.Success? ==>
                && |opens| <= |exchange|
                && Interleaves(opens, OpensOfBars(r.value.0), r.value.1)
                && AllEvidence(evidence.files, evidence.encode, opens)
                && BarsBacked(Wired(), evidence.files, opens, exchange, r.value.0)
                && EmptiesBacked(Wired(), evidence.files, opens, exchange, r.value.1)
    {
      hide Evidence.Sound, Evidence.AllSound, CatalogsStored, ValidGrid, HasEvidence, Interleaves, Evidence.Extends, AllEvidence,
           BarsBacked, EmptiesBacked, BarProbed, EmptyProbed, EvidenceEvents, ProbeFault, ProbesFault, OpensOfBars;
      var pendingExact: seq<PendingBar> := [];
      var confirmedEmpty: seq<int> := [];
      EvidenceKept(evidence.files);
      NothingProbed(Wired(), opens, exchange, evidence.files, log);
      for i := 0 to |opens|
        invariant Valid() && Evidence.Extends(old(evidence.files), evidence.files)
        invariant log == old(log) + EvidenceEvents(opens[..i])
        invariant i <= |exchange|
        invariant Interleaves(opens[..i], OpensOfBars(pendingExact), confirmedEmpty)
        invariant AllEvidence(evidence.files, evidence.encode, opens[..i])
        invariant BarsBacked(Wired(), evidence.files, opens[..i], exchange, pendingExact)
        invariant EmptiesBacked(Wired(), evidence.files, opens[..i], exchange, confirmedEmpty)
      {
        var openMs := opens[i];
        assert opens[..i + 1] == opens[..i] + [openMs];
        if i >= |exchange| {
          ProbeFails(Wired(), HttpFailed, opens, exchange, i);
          return Failure(HttpFailed);
        }
        ghost var before := evidence.files;
        var probed := Probe(openMs, exchange[i]);
        ExtendsOn(old(evidence.files), before, evidence.files);
        if probed.Failure? {
          ProbeFails(Wired(), probed.error, opens, exchange, i);
          return Failure(probed.error);
        }
        BackedLasts(Wired(), before, evidence.files, opens[..i], exchange, openMs, pendingExact, confirmedEmpty);
        EvidenceEventsSnoc(old(log), opens[..i], openMs);
        AllEvidenceSnoc(before, evidence.files, evidence.encode, opens[..i], openMs);
        InterleavedMembers(opens[..i], OpensOfBars(pendingExact), confirmedEmpty);
        if probed.value.None? {
          EmptiesBackedSnoc(Wired(), evidence.files, opens[..i + 1], exchange, confirmedEmpty, openMs);
          InterleavesEmpty(opens[..i], OpensOfBars(pendingExact), confirmedEmpty, openMs);
          confirmedEmpty := confirmedEmpty + [openMs];
        } else {
          BarsBackedSnoc(Wired(), evidence.files, opens[..i + 1], exchange, pendingExact, probed.value.value);
          OpensOfBarsSnoc(pendingExact, probed.value.value);
          InterleavesPatched(opens[..i], OpensOfBars(pendingExact), confirmedEmpty, openMs);
          pendingExact := pendingExact + [probed.value.value];
        }
      }
      assert opens[..|opens|] == opens;
      return Success((pendingExact, confirmedEmpty));
    }

    /** Writes one content-addressed object per exact bar. */
    method WriteObjects(pending: seq<PendingBar>) returns (r: Result<seq<HistoryObject>, PatchError>)
      requires Valid()
      modifies this`log, this`objects
      ensures Valid() && old(objects) <= objects
      ensures Publishes(old(log), log)
      ensures r.Failure? ==> r.error == ObjectWriteFailed
      ensures r.Success? ==>
                && WrittenFor(Wired(), pending, r.value)
                && forall o | o in r.value :: o.sha in objects
    {
      var written: seq<HistoryObject> := [];
      for i := 0 to |pending|
        invariant Valid() && old(objects) <= objects && |written| == i
        invariant Publishes(old(log), log)
        invariant forall k | 0 <= k < i :: written[k] == ObjectFor(Wired(), pending[k]) && written[k].sha in objects
      {
        var p := pending[i];
        assert p in pending;
        var accepted: bool := *;
        if !accepted {
          return Failure(ObjectWriteFailed);
        }
        var key := RestKey(p.openMs, p.receipt);
        var sha := objectDigest(key, p.bar);
        objects := objects + {sha};
        PublishesMore(old(log), log, ObjectWritten);
        log := log + [ObjectWritten];
        written := written + [HistoryObject(sha, key, p.openMs, p.openMs, [Segment(p.openMs, p.openMs, 1)])];
      }
      return Success(written);
    }

    /**
     * Compare-and-publish under the archive lock. The pointer moves only if it still names the
     * expected catalog; a failed index write restores it before the error escapes.
     */
    method PublishIfCurrent(expected: Digest, added: seq<HistoryObject>) returns (r: Result<Digest, PatchError>)
      requires Valid()
      requires KeysNameContents(added) && forall o | o in added :: ValidObject(grid, o)
      modifies this`log, this`catalogs, this`current, this`index
      ensures Valid()
      ensures Publishes(old(log), log)
      ensures Keeps(old(catalogs), catalogs)
      ensures old(current) != Some(expected) ==> r == Failure(CatalogChanged) && current == old(current) && log == old(log)
      ensures r.Success? ==>
                && old(current) == Some(expected) && current == Some(r.value) && index == Some(r.value)
                && r.value in catalogs
                && catalogs[r.value].objects == NextObjects(old(catalogs)[expected].objects, added)
      ensures r.Failure? && r.error != RollbackFailed ==> current == old(current)
      ensures r.Failure? ==> PublishFault(r.error, old(current), old(catalogs), expected, added)
    {
      hide Evidence.Sound, Evidence.AllSound, ValidGrid, Publishes, CatalogsStored, StoredCatalog, KeysNameContents, ValidObject,
           Keeps, NextObjects, EpochCollision, MergeAccepted, Valid, PublishFault;
      PublishFaults(current, catalogs, expected, added);
      ValidParts();
      KeepsAll(catalogs);
      var previous := current;
      PublishesNothing(log);
      if current != Some(expected) {
        return Failure(CatalogChanged);
      }
      if exists o | o in added :: o.sha !in objects {
        return Failure(ObjectMissing);
      }
      var prepared := PrepareManifest(grid, epochOf, catalogs, objects, expected, added);
      if prepared.Failure? {
        return Failure(MergeFailed(prepared.error));
      }
      var stored := StoreManifest(prepared.value);
      if stored.Failure? {
        return stored;
      }
      ghost var published := log;
      r := MovePointer(previous, stored.value);
      PublishesOn(old(log), published, log);
    }

    /** Why a publication fails; the last two errors are failed writes. */
    ghost predicate PublishFault(error: PatchError, held: Option<Digest>, known: map<Digest, Catalog>, expected: Digest, added: seq<HistoryObject>)
      reads this`objects
    {
      match error
      case CatalogChanged => held != Some(expected)
      case ObjectMissing => exists o | o in added :: o.sha !in objects
      case MergeFailed(_) => added != [] && expected in known && !MergeAccepted(known[expected].objects, added)
      case EpochReused => EpochCollision(epochOf)
      case PublishFailed => true
      case RollbackFailed => true
      case _ => false
    }

    lemma PublishFaults(held: Option<Digest>, known: map<Digest, Catalog>, expected: Digest, added: seq<HistoryObject>)
      ensures held != Some(expected) ==> PublishFault(CatalogChanged, held, known, expected, added)
      ensures (exists o | o in added :: o.sha !in objects) ==> PublishFault(ObjectMissing, held, known, expected, added)
      ensures added != [] && expected in known && !MergeAccepted(known[expected].objects, added) ==>
                forall merge :: PublishFault(MergeFailed(merge), held, known, expected, added)
      ensures EpochCollision(epochOf) ==> PublishFault(EpochReused, held, known, expected, added)
      ensures PublishFault(PublishFailed, held, known, expected, added) && PublishFault(RollbackFailed, held, known, expected, added)
    {
      hide EpochCollision, MergeAccepted;
    }

    /** Manifests are immutable: an epoch already on disk must hold the same manifest. */
    method StoreManifest(manifest: Catalog) returns (r: Result<Digest, PatchError>)
      requires Valid() && CatalogsStored(grid, epochOf, catalogs[epochOf(manifest) := manifest], objects)
      modifies this`log, this`catalogs
      ensures Valid()
      ensures Publishes(old(log), log)
      ensures Keeps(old(catalogs), catalogs)
      ensures r.Success? ==> r.value == epochOf(manifest) && r.value in catalogs && catalogs[r.value] == manifest
      ensures r.Failure? ==> r.error == EpochReused || r.error == PublishFailed
      ensures r == Failure(EpochReused) ==> EpochCollision(epochOf)
    {
      hide Evidence.Sound, Evidence.AllSound, ValidGrid, Publishes, CatalogsStored, StoredCatalog, Keeps, EpochCollision;
      KeepsAll(catalogs);
      PublishesNothing(log);
      var epoch := epochOf(manifest);
      if epoch in catalogs {
        if catalogs[epoch] != manifest {
          StoredUnderEpoch(grid, epochOf, catalogs, objects, epoch);
          EpochsCollide(epochOf, catalogs[epoch], manifest);
          return Failure(EpochReused);
        }
      } else {
        var written: bool := *;
        if !written {
          return Failure(PublishFailed);
        }
        KeepsOneMore(catalogs, epoch, manifest);
        catalogs := catalogs[epoch := manifest];
        PublishesMore(old(log), log, CatalogWritten);
        log := log + [CatalogWritten];
      }
      return Success(epoch);
    }

    /** Pointer first, then the index; the pointer goes back if the index cannot be written. */
    method MovePointer(previous: Option<Digest>, epoch: Digest) returns (r: Result<Digest, PatchError>)
      requires Valid() && epoch in catalogs && previous == current
      modifies this`log, this`current, this`index
      ensures Valid()
      ensures Publishes(old(log), log)
      ensures r.Success? ==> r.value == epoch && current == Some(epoch) && index == Some(epoch)
      ensures r.Failure? ==> r.error == PublishFailed || r.error == RollbackFailed
      ensures r.Failure? && r.error != RollbackFailed ==> current == old(current)
    {
      hide Evidence.Sound, Evidence.AllSound, ValidGrid, CatalogsStored, Publishes;
      PublishesNothing(log);
      var pointed: bool := *;
      if !pointed {
        return Failure(PublishFailed);
      }
      current := Some(epoch);
      PublishesMore(old(log), log, PointerSet);
      log := log + [PointerSet];
      var indexed: bool := *;
      if indexed {
        index := Some(epoch);
        PublishesMore(old(log), log, IndexSet);
        log := log + [IndexSet];
        return Success(epoch);
      }
      var restored: bool := *;
      if !restored {
        return Failure(RollbackFailed);
      }
      current := previous;
      PublishesMore(old(log), log, PointerSet);
      log := log + [PointerSet];
      return Failure(PublishFailed);
    }

    /** Another process publishing between the probes and the compare-and-publish. */
    method PublishedMeanwhile(c: Catalog)
      requires Valid() && StoredCatalog(grid, epochOf, epochOf(c), c, objects)
      modifies this`catalogs, this`current
      ensures Valid() && current == Some(epochOf(c))
      ensures Keeps(old(catalogs), catalogs)
    {
      hide Evidence.Sound, Evidence.AllSound, ValidGrid, StoredCatalog, CatalogsStored;
      StoreGrows(grid, epochOf, catalogs, objects, c);
      if epochOf(c) !in catalogs {
        catalogs := catalogs[epochOf(c) := c];
      }
      current := Some(epochOf(c));
    }

    /** Scans the catalog just published, then reads every object back, which can fail whatever was written. */
    method AuditPublished(epoch: Digest, args: PatchArgs, confirmedEmpty: seq<int>) returns (r: Result<(nat, int), PatchError>)
      requires Valid() && epoch in catalogs && catalogs[epoch].objects != [] && grid.aligned(ScanEnd(catalogs[epoch], args))
      ensures r == Failure(AuditFailed) <==> Missing(grid, catalogs[epoch], ScanEnd(catalogs[epoch], args)) != Sort(LessEq, confirmedEmpty)
      ensures r.Success? ==>
                && r.value.0 == |Compress(grid, Missing(grid, catalogs[epoch], ScanEnd(catalogs[epoch], args)))|
                && r.value.1 == |Missing(grid, catalogs[epoch], ScanEnd(catalogs[epoch], args))|
      ensures r.Failure? ==> r.error == AuditFailed || r.error == ObjectAuditFailed
    {
      hide Evidence.Sound, Evidence.AllSound, ValidGrid, CatalogsStored, Missing, Compress, ValidCatalog, KeysNameContents;
      var manifest := catalogs[epoch];
      StoredUnderEpoch(grid, epochOf, catalogs, objects, epoch);
      var end := if args.requiredEndOpenMs.None? then LatestOpen(manifest) else args.requiredEndOpenMs.value;
      var rescanned := RescanCatalog(grid, manifest, end);
      if rescanned.0 != Sort(LessEq, confirmedEmpty) {
        return Failure(AuditFailed);
      }
      for i := 0 to |manifest.objects| {
        var intact: bool := *;
        if !intact {
          return Failure(ObjectAuditFailed);
        }
      }
      return Success((rescanned.1, rescanned.2));
    }

    /** Objects and compare-and-publish: what is published is the patch of the pinned catalog. */
    method PublishBars(args: PatchArgs, opens: seq<int>, pending: seq<PendingBar>, confirmedEmpty: seq<int>, meanwhile: Option<Catalog>)
      returns (r: Result<Digest, PatchError>)
      requires Valid() && current == Some(args.baseRevision)
      requires meanwhile.Some? ==> StoredCatalog(grid, epochOf, epochOf(meanwhile.value), meanwhile.value, objects)
      requires TailAccepted(grid, catalogs[args.baseRevision], args)
      requires opens == Missing(grid, catalogs[args.baseRevision], ScanEnd(catalogs[args.baseRevision], args))
      requires Interleaves(opens, OpensOfBars(pending), confirmedEmpty)
      requires forall o, t | o in catalogs[args.baseRevision].objects && t in opens :: !Contains(o, t)
      modifies this`log, this`catalogs, this`current, this`index, this`objects
      ensures Valid() && Keeps(old(catalogs), catalogs)
      ensures Publishes(old(log), log)
      ensures r.Success? ==> current == Some(r.value) && index == current && r.value in catalogs
      ensures r.Success? ==>
                && PublishedPatch(grid, old(catalogs)[args.baseRevision], catalogs[r.value],
                                  ScanEnd(old(catalogs)[args.baseRevision], args), PatchReport(r.value, pending, confirmedEmpty))
                && ScanEnd(catalogs[r.value], args) == ScanEnd(old(catalogs)[args.baseRevision], args)
                && grid.aligned(ScanEnd(catalogs[r.value], args)) && confirmedEmpty == Sort(LessEq, confirmedEmpty)
      ensures r.Success? ==> PatchStored(Wired(), old(catalogs)[args.baseRevision], catalogs[r.value], pending)
      ensures r.Success? && meanwhile.Some? ==> epochOf(meanwhile.value) == args.baseRevision
      ensures r.Failure? && r.error != RollbackFailed ==> current == Resting(epochOf, old(current), meanwhile)
      ensures r.Failure? ==> StoringFault(r.error, args, meanwhile)
    {
      hide Evidence.Sound, Evidence.AllSound, ValidGrid, StoredCatalog, CatalogsStored, Publishes, Interleaves, ValidCatalog,
           KeysNameContents, ValidObject, Missing, OpensOf, PatchObjects, PatchFits, Keeps, Compress, PublishedPatch,
           WrittenFor, PatchStored, MergeAccepted, EpochCollision;
      ghost var before := catalogs[args.baseRevision];
      BaseIsValid(grid, epochOf, catalogs, objects, args.baseRevision);
      PendingAligned(grid, before, ScanEnd(before, args), pending, confirmedEmpty);
      ghost var held, stock, unlogged := catalogs, objects, log;
      var written := WriteObjects(pending);
      if meanwhile.Some? {
        StoredWithMoreObjects(grid, epochOf, meanwhile.value, stock, objects);
        PublishedMeanwhile(meanwhile.value);
      } else {
        KeepsAll(catalogs);
      }
      if written.Failure? {
        return Failure(written.error);
      }
      KeptEntry(held, catalogs, args.baseRevision);
      PatchReady(Wired(), grid, before, ScanEnd(before, args), pending, confirmedEmpty, written.value);
      ghost var shared, logged := catalogs, log;
      MergeIsAccepted(grid, catalogs[args.baseRevision], written.value);
      r := PublishIfCurrent(args.baseRevision, written.value);
      PublishesOn(unlogged, logged, log);
      KeepsOn(held, shared, catalogs);
      if r.Success? {
        BaseIsValid(grid, epochOf, catalogs, objects, r.value);
        PatchIsExact(grid, before, catalogs[r.value], args, OpensOfBars(pending), confirmedEmpty, written.value);
        PatchIsReported(grid, before, catalogs[r.value], args, r.value, pending, confirmedEmpty, written.value);
        PatchIsStored(Wired(), grid, before, catalogs[r.value], pending, written.value);
      }
    }

    /** Why everything after the last probe fails; the errors without a reason are failed writes. */
    ghost predicate StoringFault(error: PatchError, args: PatchArgs, meanwhile: Option<Catalog>) {
      match error
      case CatalogChanged => meanwhile.Some? && epochOf(meanwhile.value) != args.baseRevision
      case EpochReused => EpochCollision(epochOf)
      case ObjectWriteFailed => true
      case PublishFailed => true
      case RollbackFailed => true
      case _ => false
    }

    /** The report of a patch that was published. */
    ghost function PatchReport(epoch: Digest, pending: seq<PendingBar>, confirmedEmpty: seq<int>): Report {
      Report(epoch, |pending| + |confirmedEmpty|, OpensOfBars(pending), confirmedEmpty, |Compress(grid, confirmedEmpty)|, |confirmedEmpty|)
    }

    lemma PatchIsReported(g: Grid, before: Catalog, after: Catalog, args: PatchArgs, epoch: Digest, pending: seq<PendingBar>, empty: seq<int>,
                          added: seq<HistoryObject>)
      requires ValidGrid(grid) && g == grid && ValidCatalog(g, before) && ValidCatalog(g, after)
      requires TailAccepted(g, before, args) && before.objects != [] && after.objects != []
      requires PatchObjects(g, OpensOfBars(pending), added) && PatchFits(g, before.objects, added)
      requires after.objects == NextObjects(before.objects, added)
      requires Interleaves(Missing(g, before, ScanEnd(before, args)), OpensOfBars(pending), empty)
      ensures PublishedPatch(g, before, after, ScanEnd(before, args), PatchReport(epoch, pending, empty))
    {
      hide ValidObject, Interleaves, PatchFits, PatchObjects, OpensOf, Missing, ValidCatalog, Compress, ValidGrid;
      PatchIsExact(g, before, after, args, OpensOfBars(pending), empty, added);
    }

    /** Objects, compare-and-publish, audit: everything after the last probe. */
    method PublishAndAudit(args: PatchArgs, opens: seq<int>, pending: seq<PendingBar>, confirmedEmpty: seq<int>, meanwhile: Option<Catalog>)
      returns (r: Result<Report, PatchError>, ghost published: Option<Report>)
      requires Valid() && current == Some(args.baseRevision)
      requires meanwhile.Some? ==> StoredCatalog(grid, epochOf, epochOf(meanwhile.value), meanwhile.value, objects)
      requires TailAccepted(grid, catalogs[args.baseRevision], args)
      requires opens == Missing(grid, catalogs[args.baseRevision], ScanEnd(catalogs[args.baseRevision], args))
      requires Interleaves(opens, OpensOfBars(pending), confirmedEmpty)
      requires forall o, t | o in catalogs[args.baseRevision].objects && t in opens :: !Contains(o, t)
      modifies this`log, this`catalogs, this`current, this`index, this`objects
      ensures Valid() && Keeps(old(catalogs), catalogs)
      ensures Publishes(old(log), log)
      ensures r.Success? ==> published == Some(r.value)
      ensures r.Failure? ==> (published.Some? <==> r.error == ObjectAuditFailed)
      ensures published.Some? ==>
                && current == Some(published.value.epoch) && index == current && published.value.epoch in catalogs
                && published.value.confirmedEmpty == confirmedEmpty
                && PublishedPatch(grid, old(catalogs)[args.baseRevision], catalogs[published.value.epoch],
                                  ScanEnd(old(catalogs)[args.baseRevision], args), published.value)
      ensures published.Some? ==>
                && PatchStored(Wired(), old(catalogs)[args.baseRevision], catalogs[published.value.epoch], pending)
                && (meanwhile.Some? ==> epochOf(meanwhile.value) == args.baseRevision)
      ensures published.None? && r != Failure(RollbackFailed) ==> current == Resting(epochOf, old(current), meanwhile)
      ensures r.Failure? && r.error != ObjectAuditFailed ==> StoringFault(r.error, args, meanwhile)
    {
      hide Evidence.Sound, Evidence.AllSound, ValidGrid, StoredCatalog, CatalogsStored, Publishes, Interleaves, ValidCatalog,
           KeysNameContents, ValidObject, Missing, OpensOf, PatchObjects, PatchFits, Keeps, Compress;
      var epoch := PublishBars(args, opens, pending, confirmedEmpty, meanwhile);
      if epoch.Failure? {
        return Failure(epoch.error), None;
      }
      published := Some(PatchReport(epoch.value, pending, confirmedEmpty));
      var audited := AuditPublished(epoch.value, args, confirmedEmpty);
      r := if audited.Failure? then Failure(audited.error)
           else Success(Report(epoch.value, |opens|, OpensOfBars(pending), confirmedEmpty, audited.value.0, audited.value.1));
    }

    /** Why a run fails, in terms of its arguments, the pinned catalog, the answers and the other publisher. */
    ghost predicate RunFault(error: PatchError, args: PatchArgs, held: Option<Digest>, known: map<Digest, Catalog>,
                             exchange: seq<HttpAnswer>, meanwhile: Option<Catalog>)
      requires ValidGrid(grid)
    {
      match error
      case InvalidArguments =>
        || args.expectedGapCount < 1 || (args.expectedMissingBars.Some? && args.expectedMissingBars.value < 1)
        || (args.requiredEndOpenMs.Some? && args.requiredEndOpenMs.value < 0)
      case BaseRevisionMismatch => held != Some(args.baseRevision)
      case ObjectAuditFailed => true
      case _ =>
        || StoringFault(error, args, meanwhile)
        || (&& args.baseRevision in known && known[args.baseRevision].objects != []
            && (|| PlanFault(error, grid, known[args.baseRevision], args)
                || ProbingFault(Wired(), error, grid, known[args.baseRevision], args, exchange)))
    }

    /**
     * A whole run, for every pinned catalog, every sequence of exchange answers and every other
     * publisher. If it publishes, every bucket from the catalog's first through the required end is covered by the
     * new catalog or was answered empty, and each bucket that was not covered before got its own answer: what is
     * published for it is the bar of that answer, under a stored receipt. This holds also when reading the published
     * objects back fails; the comparison of the remaining gaps never fails. A run that fails before publishing leaves
     * catalogs, objects and pointer as they were; one that fails later has stored the evidence of every missing bucket.
     */
    method PatchHistory(args: PatchArgs, exchange: seq<HttpAnswer>, meanwhile: Option<Catalog>)
      returns (r: Result<Report, PatchError>, ghost published: Option<Report>)
      requires Valid()
      requires meanwhile.Some? ==> StoredCatalog(grid, epochOf, epochOf(meanwhile.value), meanwhile.value, objects)
      modifies this, evidence
      ensures Valid() && Keeps(old(catalogs), catalogs) && Evidence.Extends(old(evidence.files), evidence.files)
      ensures r.Success? ==> published == Some(r.value)
      ensures r.Failure? ==> (published.Some? <==> r.error == ObjectAuditFailed)
      ensures published.Some? ==>
                && old(current) == Some(args.baseRevision) && current == Some(published.value.epoch) && index == current
                && args.baseRevision in old(catalogs) && published.value.epoch in catalogs
                && (meanwhile.Some? ==> epochOf(meanwhile.value) == args.baseRevision)
                && PublishedPatch(grid, old(catalogs)[args.baseRevision], catalogs[published.value.epoch],
                                  ScanEnd(old(catalogs)[args.baseRevision], args), published.value)
      ensures published.Some? && args.requiredEndOpenMs.Some? ==>
                WindowAnswered(Wired(), grid, evidence.files, old(catalogs)[args.baseRevision], catalogs[published.value.epoch],
                               args.requiredEndOpenMs.value, exchange, published.value.confirmedEmpty)
      ensures published.Some? && args.requiredEndOpenMs.None? ==>
                WindowAnswered(Wired(), grid, evidence.files, old(catalogs)[args.baseRevision], catalogs[published.value.epoch],
                               old(catalogs)[args.baseRevision].objects[|old(catalogs)[args.baseRevision].objects| - 1].lastOpenMs,
                               exchange, published.value.confirmedEmpty)
      ensures published.Some? ==>
                published.value.probed == (match args.expectedMissingBars case Some(bars) => bars case None => args.expectedGapCount)
      ensures r == Failure(InvalidArguments) <==>
                || args.expectedGapCount < 1 || (args.expectedMissingBars.Some? && args.expectedMissingBars.value < 1)
                || (args.requiredEndOpenMs.Some? && args.requiredEndOpenMs.value < 0)
      ensures r.Failure? ==> RunFault(r.error, args, old(current), old(catalogs), exchange, meanwhile)
      ensures r != Failure(AuditFailed)
      ensures published.None? && r != Failure(RollbackFailed) ==>
                current == old(current) || (meanwhile.Some? && current == Some(epochOf(meanwhile.value)))
      ensures r.Failure? && BeforePublication(r.error) ==>
                catalogs == old(catalogs) && current == old(current) && index == old(index) && objects == old(objects)
      ensures r.Failure? ==>
                || BeforePublication(r.error) || r.error == ObjectWriteFailed || r.error == CatalogChanged || r.error == EpochReused
                || r.error == PublishFailed || r.error == RollbackFailed || r.error == ObjectAuditFailed
      ensures r.Success? || !BeforePublication(r.error) ==>
                && args.baseRevision in old(catalogs) && old(catalogs)[args.baseRevision].objects != []
                && forall end | WindowEnds(old(catalogs)[args.baseRevision], args, end) ::
                     var opens := Missing(grid, old(catalogs)[args.baseRevision], end);
                     && Logged(old(log), log, evidence.files, evidence.encode, opens)
                     && AllEvidence(evidence.files, evidence.encode, opens)
      ensures exists opens: seq<int> :: Logged(old(log), log, evidence.files, evidence.encode, opens)
    {
      hide Evidence.Sound, Evidence.AllSound, ValidGrid, StoredCatalog, CatalogsStored, Publishes, Interleaves,
           KeysNameContents, Missing, OpensOf, Keeps, Compress, Evidence.Extends, AllEvidence, EvidenceThenPublication, NothingPublished,
           Increasing, Logged, PublishedPatch, WindowAnswered, EvidenceEvents, BarsBacked, EmptiesBacked, ProbesFault, PatchStored,
           ProbingFault, PlanFault, ObjectFor, StoringFault, BeforePublication, WindowEnds, RunFault, ScanEnd, TailAccepted, ValidCatalog;
      ErrorsBefore();
      RunFaults(args, current, catalogs, exchange, meanwhile);
      LoggedNothing(log, evidence.files, evidence.encode);
      KeepsAll(catalogs);
      EvidenceKept(evidence.files);
      if args.expectedGapCount < 1 || (args.expectedMissingBars.Some? && args.expectedMissingBars.value < 1)
         || (args.requiredEndOpenMs.Some? && args.requiredEndOpenMs.value < 0) {
        return Failure(InvalidArguments), None;
      }
      if current != Some(args.baseRevision) {
        return Failure(BaseRevisionMismatch), None;
      }
      BaseIsValid(grid, epochOf, catalogs, objects, args.baseRevision);
      ghost var base, start := catalogs[args.baseRevision], log;
      OneEnd(base, args);
      var probed := ProbeMissing(args, exchange);
      if probed.Failure? {
        return Failure(probed.error), None;
      }
      var (opens, pending, confirmedEmpty) := probed.value;
      ghost var probedLog := log;
      r, published := PublishAndAudit(args, opens, pending, confirmedEmpty, meanwhile);
      LoggedAll(start, probedLog, log, evidence.files, evidence.encode, opens);
      StoringErrors(args, meanwhile);
      if published.Some? {
        BaseIsValid(grid, epochOf, catalogs, objects, published.value.epoch);
        WindowIsAnswered(Wired(), grid, evidence.files, base, catalogs[published.value.epoch], ScanEnd(base, args), exchange,
                         opens, pending, published.value);
        ProbedCount(grid, base, catalogs[published.value.epoch], ScanEnd(base, args), published.value);
      }
    }

    /** The parts of a run's fault, each a reason of its own. */
    lemma RunFaults(args: PatchArgs, held: Option<Digest>, known: map<Digest, Catalog>, exchange: seq<HttpAnswer>, meanwhile: Option<Catalog>)
      requires ValidGrid(grid)
      ensures held != Some(args.baseRevision) ==> RunFault(BaseRevisionMismatch, args, held, known, exchange, meanwhile)
      ensures RunFault(ObjectAuditFailed, args, held, known, exchange, meanwhile)
      ensures (args.expectedGapCount < 1 || (args.expectedMissingBars.Some? && args.expectedMissingBars.value < 1)
               || (args.requiredEndOpenMs.Some? && args.requiredEndOpenMs.value < 0)) ==>
                RunFault(InvalidArguments, args, held, known, exchange, meanwhile)
      ensures forall error | StoringFault(error, args, meanwhile) :: RunFault(error, args, held, known, exchange, meanwhile)
      ensures args.baseRevision in known && known[args.baseRevision].objects != [] ==>
                forall error | error != InvalidArguments && error != BaseRevisionMismatch
                            && (|| PlanFault(error, grid, known[args.baseRevision], args)
                                || ProbingFault(Wired(), error, grid, known[args.baseRevision], args, exchange)) ::
                  RunFault(error, args, held, known, exchange, meanwhile)
    {
      hide PlanFault, ProbingFault;
    }

    lemma StoringErrors(args: PatchArgs, meanwhile: Option<Catalog>)
      ensures forall error | StoringFault(error, args, meanwhile) ::
                && !BeforePublication(error)
                && (|| error == ObjectWriteFailed || error == CatalogChanged || error == EpochReused || error == PublishFailed
                    || error == RollbackFailed)
    {
    }

    /** Plans the probes and sends them; the log holds the evidence of the buckets probed so far. */
    method ProbeMissing(args: PatchArgs, exchange: seq<HttpAnswer>) returns (r: Result<(seq<int>, seq<PendingBar>, seq<int>), PatchError>)
      requires Valid() && current == Some(args.baseRevision) && catalogs[args.baseRevision].objects != []
      modifies this`log, evidence
      ensures Valid() && Evidence.Extends(old(evidence.files), evidence.files)
      ensures exists opens: seq<int> :: Logged(old(log), log, evidence.files, evidence.encode, opens)
      ensures r.Failure? ==>
                && BeforePublication(r.error) && r.error != InvalidArguments && r.error != BaseRevisionMismatch
                && (|| PlanFault(r.error, grid, catalogs[args.baseRevision], args)
                    || ProbingFault(Wired(), r.error, grid, catalogs[args.baseRevision], args, exchange))
      ensures r.Success? ==>
                var (opens, pending, empty) := r.value;
                && log == old(log) + EvidenceEvents(opens[..|opens|]) && AllEvidence(evidence.files, evidence.encode, opens)
                && TailAccepted(grid, catalogs[args.baseRevision], args)
                && opens == Missing(grid, catalogs[args.baseRevision], ScanEnd(catalogs[args.baseRevision], args))
                && |opens| == (match args.expectedMissingBars case Some(bars) => bars case None => args.expectedGapCount)
                && (forall o, t | o in catalogs[args.baseRevision].objects && t in opens :: !Contains(o, t))
                && Interleaves(opens, OpensOfBars(pending), empty)
                && BarsBacked(Wired(), evidence.files, opens, exchange, pending)
                && EmptiesBacked(Wired(), evidence.files, opens, exchange, empty)
    {
      hide Evidence.Sound, Evidence.AllSound, ValidGrid, CatalogsStored, Interleaves, Missing, Evidence.Extends, AllEvidence, Logged,
           EvidenceEvents, BarsBacked, EmptiesBacked, ProbesFault, PlanFault, ProbingFault, TailAccepted, ValidCatalog, KeysNameContents;
      BaseIsValid(grid, epochOf, catalogs, objects, args.baseRevision);
      ghost var base, start := catalogs[args.baseRevision], log;
      LoggedNothing(log, evidence.files, evidence.encode);
      EvidenceKept(evidence.files);
      var planned := PlanProbes(grid, catalogs[args.baseRevision], args);
      if planned.Failure? {
        PlanFaults(planned.error, grid, base, args);
        return Failure(planned.error);
      }
      var opens := planned.value;
      var probed := ProbeAll(opens, exchange);
      LoggedProbes(start, log, evidence.files, evidence.encode, opens);
      if probed.Failure? {
        ProbeFaults(Wired(), probed.error, grid, base, args, opens, exchange);
        return Failure(probed.error);
      }
      return Success((opens, probed.value.0, probed.value.1));
    }
  }

  /** Bucket `t` is inside a published segment. */
  ghost predicate InSegments(c: Catalog, t: int) {
    exists s | s in c.segments :: s.startMs <= t <= s.endMs
  }

  /** The `i`-th answer belongs to the `i`-th missing bucket: it says the bucket is empty, or what is published for it is its bar. */
  ghost predicate AnsweredAt(w: Wiring, files: Evidence.Files, after: Catalog, missing: seq<int>, exchange: seq<HttpAnswer>, t: int, empty: seq<int>) {
    exists i | 0 <= i < |missing| && i < |exchange| ::
      && missing[i] == t
      && (if t in empty then EmptyProbed(w, files, exchange[i], t) else exists o | o in after.objects :: ObjectServed(w, files, exchange[i], t, o))
  }

  /**
   * Every bucket of the window: covered by the new catalog exactly if it was not found empty, never found empty if it was
   * covered before, and answered by the exchange if it was not.
   */
  ghost predicate WindowAnswered(w: Wiring, g: Grid, files: Evidence.Files, base: Catalog, after: Catalog, end: int,
                                 exchange: seq<HttpAnswer>, empty: seq<int>)
    requires ValidGrid(g) && base.objects != []
  {
    && (forall t | g.aligned(t) && base.objects[0].firstOpenMs <= t <= end ::
          && (InSegments(after, t) <==> t !in empty)
          && (InSegments(base, t) ==> t !in empty)
          && (!InSegments(base, t) ==> AnsweredAt(w, files, after, Missing(g, base, end), exchange, t, empty)))
    && (forall t | t in empty :: g.aligned(t) && base.objects[0].firstOpenMs <= t <= end)
    && (forall o | o in base.objects :: o in after.objects)
  }

  lemma WindowIsAnswered(w: Wiring, g: Grid, files: Evidence.Files, base: Catalog, after: Catalog, end: int, exchange: seq<HttpAnswer>,
                         opens: seq<int>, pending: seq<PendingBar>, report: Report)
    requires ValidGrid(g) && ValidCatalog(g, base) && ValidCatalog(g, after)
    requires PublishedPatch(g, base, after, end, report) && PatchStored(w, base, after, pending)
    requires opens == Missing(g, base, end) && Interleaves(opens, OpensOfBars(pending), report.confirmedEmpty)
    requires BarsBacked(w, files, opens, exchange, pending) && EmptiesBacked(w, files, opens, exchange, report.confirmedEmpty)
    ensures WindowAnswered(w, g, files, base, after, end, exchange, report.confirmedEmpty)
  {
    hide ValidGrid, ValidObjects, MergeAll, Missing, OpensOf, Interleaves, BarsBacked, EmptiesBacked, PatchStored, EmptyProbed, ObjectServed,
         Increasing, Compress;
    var empty := report.confirmedEmpty;
    MissingIsUncovered(g, base, end);
    MissingIsUncovered(g, after, end);
    InterleavedMembers(opens, OpensOfBars(pending), empty);
    StoredKeeps(w, base, after, pending);
    forall t | g.aligned(t) && base.objects[0].firstOpenMs <= t <= end
      ensures InSegments(after, t) <==> t !in empty
      ensures InSegments(base, t) ==> t !in empty
      ensures !InSegments(base, t) ==> AnsweredAt(w, files, after, opens, exchange, t, empty)
    {
      assert Uncovered(g, base, end, t) <==> !InSegments(base, t);
      assert Uncovered(g, after, end, t) <==> !InSegments(after, t);
      if t in empty {
        EmptyIsAnswered(w, files, after, opens, exchange, empty, t);
      } else if !InSegments(base, t) {
        BarIsAnswered(w, files, base, after, opens, exchange, pending, empty, t);
      }
    }
  }

  lemma OneEnd(c: Catalog, args: PatchArgs)
    requires c.objects != []
    ensures forall end | WindowEnds(c, args, end) :: end == ScanEnd(c, args)
    ensures args.requiredEndOpenMs.Some? ==> ScanEnd(c, args) == args.requiredEndOpenMs.value
    ensures args.requiredEndOpenMs.None? ==> ScanEnd(c, args) == LatestOpen(c)
  {
  }

  lemma ErrorsBefore()
    ensures BeforePublication(InvalidArguments) && BeforePublication(BaseRevisionMismatch)
    ensures !BeforePublication(AuditFailed) && !BeforePublication(ObjectAuditFailed)
  {
  }

  lemma StoredKeeps(w: Wiring, base: Catalog, after: Catalog, pending: seq<PendingBar>)
    requires PatchStored(w, base, after, pending)
    ensures forall o | o in base.objects :: o in after.objects
  {
  }

  lemma EmptyIsAnswered(w: Wiring, files: Evidence.Files, after: Catalog, opens: seq<int>, exchange: seq<HttpAnswer>, empty: seq<int>, t: int)
    requires EmptiesBacked(w, files, opens, exchange, empty) && t in empty
    ensures AnsweredAt(w, files, after, opens, exchange, t, empty)
  {
    hide EmptyProbed, ObjectServed;
  }

  lemma BarIsAnswered(w: Wiring, files: Evidence.Files, base: Catalog, after: Catalog, opens: seq<int>, exchange: seq<HttpAnswer>,
                      pending: seq<PendingBar>, empty: seq<int>, t: int)
    requires BarsBacked(w, files, opens, exchange, pending) && PatchStored(w, base, after, pending)
    requires t in OpensOfBars(pending) && t !in empty
    ensures AnsweredAt(w, files, after, opens, exchange, t, empty)
  {
    hide Answers, ReceiptStored;
    OpensOfBarsAt(pending);
    var k :| 0 <= k < |pending| && OpensOfBars(pending)[k] == t;
    var p := pending[k];
    assert p in pending && p.openMs == t;
    var i :| 0 <= i < |opens| && i < |exchange| && opens[i] == p.openMs && BarProbed(w, files, exchange[i], p);
    assert ObjectServed(w, files, exchange[i], t, ObjectFor(w, p));
  }

  lemma ProbedCount(g: Grid, base: Catalog, after: Catalog, end: int, report: Report)
    requires ValidGrid(g) && PublishedPatch(g, base, after, end, report)
    ensures report.probed == |Missing(g, base, end)|
  {
  }

  /** An object of the catalog spans a bucket that is to be probed. */
  ghost predicate SpanBlocks(g: Grid, c: Catalog, args: PatchArgs)
    requires c.objects != []
  {
    exists end, o, t | WindowEnds(c, args, end) && o in c.objects :: Uncovered(g, c, end, t) && o.firstOpenMs <= t <= o.lastOpenMs
  }

  /** Why no probe is sent. */
  ghost predicate PlanFault(error: PatchError, g: Grid, c: Catalog, args: PatchArgs)
    requires ValidGrid(g) && c.objects != []
  {
    OpensFault(error, g, c, args) || (error.PlacementBlocked? && SpanBlocks(g, c, args))
  }

  /** Why the probes of the missing buckets fail. */
  ghost predicate ProbingFault(w: Wiring, error: PatchError, g: Grid, c: Catalog, args: PatchArgs, exchange: seq<HttpAnswer>)
    requires ValidGrid(g) && c.objects != []
  {
    exists end | WindowEnds(c, args, end) :: ProbesFault(w, error, Missing(g, c, end), exchange)
  }

  lemma SpanFound(g: Grid, c: Catalog, args: PatchArgs, opens: seq<int>)
    requires ValidGrid(g) && ValidCatalog(g, c) && opens == Missing(g, c, ScanEnd(c, args))
    requires !forall o, t | o in c.objects && t in opens :: !Contains(o, t)
    ensures SpanBlocks(g, c, args)
  {
    hide Missing, ValidGrid, Uncovered, ValidObjects, MergeAll, Increasing;
    MissingIsUncovered(g, c, ScanEnd(c, args));
    var o, t :| o in c.objects && t in opens && Contains(o, t);
    assert WindowEnds(c, args, ScanEnd(c, args)) && Uncovered(g, c, ScanEnd(c, args), t);
  }

  lemma PlanFaults(error: PatchError, g: Grid, c: Catalog, args: PatchArgs)
    requires ValidGrid(g) && c.objects != [] && PlanFault(error, g, c, args)
    ensures BeforePublication(error) && error != InvalidArguments && error != BaseRevisionMismatch && error != ObjectAuditFailed
  {
  }

  lemma ProbeFaults(w: Wiring, error: PatchError, g: Grid, c: Catalog, args: PatchArgs, opens: seq<int>, exchange: seq<HttpAnswer>)
    requires ValidGrid(g) && c.objects != [] && opens == Missing(g, c, ScanEnd(c, args)) && ProbesFault(w, error, opens, exchange)
    ensures ProbingFault(w, error, g, c, args, exchange)
    ensures BeforePublication(error) && error != InvalidArguments && error != BaseRevisionMismatch && error != ObjectAuditFailed
  {
    hide Missing;
    assert WindowEnds(c, args, ScanEnd(c, args));
  }

  /** The probes and the reasons not to start them. */
  method PlanProbes(g: Grid, c: Catalog, args: PatchArgs) returns (r: Result<seq<int>, PatchError>)
    requires ValidGrid(g) && ValidCatalog(g, c)
    ensures r.Success? ==>
              && TailAccepted(g, c, args) && r.value == Missing(g, c, ScanEnd(c, args))
              && |r.value| == (match args.expectedMissingBars case Some(bars) => bars case None => args.expectedGapCount)
              && forall o, t | o in c.objects && t in r.value :: !(o.firstOpenMs <= t <= o.lastOpenMs)
    ensures r.Failure? ==> PlanFault(r.error, g, c, args)
  {
    hide Missing, Compress, OpensFault, Uncovered, WindowEnds, ValidGrid, ValidCatalog, SpanBlocks, TailAccepted, Increasing;
    var opens := MissingOpens(g, c, args);
    if opens.Failure? {
      return Failure(opens.error);
    }
    var blocker := GapPlacementBlocker(c, opens.value);
    if blocker.Some? {
      SpanFound(g, c, args, opens.value);
      return Failure(PlacementBlocked(blocker.value));
    }
    return Success(opens.value);
  }

  /** Evidence events for a prefix of the opens, then only publication events, and those only after all opens. */
  ghost predicate EvidenceThenPublication(before: seq<Event>, after: seq<Event>, opens: seq<int>) {
    exists k: nat | k <= |opens| ::
      && before + EvidenceEvents(opens[..k]) <= after
      && Publishes(before + EvidenceEvents(opens[..k]), after)
      && (k == |opens| || after == before + EvidenceEvents(opens[..k]))
  }

  ghost predicate NothingPublished(before: seq<Event>, after: seq<Event>, opens: seq<int>) {
    exists k: nat | k <= |opens| :: after == before + EvidenceEvents(opens[..k])
  }

  /** The order of a run's writes, with every probed bucket's evidence in the store before anything is published. */
  ghost predicate Logged(before: seq<Event>, after: seq<Event>, store: Evidence.Files, encode: Evidence.Receipt -> Bytes, opens: seq<int>) {
    && EvidenceThenPublication(before, after, opens)
    && (NothingPublished(before, after, opens) || AllEvidence(store, encode, opens))
  }

  lemma LoggedNothing(log: seq<Event>, store: Evidence.Files, encode: Evidence.Receipt -> Bytes)
    ensures Logged(log, log, store, encode, [])
  {
    var opens: seq<int> := [];
    assert opens[..0] == [] && EvidenceEvents(opens[..0]) == [];
    assert log + EvidenceEvents(opens[..0]) == log;
    PublishesNothing(log);
  }

  lemma LoggedProbes(before: seq<Event>, after: seq<Event>, store: Evidence.Files, encode: Evidence.Receipt -> Bytes, opens: seq<int>)
    requires exists k: nat | k <= |opens| :: after == before + EvidenceEvents(opens[..k])
    ensures Logged(before, after, store, encode, opens)
  {
    var k: nat :| k <= |opens| && after == before + EvidenceEvents(opens[..k]);
    PublishesNothing(after);
    assert Publishes(before + EvidenceEvents(opens[..k]), after);
  }

  lemma LoggedAll(before: seq<Event>, probed: seq<Event>, after: seq<Event>, store: Evidence.Files, encode: Evidence.Receipt -> Bytes, opens: seq<int>)
    requires probed == before + EvidenceEvents(opens[..|opens|]) && Publishes(probed, after)
    requires AllEvidence(store, encode, opens)
    ensures Logged(before, after, store, encode, opens)
  {
  }

  lemma BaseIsValid(g: Grid, epochOf: Catalog -> Digest, catalogs: map<Digest, Catalog>, objects: set<Digest>, epoch: Digest)
    requires ValidGrid(g) && CatalogsStored(g, epochOf, catalogs, objects) && epoch in catalogs
    ensures ValidCatalog(g, catalogs[epoch]) && KeysNameContents(catalogs[epoch].objects) && catalogs[epoch].objects != []
  {
    StoredUnderEpoch(g, epochOf, catalogs, objects, epoch);
  }

  lemma KeepsAll(catalogs: map<Digest, Catalog>)
    ensures Keeps(catalogs, catalogs)
  {
  }

  lemma KeepsOneMore(catalogs: map<Digest, Catalog>, epoch: Digest, manifest: Catalog)
    requires epoch !in catalogs
    ensures Keeps(catalogs, catalogs[epoch := manifest])
  {
  }

  lemma KeptEntry(a: map<Digest, Catalog>, b: map<Digest, Catalog>, epoch: Digest)
    requires Keeps(a, b) && epoch in a
    ensures epoch in b && b[epoch] == a[epoch]
  {
  }

  lemma KeepsOn(a: map<Digest, Catalog>, b: map<Digest, Catalog>, c: map<Digest, Catalog>)
    requires Keeps(a, b) && Keeps(b, c)
    ensures Keeps(a, c)
  {
  }

  lemma PendingAligned(g: Grid, before: Catalog, end: int, pending: seq<PendingBar>, confirmedEmpty: seq<int>)
    requires ValidGrid(g) && ValidCatalog(g, before)
    requires Interleaves(Missing(g, before, end), OpensOfBars(pending), confirmedEmpty)
    ensures forall p | p in pending :: g.aligned(p.openMs) && p.openMs in Missing(g, before, end)
    ensures Increasing(OpensOfBars(pending))
  {
    hide Missing, Increasing;
    MissingIsGridPoints(g, before, end);
    InterleavedMembers(Missing(g, before, end), OpensOfBars(pending), confirmedEmpty);
    PatchedIncrease(Missing(g, before, end), OpensOfBars(pending), confirmedEmpty);
    OpensOfBarsAt(pending);
    forall p | p in pending ensures p.openMs in OpensOfBars(pending) {
      var i :| 0 <= i < |pending| && pending[i] == p;
      assert OpensOfBars(pending)[i] == p.openMs;
    }
  }

  /** The single-bucket object that holds a pending bar. */
  ghost function ObjectFor(w: Wiring, p: PendingBar): HistoryObject {
    HistoryObject(w.objectDigest(RestKey(p.openMs, p.receipt), p.bar), RestKey(p.openMs, p.receipt), p.openMs, p.openMs,
                  [Segment(p.openMs, p.openMs, 1)])
  }

  ghost predicate WrittenFor(w: Wiring, pending: seq<PendingBar>, added: seq<HistoryObject>) {
    |added| == |pending| && forall i | 0 <= i < |pending| :: added[i] == ObjectFor(w, pending[i])
  }

  lemma AddedSingletons(w: Wiring, g: Grid, pending: seq<PendingBar>, added: seq<HistoryObject>)
    requires WrittenFor(w, pending, added) && forall p | p in pending :: g.aligned(p.openMs)
    ensures PatchObjects(g, OpensOfBars(pending), added)
  {
    OpensOfBarsAt(pending);
    forall i | 0 <= i < |added| ensures Singleton(g, added[i]) {
      assert pending[i] in pending;
    }
  }

  /** Objects written for the exact bars of a safely placed probe fit the catalog. */
  lemma PatchReady(w: Wiring, g: Grid, before: Catalog, end: int, pending: seq<PendingBar>, confirmedEmpty: seq<int>, added: seq<HistoryObject>)
    requires ValidGrid(g) && ValidCatalog(g, before) && KeysNameContents(before.objects)
    requires Interleaves(Missing(g, before, end), OpensOfBars(pending), confirmedEmpty)
    requires forall o, t | o in before.objects && t in Missing(g, before, end) :: !Contains(o, t)
    requires WrittenFor(w, pending, added)
    ensures PatchObjects(g, OpensOfBars(pending), added) && PatchFits(g, before.objects, added)
    ensures KeysNameContents(added) && forall o | o in added :: ValidObject(g, o)
  {
    hide ValidObject, Missing, Increasing, Interleaves, PatchFits;
    PendingAligned(g, before, end, pending, confirmedEmpty);
    OpensOfBarsAt(pending);
    var patched := OpensOfBars(pending);
    InterleavedMembers(Missing(g, before, end), patched, confirmedEmpty);
    AddedSingletons(w, g, pending, added);
    PatchObjectsFit(g, before.objects, patched, added);
    forall o | o in added ensures ValidObject(g, o) {
      SingletonIsValid(g, o);
    }
  }

  lemma MergeIsAccepted(g: Grid, before: Catalog, added: seq<HistoryObject>)
    requires ValidGrid(g) && ValidCatalog(g, before) && PatchFits(g, before.objects, added)
    ensures MergeAccepted(before.objects, added)
  {
    hide PatchFits, MergeAccepted, ValidObjects;
    PatchIsAccepted(g, before.objects, added);
  }

  /** The next catalog holds every object it held before and one object for every pending bar, and nothing else. */
  ghost predicate PatchStored(w: Wiring, before: Catalog, after: Catalog, pending: seq<PendingBar>) {
    && (forall o | o in before.objects :: o in after.objects)
    && (forall p | p in pending :: ObjectFor(w, p) in after.objects)
    && (forall o | o in after.objects :: o in before.objects || exists p | p in pending :: o == ObjectFor(w, p))
  }

  lemma PatchIsStored(w: Wiring, g: Grid, before: Catalog, after: Catalog, pending: seq<PendingBar>, added: seq<HistoryObject>)
    requires ValidGrid(g) && ValidCatalog(g, before) && PatchFits(g, before.objects, added)
    requires WrittenFor(w, pending, added) && after.objects == NextObjects(before.objects, added)
    ensures PatchStored(w, before, after, pending)
  {
    hide PatchFits, MergeAccepted, ValidObjects, Combined, ObjectFor;
    PatchIsAccepted(g, before.objects, added);
    forall p | p in pending ensures ObjectFor(w, p) in added {
      var i :| 0 <= i < |pending| && pending[i] == p;
      assert added[i] == ObjectFor(w, p);
    }
    forall o | o in added ensures exists p | p in pending :: o == ObjectFor(w, p) {
      var i :| 0 <= i < |added| && added[i] == o;
      assert pending[i] in pending && o == ObjectFor(w, pending[i]);
    }
  }

  lemma PatchIsExact(g: Grid, before: Catalog, after: Catalog, args: PatchArgs, patched: seq<int>, empty: seq<int>, added: seq<HistoryObject>)
    requires ValidGrid(g) && ValidCatalog(g, before) && ValidCatalog(g, after)
    requires TailAccepted(g, before, args)
    requires PatchObjects(g, patched, added) && PatchFits(g, before.objects, added)
    requires after.objects == NextObjects(before.objects, added)
    requires Interleaves(Missing(g, before, ScanEnd(before, args)), patched, empty)
    ensures ScanEnd(after, args) == ScanEnd(before, args) && g.aligned(ScanEnd(after, args))
    ensures OpensOf(g, after.segments) == OpensOf(g, before.segments) + AsSet(patched)
    ensures Missing(g, after, ScanEnd(after, args)) == empty == Sort(LessEq, empty)
    ensures |Missing(g, before, ScanEnd(before, args))| == |patched| + |empty|
    ensures EarliestOpen(after) == EarliestOpen(before)
    ensures LatestOpen(before) <= LatestOpen(after) <= ScanEnd(before, args)
  {
    hide ValidObject, Interleaves, PatchFits, PatchObjects, OpensOf, Missing;
    CatalogBoundsAligned(g, before);
    PatchAddsExactBars(g, before, after, patched, added);
    ExactlyEmptyRemains(g, before, after, ScanEnd(before, args), patched, empty);
    MissingIsGridPoints(g, after, ScanEnd(before, args));
    assert SortedBy(LessEq, empty);
    SortKeepsSorted(LessEq, empty);
  }

  /** Where the pointer rests when nothing was published by this run. */
  function Resting(epochOf: Catalog -> Digest, current: Option<Digest>, meanwhile: Option<Catalog>): Option<Digest> {
    if meanwhile.Some? then Some(epochOf(meanwhile.value)) else current
  }

  /** Catalog manifests are immutable. */
  ghost predicate Keeps(before: map<Digest, Catalog>, after: map<Digest, Catalog>) {
    forall epoch | epoch in before :: epoch in after && after[epoch] == before[epoch]
  }

  /** The meaning of a published patch over the probed window. */
  ghost predicate PublishedPatch(g: Grid, before: Catalog, after: Catalog, end: int, report: Report)
    requires ValidGrid(g)
  {
    && before.objects != [] && after.objects != []
    && OpensOf(g, after.segments) == OpensOf(g, before.segments) + AsSet(report.patched)
    && Missing(g, after, end) == report.confirmedEmpty
    && Interleaves(Missing(g, before, end), report.patched, report.confirmedEmpty)
    && report.probed == |Missing(g, before, end)| == |report.patched| + |report.confirmedEmpty|
    && report.missingBars == |report.confirmedEmpty|
    && report.gapCount == |Compress(g, report.confirmedEmpty)|
    && EarliestOpen(after) == EarliestOpen(before)
    && LatestOpen(before) <= LatestOpen(after) <= end
  }

  lemma StoredWithMoreObjects(g: Grid, epochOf: Catalog -> Digest, c: Catalog, fewer: set<Digest>, more: set<Digest>)
    requires ValidGrid(g) && StoredCatalog(g, epochOf, epochOf(c), c, fewer) && fewer <= more
    ensures StoredCatalog(g, epochOf, epochOf(c), c, more)
  {
  }

  /** Scans a published catalog again and expands what it reports. */
  method RescanCatalog(g: Grid, c: Catalog, end: int) returns (r: (seq<int>, nat, int))
    requires ValidGrid(g) && ValidCatalog(g, c) && g.aligned(end)
    ensures r.0 == Missing(g, c, end) && r.1 == |Compress(g, Missing(g, c, end))| && r.2 == |Missing(g, c, end)|
  {
    CatalogBoundsAligned(g, c);
    MissingIsGridPoints(g, c, end);
    var scan := ScanManifestGaps(g, c.segments, EarliestOpen(c), end);
    assert scan.Success?;
    CountedReportIsAccepted(g, Missing(g, c, end), scan.value, false);
    var remaining := OpensFromGapScan(g.next, scan.value, false);
    return (remaining.value, |scan.value.gaps|, scan.value.missingBars);
  }

  function NextObjects(existing: seq<HistoryObject>, added: seq<HistoryObject>): seq<HistoryObject> {
    if added == [] then existing else Combined(existing, added)
  }

  lemma {:induction false} RetainedMembers(existing: seq<HistoryObject>, added: seq<HistoryObject>)
    ensures forall o | o in Retained(existing, added) :: o in existing
  {
    if existing != [] {
      var front, last := existing[..|existing| - 1], existing[|existing| - 1];
      assert existing == front + [last];
      RetainedMembers(front, added);
    }
  }

  lemma CombinedMembers(existing: seq<HistoryObject>, added: seq<HistoryObject>)
    ensures forall o | o in Combined(existing, added) :: o in existing || o in added
  {
    ByRangeIsTotal();
    SortIsSortedPermutation(ByRange, Retained(existing, added) + added);
    SameMembers(Retained(existing, added) + added, Combined(existing, added));
    RetainedMembers(existing, added);
  }

  lemma {:induction false} ChainedIsApart(objects: seq<HistoryObject>)
    requires Chained(objects) && forall o | o in objects :: o.firstOpenMs <= o.lastOpenMs
    ensures Apart(objects)
  {
    forall i, j | 0 <= i < j < |objects| ensures objects[i].lastOpenMs < objects[j].firstOpenMs {
      ChainedAt(objects, i, j);
    }
  }

  lemma {:induction false} ChainedAt(objects: seq<HistoryObject>, i: nat, j: nat)
    requires Chained(objects) && (forall o | o in objects :: o.firstOpenMs <= o.lastOpenMs) && i < j < |objects|
    ensures objects[i].lastOpenMs < objects[j].firstOpenMs
  {
    if i + 1 < j {
      ChainedAt(objects, i, j - 1);
      assert objects[j - 1] in objects;
      assert objects[j - 1].lastOpenMs < objects[j - 1 + 1].firstOpenMs;
    } else {
      assert objects[i].lastOpenMs < objects[i + 1].firstOpenMs;
    }
  }

  /** Every accepted merge of valid objects yields a catalog that validates. */
  lemma MergedCatalogIsStored(g: Grid, epochOf: Catalog -> Digest, before: Catalog, added: seq<HistoryObject>, manifest: Catalog, objects: set<Digest>)
    requires ValidGrid(g) && ValidCatalog(g, before) && KeysNameContents(before.objects)
    requires forall o | o in before.objects :: o.sha in objects
    requires KeysNameContents(added) && forall o | o in added :: ValidObject(g, o) && o.sha in objects
    requires added == [] || MergeAccepted(before.objects, added)
    requires manifest.objects == NextObjects(before.objects, added) && manifest.objects != []
    requires manifest.segments == MergeAll(g, AllSegments(manifest.objects))
    ensures StoredCatalog(g, epochOf, epochOf(manifest), manifest, objects)
  {
    if added != [] {
      CombinedMembers(before.objects, added);
      ChainedIsApart(Combined(before.objects, added));
    }
  }
}
