/**
 * The write-once evidence store of the REST patcher: raw responses and their receipts, each stored
 * under the digest of its own bytes, each write atomic and able to fail at every step.
 */
module Evidence {
  import opened Results

  datatype EvidencePath = ResponsePath(digest: Digest) | ReceiptPath(digest: Digest)

  datatype Receipt = Receipt(
    requestUrl: string, httpStatus: int, jsonContent: bool, receivedAtMs: int, openTimeMs: int,
    responseDigest: Digest, responseSizeBytes: nat)

  datatype EvidenceError = ReceiptChanged | WriteFailed

  type Files = map<EvidencePath, Bytes>

  /** Every stored path names its bytes, and every receipt points at a stored response. */
  ghost predicate Sound(hash: Bytes -> Digest, encode: Receipt -> Bytes, files: Files) {
    && (forall p | p in files :: hash(files[p]) == p.digest)
    && (forall p | p in files && p.ReceiptPath? ::
          exists r: Receipt :: files[p] == encode(r) && ResponsePath(r.responseDigest) in files)
  }

  /** Two different byte strings with one digest. */
  ghost predicate Collision(hash: Bytes -> Digest) {
    exists a: Bytes, b: Bytes :: a != b && hash(a) == hash(b)
  }

  ghost predicate Extends(before: Files, after: Files) {
    forall p | p in before :: p in after && after[p] == before[p]
  }

  ghost predicate AllSound(hash: Bytes -> Digest, encode: Receipt -> Bytes, states: seq<Files>) {
    forall i | 0 <= i < |states| :: Sound(hash, encode, states[i])
  }

  lemma SoundAfterResponse(hash: Bytes -> Digest, encode: Receipt -> Bytes, files: Files, body: Bytes)
    requires Sound(hash, encode, files)
    ensures Sound(hash, encode, files[ResponsePath(hash(body)) := body])
  {
    var after := files[ResponsePath(hash(body)) := body];
    forall p | p in after && p.ReceiptPath?
      ensures exists r: Receipt :: after[p] == encode(r) && ResponsePath(r.responseDigest) in after
    {
      var r: Receipt :| files[p] == encode(r) && ResponsePath(r.responseDigest) in files;
      assert after[p] == encode(r) && ResponsePath(r.responseDigest) in after;
    }
  }

  lemma SoundAfterReceipt(hash: Bytes -> Digest, encode: Receipt -> Bytes, files: Files, receipt: Receipt)
    requires Sound(hash, encode, files) && ResponsePath(receipt.responseDigest) in files
    ensures Sound(hash, encode, files[ReceiptPath(hash(encode(receipt))) := encode(receipt)])
  {
    var path := ReceiptPath(hash(encode(receipt)));
    var after := files[path := encode(receipt)];
    forall p | p in after && p.ReceiptPath?
      ensures exists r: Receipt :: after[p] == encode(r) && ResponsePath(r.responseDigest) in after
    {
      if p == path {
        assert after[p] == encode(receipt) && ResponsePath(receipt.responseDigest) in after;
      } else {
        var r: Receipt :| files[p] == encode(r) && ResponsePath(r.responseDigest) in files;
        assert after[p] == encode(r) && ResponsePath(r.responseDigest) in after;
      }
    }
  }

  class EvidenceStore {
    const hash: Bytes -> Digest
    const encode: Receipt -> Bytes
    var files: Files
    /** Temporary files on disk; a failed `unlink` leaves one behind. */
    var temporaries: seq<Bytes>
    /** Every content the evidence directory has had. */
    ghost var history: seq<Files>

    ghost predicate Valid()
      reads this
    {
      Sound(hash, encode, files) && AllSound(hash, encode, history)
    }

    constructor (hash: Bytes -> Digest, encode: Receipt -> Bytes)
      ensures Valid() && files == map[] && this.hash == hash && this.encode == encode
    {
      this.hash, this.encode := hash, encode;
      files, temporaries, history := map[], [], [];
    }

    /**
     * Write once. A failure at any step leaves the stored files as they were; the only error about
     * content is a stored path that already holds other bytes.
     */
    method AtomicWrite(path: EvidencePath, payload: Bytes) returns (r: Result<(), EvidenceError>)
      requires hash(payload) == path.digest
      requires Valid()
      requires path.ReceiptPath? ==> exists c: Receipt :: payload == encode(c) && ResponsePath(c.responseDigest) in files
      modifies this
      ensures Valid() && Extends(old(files), files)
      ensures r.Success? ==> files == old(files)[path := payload] && temporaries == old(temporaries)
      ensures r.Failure? ==> files == old(files)
      ensures r == Failure(ReceiptChanged) ==> path in old(files) && old(files)[path] != payload && Collision(hash)
      ensures temporaries == old(temporaries) || exists t :: temporaries == old(temporaries) + [t]
    {
      if path in files {
        if files[path] != payload {
          assert hash(files[path]) == hash(payload);
          return Failure(ReceiptChanged);
        }
        assert files == files[path := payload];
        return Success(());
      }
      var created: bool := *;
      if !created {
        return Failure(WriteFailed);
      }
      var flushed: bool := *;
      var written: Bytes := *;
      temporaries := temporaries + [if flushed then payload else written];
      assert temporaries[..|temporaries| - 1] == old(temporaries);
      var replaced: bool := *;
      if flushed && replaced {
        if path.ReceiptPath? {
          ghost var c: Receipt :| payload == encode(c) && ResponsePath(c.responseDigest) in files;
          SoundAfterReceipt(hash, encode, files, c);
        } else {
          SoundAfterResponse(hash, encode, files, payload);
        }
        files := files[path := temporaries[|temporaries| - 1]];
        history := history + [files];
        temporaries := temporaries[..|temporaries| - 1];
        return Success(());
      }
      assert temporaries == old(temporaries) + [temporaries[|temporaries| - 1]];
      var unlinked: bool := *;
      if unlinked {
        temporaries := temporaries[..|temporaries| - 1];
      }
      return Failure(WriteFailed);
    }

    /**
     * Persists one response and the receipt that points at it. Only a digest collision can produce
     * the "receipt changed" error.
     */
    method PersistSourceReceipt(requestUrl: string, body: Bytes, receivedAtMs: int, openTimeMs: int, status: int, jsonContent: bool)
      returns (r: Result<(Digest, Digest), EvidenceError>)
      requires Valid()
      modifies this
      ensures Valid() && Extends(old(files), files)
      ensures r.Success? ==>
                && r.value.0 == hash(body)
                && ResponsePath(r.value.0) in files && files[ResponsePath(r.value.0)] == body
                && ReceiptPath(r.value.1) in files
                && files[ReceiptPath(r.value.1)]
                   == encode(Receipt(requestUrl, status, jsonContent, receivedAtMs, openTimeMs, hash(body), |body|))
      ensures r == Failure(ReceiptChanged) ==> Collision(hash)
    {
      var responseDigest := hash(body);
      var stored := AtomicWrite(ResponsePath(responseDigest), body);
      if stored.Failure? {
        return Failure(stored.error);
      }
      var receipt := Receipt(requestUrl, status, jsonContent, receivedAtMs, openTimeMs, responseDigest, |body|);
      var receiptBytes := encode(receipt);
      var receiptDigest := hash(receiptBytes);
      stored := AtomicWrite(ReceiptPath(receiptDigest), receiptBytes);
      if stored.Failure? {
        return Failure(stored.error);
      }
      return Success((responseDigest, receiptDigest));
    }
  }
}
