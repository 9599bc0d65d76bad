/** The independent ledger audit: transaction balances, the entry hash chain, and what a passing audit proves. */
module LedgerAudit {
  import opened Results
  import opened Sorting
  import opened Sums

  datatype Account = Cash | Other(name: string)

  datatype Entry = Entry(transactionId: string, account: Account, amount: real, memo: string)

  datatype BrokerConfig = BrokerConfig(initialEquity: real, quoteAsset: string, maxLedgerEntries: int)

  /** What the audit hashes: the chain's first link, an entry link, and the report without its own hash. */
  datatype Document =
    | InitialDocument(config: BrokerConfig)
    | EntryDocument(previous: Digest, ordinal: nat, entry: Entry)
    | ReportDocument(payload: ReportPayload)

  datatype ReportPayload = ReportPayload(ledgerTailHash: Digest, realizedPnl: real, rest: string)

  datatype Broker = Broker(
    config: BrokerConfig, ledgerEntries: seq<Entry>, cashBalance: real, closedPnl: seq<real>,
    report: ReportPayload, reportHash: Digest)

  datatype AuditError = Unbalanced | ChainMismatch | CashMismatch | PnlMismatch | ReportHashMismatch

  datatype Evidence = Evidence(balancedTransactions: nat, entryCount: nat, ledgerTailHash: Digest, cashTotal: real, closedRealizedPnl: real)

  // ----- specification

  function Total(entries: seq<Entry>): real {
    if entries == [] then 0.0 else Total(entries[..|entries| - 1]) + entries[|entries| - 1].amount
  }

  function OfTransaction(id: string): Entry -> bool { (e: Entry) => e.transactionId == id }

  predicate IsCash(e: Entry) { e.account.Cash? }

  predicate IsNotCash(e: Entry) { !e.account.Cash? }

  function TransactionTotal(entries: seq<Entry>, id: string): real { Total(Filter(OfTransaction(id), entries)) }

  ghost predicate Balanced(entries: seq<Entry>) {
    forall e | e in entries :: TransactionTotal(entries, e.transactionId) == 0.0
  }

  function Sum(values: seq<real>): real {
    if values == [] then 0.0 else Sum(values[..|values| - 1]) + values[|values| - 1]
  }

  function Chain(hash: Document -> Digest, config: BrokerConfig, entries: seq<Entry>): Digest {
    if entries == [] then hash(InitialDocument(config))
    else hash(EntryDocument(Chain(hash, config, entries[..|entries| - 1]), |entries|, entries[|entries| - 1]))
  }

  // ----- sums

  lemma TotalSnoc(entries: seq<Entry>, e: Entry)
    ensures Total(entries + [e]) == Total(entries) + e.amount
  {
    assert (entries + [e])[..|entries|] == entries;
  }

  lemma FilteredTotal(keep: Entry -> bool, entries: seq<Entry>, e: Entry)
    ensures Total(Filter(keep, entries + [e])) == Total(Filter(keep, entries)) + (if keep(e) then e.amount else 0.0)
  {
    FilterSnoc(keep, entries, e);
    assert Filter(keep, entries) + [] == Filter(keep, entries);
    TotalSnoc(Filter(keep, entries), e);
  }

  /** A predicate and its complement split every total. */
  lemma {:induction false} TotalsSplit(keep: Entry -> bool, drop: Entry -> bool, entries: seq<Entry>)
    requires forall e | e in entries :: keep(e) <==> !drop(e)
    ensures Total(entries) == Total(Filter(keep, entries)) + Total(Filter(drop, entries))
  {
    if entries != [] {
      var front, last := entries[..|entries| - 1], entries[|entries| - 1];
      assert entries == front + [last] && last in entries && forall e | e in front :: e in entries;
      TotalsSplit(keep, drop, front);
      FilteredTotal(keep, front, last);
      FilteredTotal(drop, front, last);
    }
  }

  function NotOfTransaction(id: string): Entry -> bool { (e: Entry) => e.transactionId != id }

  /** Removing one transaction leaves the totals of all others as they were. */
  lemma {:induction false} OthersKeepTotals(entries: seq<Entry>, gone: string, id: string)
    requires id != gone
    ensures Filter(OfTransaction(id), Filter(NotOfTransaction(gone), entries)) == Filter(OfTransaction(id), entries)
  {
    if entries != [] {
      var front, last := entries[..|entries| - 1], entries[|entries| - 1];
      assert entries == front + [last];
      OthersKeepTotals(front, gone, id);
      FilterSnoc(NotOfTransaction(gone), front, last);
      FilterSnoc(OfTransaction(id), Filter(NotOfTransaction(gone), front), last);
      FilterSnoc(OfTransaction(id), front, last);
      assert Filter(NotOfTransaction(gone), front) + [] == Filter(NotOfTransaction(gone), front);
    }
  }

  lemma RemovalShortens(entries: seq<Entry>, id: string)
    requires exists e | e in entries :: e.transactionId == id
    ensures |Filter(NotOfTransaction(id), entries)| < |entries|
  {
    SplitLengths(entries, id);
    var e :| e in entries && e.transactionId == id;
    FilterMember(OfTransaction(id), entries, e);
  }

  lemma {:induction false} SplitLengths(entries: seq<Entry>, id: string)
    ensures |entries| == |Filter(OfTransaction(id), entries)| + |Filter(NotOfTransaction(id), entries)|
  {
    if entries != [] {
      SplitLengths(entries[..|entries| - 1], id);
    }
  }

  /** If every transaction sums to zero, the whole ledger does. */
  lemma {:induction false} BalancedLedgerSumsToZero(entries: seq<Entry>)
    requires Balanced(entries)
    ensures Total(entries) == 0.0
    decreases |entries|
  {
    if entries != [] {
      hide Filter, Total, Balanced;
      var id := entries[0].transactionId;
      var others := Filter(NotOfTransaction(id), entries);
      TotalsSplit(OfTransaction(id), NotOfTransaction(id), entries);
      RemovalShortens(entries, id);
      OthersBalanced(entries, id);
      BalancedLedgerSumsToZero(others);
      FirstIsBalanced(entries);
    }
  }

  lemma FirstIsBalanced(entries: seq<Entry>)
    requires Balanced(entries) && entries != []
    ensures Total(Filter(OfTransaction(entries[0].transactionId), entries)) == 0.0
  {
    assert entries[0] in entries;
    assert TransactionTotal(entries, entries[0].transactionId) == 0.0;
  }

  lemma OthersBalanced(entries: seq<Entry>, gone: string)
    requires Balanced(entries)
    ensures Balanced(Filter(NotOfTransaction(gone), entries))
  {
    var others := Filter(NotOfTransaction(gone), entries);
    FilterMembers(NotOfTransaction(gone), entries);
    forall e | e in others ensures TransactionTotal(others, e.transactionId) == 0.0 {
      OthersKeepTotals(entries, gone, e.transactionId);
      assert TransactionTotal(entries, e.transactionId) == 0.0;
    }
  }

  /** Cash is minus the sum of everything else. */
  lemma CashIsMinusTheRest(entries: seq<Entry>)
    requires Balanced(entries)
    ensures Total(Filter(IsCash, entries)) == -Total(Filter(IsNotCash, entries))
  {
    BalancedLedgerSumsToZero(entries);
    TotalsSplit(IsCash, IsNotCash, entries);
  }

  // ----- the audit

  ghost predicate HasTransaction(entries: seq<Entry>, id: string) {
    exists e | e in entries :: e.transactionId == id
  }

  lemma HasTransactionSnoc(entries: seq<Entry>, e: Entry, id: string)
    ensures HasTransaction(entries + [e], id) <==> HasTransaction(entries, id) || id == e.transactionId
  {
    if id == e.transactionId { assert e in entries + [e]; }
    if HasTransaction(entries, id) {
      var x :| x in entries && x.transactionId == id;
      assert x in entries + [e];
    }
  }

  lemma TransactionTotalSnoc(entries: seq<Entry>, e: Entry, id: string)
    ensures TransactionTotal(entries + [e], id)
         == (if HasTransaction(entries, id) then TransactionTotal(entries, id) else 0.0) + (if id == e.transactionId then e.amount else 0.0)
  {
    FilteredTotal(OfTransaction(id), entries, e);
    if !HasTransaction(entries, id) {
      NothingFiltered(OfTransaction(id), entries);
    }
  }

  /** The running totals of the transactions met so far. */
  ghost predicate Tracks(totals: map<string, real>, entries: seq<Entry>) {
    && (forall id :: id in totals <==> HasTransaction(entries, id))
    && (forall id | id in totals :: totals[id] == TransactionTotal(entries, id))
  }

  lemma TracksSnoc(totals: map<string, real>, entries: seq<Entry>, e: Entry)
    requires Tracks(totals, entries)
    ensures Tracks(totals[e.transactionId := (if e.transactionId in totals then totals[e.transactionId] else 0.0) + e.amount], entries + [e])
  {
    hide HasTransaction, TransactionTotal;
    var key := e.transactionId;
    var after := totals[key := (if key in totals then totals[key] else 0.0) + e.amount];
    forall id ensures id in after <==> HasTransaction(entries + [e], id) {
      HasTransactionSnoc(entries, e, id);
    }
    forall id | id in after ensures after[id] == TransactionTotal(entries + [e], id) {
      HasTransactionSnoc(entries, e, id);
      TransactionTotalSnoc(entries, e, id);
    }
  }

  lemma NothingFiltered(keep: Entry -> bool, entries: seq<Entry>)
    requires forall e | e in entries :: !keep(e)
    ensures Total(Filter(keep, entries)) == 0.0
  {
    FilterKeepsNone(keep, entries);
  }

  method TransactionTotals(entries: seq<Entry>) returns (totals: map<string, real>)
    ensures Tracks(totals, entries)
    ensures totals.Keys == set e | e in entries :: e.transactionId
    ensures forall id | id in totals :: totals[id] == SumBy(AMOUNT, EntriesOf(entries, id))
  {
    hide Tracks;
    totals := map[];
    NothingTracked();
    for i := 0 to |entries|
      invariant Tracks(totals, entries[..i])
    {
      var e := entries[i];
      assert entries[..i + 1] == entries[..i] + [e];
      TracksSnoc(totals, entries[..i], e);
      totals := totals[e.transactionId := (if e.transactionId in totals then totals[e.transactionId] else 0.0) + e.amount];
    }
    assert entries[..|entries|] == entries;
    TrackedIds(totals, entries);
    TrackedSums(totals, entries);
  }

  lemma NothingTracked()
    ensures Tracks(map[], [])
  {
  }

  lemma TracksMeansBalanced(totals: map<string, real>, entries: seq<Entry>)
    requires Tracks(totals, entries)
    ensures (forall id | id in totals :: totals[id] == 0.0) <==> Balanced(entries)
    ensures totals == map[] <==> entries == []
  {
    if Balanced(entries) {
      forall id | id in totals ensures totals[id] == 0.0 {
        var e :| e in entries && e.transactionId == id;
        assert TransactionTotal(entries, e.transactionId) == 0.0;
      }
    }
    if forall id | id in totals :: totals[id] == 0.0 {
      forall e | e in entries ensures TransactionTotal(entries, e.transactionId) == 0.0 {
        assert e.transactionId in totals;
      }
    }
    if entries != [] {
      assert entries[0] in entries;
      assert entries[0].transactionId in totals;
    } else {
      assert forall id :: id !in totals;
    }
  }

  method ChainHash(hash: Document -> Digest, config: BrokerConfig, entries: seq<Entry>) returns (chainHash: Digest)
    ensures chainHash == Chain(hash, config, entries)
  {
    chainHash := hash(InitialDocument(config));
    for i := 0 to |entries|
      invariant chainHash == Chain(hash, config, entries[..i])
    {
      assert entries[..i + 1][..i] == entries[..i];
      chainHash := hash(EntryDocument(chainHash, i + 1, entries[i]));
    }
    assert entries[..|entries|] == entries;
  }

  // ----- consistent books, in the entries' own fields

  ghost const AMOUNT: Entry -> real := (e: Entry) => e.amount
  ghost const VALUE: real -> real := (x: real) => x

  ghost function EntriesOf(entries: seq<Entry>, id: string): seq<Entry> {
    Filter((e: Entry) => e.transactionId == id, entries)
  }

  ghost function CashEntries(entries: seq<Entry>): seq<Entry> {
    Filter((e: Entry) => e.account.Cash?, entries)
  }

  ghost function OtherEntries(entries: seq<Entry>): seq<Entry> {
    Filter((e: Entry) => !e.account.Cash?, entries)
  }

  /** The links of a chain: the configuration's hash, then for every entry the hash of the link before it, its number and itself. */
  ghost predicate IsChain(hash: Document -> Digest, config: BrokerConfig, entries: seq<Entry>, links: seq<Digest>) {
    && |links| == |entries| + 1 && links[0] == hash(InitialDocument(config))
    && forall i | 0 <= i < |entries| :: links[i + 1] == hash(EntryDocument(links[i], i + 1, entries[i]))
  }

  ghost predicate ChainEndsAt(hash: Document -> Digest, config: BrokerConfig, entries: seq<Entry>, tail: Digest) {
    exists links :: IsChain(hash, config, entries, links) && links[|links| - 1] == tail
  }

  ghost predicate TransactionsBalance(entries: seq<Entry>) {
    forall e | e in entries :: SumBy(AMOUNT, EntriesOf(entries, e.transactionId)) == 0.0
  }

  /** The broker's books agree with each other. */
  ghost predicate Consistent(hash: Document -> Digest, b: Broker) {
    && b.ledgerEntries != [] && TransactionsBalance(b.ledgerEntries)
    && ChainEndsAt(hash, b.config, b.ledgerEntries, b.report.ledgerTailHash)
    && SumBy(AMOUNT, CashEntries(b.ledgerEntries)) == b.cashBalance
    && SumBy(VALUE, b.closedPnl) == b.report.realizedPnl
    && hash(ReportDocument(b.report)) == b.reportHash
  }

  /** What each error of the audit says. */
  ghost predicate AuditFault(error: AuditError, hash: Document -> Digest, b: Broker) {
    match error
    case Unbalanced => b.ledgerEntries == [] || !TransactionsBalance(b.ledgerEntries)
    case ChainMismatch => !ChainEndsAt(hash, b.config, b.ledgerEntries, b.report.ledgerTailHash)
    case CashMismatch => SumBy(AMOUNT, CashEntries(b.ledgerEntries)) != b.cashBalance
    case PnlMismatch => SumBy(VALUE, b.closedPnl) != b.report.realizedPnl
    case ReportHashMismatch => hash(ReportDocument(b.report)) != b.reportHash
  }

  lemma {:induction false} TotalIsSum(entries: seq<Entry>)
    ensures Total(entries) == SumBy(AMOUNT, entries)
  {
    if entries != [] { TotalIsSum(entries[..|entries| - 1]); }
  }

  lemma {:induction false} SumIsSum(values: seq<real>)
    ensures Sum(values) == SumBy(VALUE, values)
  {
    if values != [] { SumIsSum(values[..|values| - 1]); }
  }

  lemma CashIsSum(entries: seq<Entry>)
    ensures Total(Filter(IsCash, entries)) == SumBy(AMOUNT, CashEntries(entries))
    ensures Total(Filter(IsNotCash, entries)) == SumBy(AMOUNT, OtherEntries(entries))
  {
    FilterAlike(IsCash, (e: Entry) => e.account.Cash?, entries);
    FilterAlike(IsNotCash, (e: Entry) => !e.account.Cash?, entries);
    TotalIsSum(Filter(IsCash, entries));
    TotalIsSum(Filter(IsNotCash, entries));
  }

  lemma BalancedMeansBalance(entries: seq<Entry>)
    ensures Balanced(entries) <==> TransactionsBalance(entries)
  {
    hide Filter, Total, SumBy;
    forall e | e in entries ensures TransactionTotal(entries, e.transactionId) == SumBy(AMOUNT, EntriesOf(entries, e.transactionId)) {
      FilterAlike(OfTransaction(e.transactionId), (x: Entry) => x.transactionId == e.transactionId, entries);
      TotalIsSum(EntriesOf(entries, e.transactionId));
    }
  }

  /** The links up to a position, and the chain's value there. */
  lemma {:induction false} LinksOf(hash: Document -> Digest, config: BrokerConfig, entries: seq<Entry>) returns (links: seq<Digest>)
    ensures IsChain(hash, config, entries, links) && links[|links| - 1] == Chain(hash, config, entries)
  {
    if entries == [] {
      links := [hash(InitialDocument(config))];
    } else {
      var front := LinksOf(hash, config, entries[..|entries| - 1]);
      links := front + [Chain(hash, config, entries)];
    }
  }

  lemma {:induction false} LinksAreChain(hash: Document -> Digest, config: BrokerConfig, entries: seq<Entry>, links: seq<Digest>)
    requires IsChain(hash, config, entries, links)
    ensures links[|links| - 1] == Chain(hash, config, entries)
  {
    if entries != [] { LinksAreChain(hash, config, entries[..|entries| - 1], links[..|links| - 1]); }
  }

  lemma ChainIsChain(hash: Document -> Digest, config: BrokerConfig, entries: seq<Entry>, tail: Digest)
    ensures ChainEndsAt(hash, config, entries, tail) <==> Chain(hash, config, entries) == tail
  {
    hide Chain;
    var links := LinksOf(hash, config, entries);
    if ChainEndsAt(hash, config, entries, tail) {
      var other :| IsChain(hash, config, entries, other) && other[|other| - 1] == tail;
      LinksAreChain(hash, config, entries, other);
    }
  }

  lemma TrackedIds(totals: map<string, real>, entries: seq<Entry>)
    requires Tracks(totals, entries)
    ensures totals.Keys == set e | e in entries :: e.transactionId
  {
    forall id ensures id in totals.Keys <==> exists e | e in entries :: e.transactionId == id {
      assert id in totals <==> HasTransaction(entries, id);
    }
  }

  lemma TrackedSums(totals: map<string, real>, entries: seq<Entry>)
    requires Tracks(totals, entries)
    ensures forall id | id in totals :: totals[id] == SumBy(AMOUNT, EntriesOf(entries, id))
  {
    forall id | id in totals ensures totals[id] == SumBy(AMOUNT, EntriesOf(entries, id)) {
      FilterAlike(OfTransaction(id), (x: Entry) => x.transactionId == id, entries);
      TotalIsSum(EntriesOf(entries, id));
    }
  }

  /** The audit passes exactly on consistent books, and every refusal names something that is wrong with them. */
  method IndependentLedgerAudit(hash: Document -> Digest, b: Broker) returns (r: Result<Evidence, AuditError>)
    ensures r.Success? <==> Consistent(hash, b)
    ensures r.Failure? ==> AuditFault(r.error, hash, b)
    ensures r.Success? ==>
              && r.value.balancedTransactions == |set e | e in b.ledgerEntries :: e.transactionId|
              && r.value.entryCount == |b.ledgerEntries| && r.value.ledgerTailHash == b.report.ledgerTailHash
              && r.value.cashTotal == b.cashBalance && r.value.closedRealizedPnl == b.report.realizedPnl
  {
    hide Balanced, Tracks, Filter, Total, Sum, Chain, TransactionsBalance, ChainEndsAt, SumBy, CashEntries;
    var totals := TransactionTotals(b.ledgerEntries);
    TracksMeansBalanced(totals, b.ledgerEntries);
    BalancedMeansBalance(b.ledgerEntries);
    TrackedIds(totals, b.ledgerEntries);
    if totals == map[] || exists id | id in totals :: totals[id] != 0.0 {
      return Failure(Unbalanced);
    }
    ChainIsChain(hash, b.config, b.ledgerEntries, b.report.ledgerTailHash);
    var chainHash := ChainHash(hash, b.config, b.ledgerEntries);
    if chainHash != b.report.ledgerTailHash {
      return Failure(ChainMismatch);
    }
    CashIsSum(b.ledgerEntries);
    var cashTotal := Total(Filter(IsCash, b.ledgerEntries));
    if cashTotal != b.cashBalance {
      return Failure(CashMismatch);
    }
    SumIsSum(b.closedPnl);
    var closedRealized := Sum(b.closedPnl);
    if closedRealized != b.report.realizedPnl {
      return Failure(PnlMismatch);
    }
    var recomputed := hash(ReportDocument(b.report));
    if recomputed != b.reportHash {
      return Failure(ReportHashMismatch);
    }
    return Success(Evidence(|totals|, |b.ledgerEntries|, chainHash, cashTotal, closedRealized));
  }

  /** A passing audit proves the whole ledger sums to zero and the cash balance mirrors every other account. */
  lemma PassingAuditBalancesTheBooks(hash: Document -> Digest, b: Broker)
    requires Consistent(hash, b)
    ensures SumBy(AMOUNT, b.ledgerEntries) == 0.0
    ensures b.cashBalance == -SumBy(AMOUNT, OtherEntries(b.ledgerEntries))
  {
    BalancedMeansBalance(b.ledgerEntries);
    BalancedLedgerSumsToZero(b.ledgerEntries);
    TotalIsSum(b.ledgerEntries);
    CashIsMinusTheRest(b.ledgerEntries);
    CashIsSum(b.ledgerEntries);
  }

  // ----- the tail hash fixes the ledger

  /** The document whose hash is the tail of a chain. */
  function TailDocument(hash: Document -> Digest, config: BrokerConfig, entries: seq<Entry>): (d: Document)
    ensures hash(d) == Chain(hash, config, entries)
  {
    if entries == [] then InitialDocument(config)
    else EntryDocument(Chain(hash, config, entries[..|entries| - 1]), |entries|, entries[|entries| - 1])
  }

  /** `d` is hashed while chaining the entries. */
  ghost predicate Chained(hash: Document -> Digest, config: BrokerConfig, entries: seq<Entry>, d: Document) {
    exists k | 0 <= k <= |entries| :: d == TailDocument(hash, config, entries[..k])
  }

  lemma ChainedPrefix(hash: Document -> Digest, config: BrokerConfig, entries: seq<Entry>, n: nat, d: Document)
    requires n <= |entries| && Chained(hash, config, entries[..n], d)
    ensures Chained(hash, config, entries, d)
  {
    var k :| 0 <= k <= n && d == TailDocument(hash, config, entries[..n][..k]);
    assert entries[..n][..k] == entries[..k];
  }

  lemma TailIsChained(hash: Document -> Digest, config: BrokerConfig, entries: seq<Entry>)
    ensures Chained(hash, config, entries, TailDocument(hash, config, entries))
  {
    assert entries[..|entries|] == entries;
  }

  /** Two chained documents of the two ledgers that hash alike. */
  ghost predicate Collide(hash: Document -> Digest, ca: BrokerConfig, a: seq<Entry>, cb: BrokerConfig, b: seq<Entry>, x: Document, y: Document) {
    Chained(hash, ca, a, x) && Chained(hash, cb, b, y) && x != y && hash(x) == hash(y)
  }

  /** Ledgers with one tail hash have one configuration and one entry sequence, or exhibit a pair of colliding documents. */
  lemma {:induction false} TailHashFixesTheLedger(hash: Document -> Digest, ca: BrokerConfig, a: seq<Entry>, cb: BrokerConfig, b: seq<Entry>)
    returns (x: Document, y: Document)
    requires Chain(hash, ca, a) == Chain(hash, cb, b)
    ensures (ca == cb && a == b) || Collide(hash, ca, a, cb, b, x, y)
    decreases |a|
  {
    x, y := TailDocument(hash, ca, a), TailDocument(hash, cb, b);
    TailIsChained(hash, ca, a);
    TailIsChained(hash, cb, b);
    if x == y && a != [] {
      var frontA, frontB := a[..|a| - 1], b[..|b| - 1];
      x, y := TailHashFixesTheLedger(hash, ca, frontA, cb, frontB);
      if Collide(hash, ca, frontA, cb, frontB, x, y) {
        ChainedPrefix(hash, ca, a, |a| - 1, x);
        ChainedPrefix(hash, cb, b, |b| - 1, y);
      } else {
        assert a == frontA + [a[|a| - 1]] && b == frontB + [b[|b| - 1]];
      }
    }
  }

  /** Two brokers that pass the audit with the same reported tail hash hold the same ledger, in the same order. */
  lemma SameReportSameLedger(hash: Document -> Digest, a: Broker, b: Broker) returns (x: Document, y: Document)
    requires Consistent(hash, a) && Consistent(hash, b) && a.report.ledgerTailHash == b.report.ledgerTailHash
    ensures (a.config == b.config && a.ledgerEntries == b.ledgerEntries && a.cashBalance == b.cashBalance)
         || Collide(hash, a.config, a.ledgerEntries, b.config, b.ledgerEntries, x, y)
  {
    ChainIsChain(hash, a.config, a.ledgerEntries, a.report.ledgerTailHash);
    ChainIsChain(hash, b.config, b.ledgerEntries, b.report.ledgerTailHash);
    x, y := TailHashFixesTheLedger(hash, a.config, a.ledgerEntries, b.config, b.ledgerEntries);
  }
}
