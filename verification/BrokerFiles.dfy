/** The broker directory seen by the rollback tools: files, who changed them, and what an archive restores. */
module BrokerFiles {
  import opened Results

  datatype LedgerKind = Shadow | Control | Execution

  /** A SQLite database and its side files. */
  datatype Part = Main | Wal | Shm

  datatype Path =
    | LedgerFile(kind: LedgerKind, part: Part)
    | BrokerState
    | OtherPath(name: string)
    | TemporaryOf(target: Path, nonce: nat)

  type Files = map<Path, Bytes>

  datatype Entry = Entry(part: Part, present: bool, size: nat, sha: Digest)

  datatype Manifest = Manifest(kind: LedgerKind, removalRequested: bool, files: seq<Entry>)

  /** A readable archive: its manifest, its audit export, and one member per archived part. */
  datatype Zip = Zip(manifest: Manifest, audit: Bytes, members: map<Part, Bytes>)

  /** Who made a change: the tool, SQLite on the tool's behalf, or another process. */
  datatype Actor = Tool | Sqlite | Other

  datatype Event = Event(actor: Actor, before: Files, after: Files)

  function Trio(kind: LedgerKind): set<Path> {
    {LedgerFile(kind, Main), LedgerFile(kind, Wal), LedgerFile(kind, Shm)}
  }

  lemma PartInTrio(kind: LedgerKind, part: Part)
    ensures LedgerFile(kind, part) in Trio(kind) && part in {Main, Wal, Shm}
  {
    match part
    case Main =>
    case Wal =>
    case Shm =>
  }

  ghost predicate SameAt(before: Files, after: Files, p: Path) {
    (p in before <==> p in after) && (p in before ==> before[p] == after[p])
  }

  /** Nothing outside `allowed` changed. */
  ghost predicate ChangesOnly(before: Files, after: Files, allowed: set<Path>) {
    forall p | p !in allowed :: SameAt(before, after, p)
  }

  /** `archive` holds a member for the ledger file with the size and digest of `content`. */
  ghost predicate Restores(hash: Bytes -> Digest, unzip: Bytes -> Option<Zip>, archive: Bytes, p: Path, content: Bytes) {
    && p.LedgerFile?
    && unzip(archive).Some?
    && var zip := unzip(archive).value;
       && zip.manifest.kind == p.kind
       && p.part in zip.members
       && |zip.members[p.part]| == |content| && hash(zip.members[p.part]) == hash(content)
  }

  /** Each event starts where the previous one ended. */
  ghost predicate Chained(start: Files, events: seq<Event>, end: Files) {
    if events == [] then start == end
    else
      var front, last := events[..|events| - 1], events[|events| - 1];
      Chained(start, front, last.before) && last.after == end
  }

  lemma ChainedSnoc(start: Files, events: seq<Event>, end: Files, e: Event)
    requires Chained(start, events, end) && e.before == end
    ensures Chained(start, events + [e], e.after)
  {
    assert (events + [e])[..|events|] == events;
  }
}
