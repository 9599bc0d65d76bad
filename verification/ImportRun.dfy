/** The import loop over its self-extending worklist, and what a finished import covers. */
module ImportRun {
  import opened Results
  import opened Sorting
  import opened ArchivePlan
  import opened ImportWorklist

  datatype ImportArgs = ImportArgs(startDay: int, endDay: int, cacheMaxBytes: int, timeoutSeconds: real, failOnMissing: bool)

  datatype ImportError = InvalidArguments | NothingPlanned | SourceFailed | SourceMissing

  datatype ImportReport = ImportReport(refs: seq<Ref>, objects: seq<Ref>, imported: seq<Ref>, reused: seq<Ref>, missing: seq<Ref>)

  predicate Accepted(fetch: Ref -> Fetch, failOnMissing: bool, r: Ref) {
    !fetch(r).Failed? && (fetch(r).NotFound? ==> !failOnMissing)
  }

  function Fetched(fetch: Ref -> Fetch, outcome: Fetch): Ref -> bool {
    (r: Ref) => fetch(r) == outcome
  }

  function Kept(fetch: Ref -> Fetch): Ref -> bool {
    (r: Ref) => fetch(r).Reused? || fetch(r).Imported?
  }

  function NotIn(scheduled: set<Ref>): Ref -> bool {
    (r: Ref) => r !in scheduled
  }

  function RefSet(refs: seq<Ref>): set<Ref> { set r | r in refs }

  /** The report of one pass over the visited objects: each lands in one list by its outcome, in order. */
  ghost predicate IsReport(fetch: Ref -> Fetch, refs: seq<Ref>, report: ImportReport) {
    && report.refs == refs
    && report.objects == Filter(Kept(fetch), refs)
    && report.imported == Filter(Fetched(fetch, Imported), refs)
    && report.reused == Filter(Fetched(fetch, Reused), refs)
    && report.missing == Filter(Fetched(fetch, NotFound), refs)
  }

  /** Planned objects not yet in the worklist, plus worklist entries not yet visited. */
  ghost function Outstanding(planned: set<Ref>, scheduled: set<Ref>, refs: seq<Ref>, index: nat): int {
    |planned - scheduled| + |refs| - index
  }

  // ----- lemmas about one step

  lemma OneDayVisited(cal: Calendar, planned: seq<Ref>, fetch: Ref -> Fetch, refs: seq<Ref>)
    requires refs != [] && refs[0].granularity.Daily?
    ensures Visited(cal, planned, fetch, refs) == [refs[0]] + Visited(cal, planned, fetch, refs[1..])
  {
  }

  lemma {:induction false} VisitedOfDays(cal: Calendar, planned: seq<Ref>, fetch: Ref -> Fetch, days: seq<Ref>, rest: seq<Ref>)
    requires forall r | r in days :: r.granularity.Daily?
    ensures Visited(cal, planned, fetch, days + rest) == days + Visited(cal, planned, fetch, rest)
  {
    hide Visited;
    if days == [] {
      assert days + rest == rest;
    } else {
      var all, head, tail := days + rest, days[0], days[1..];
      assert head in days && days == [head] + tail;
      assert all[0] == head && all[1..] == tail + rest;
      VisitedOfDays(cal, planned, fetch, tail, rest);
      OneDayVisited(cal, planned, fetch, all);
      assert [head] + (tail + Visited(cal, planned, fetch, rest)) == days + Visited(cal, planned, fetch, rest);
    }
  }

  lemma {:induction false} ListIsVisited(cal: Calendar, planned: seq<Ref>, fetch: Ref -> Fetch, refs: seq<Ref>, x: Ref)
    requires x in refs
    ensures x in Visited(cal, planned, fetch, refs)
  {
    VisitedMembers(cal, planned, fetch, refs, x);
  }

  /** The next object's fallbacks come right after it in the visit order, and none of them is scheduled yet. */
  lemma FallbacksAreNew(cal: Calendar, planned: seq<Ref>, fetch: Ref -> Fetch, all: seq<Ref>, done: seq<Ref>, head: Ref, rest: seq<Ref>)
    requires Distinct(all)
    requires all == done + ([head] + NextFallbacks(cal, planned, fetch, head) + Visited(cal, planned, fetch, rest))
    ensures forall x | x in NextFallbacks(cal, planned, fetch, head) :: x !in RefSet(done + [head] + rest)
  {
    hide NextFallbacks, Visited;
    var days, later := NextFallbacks(cal, planned, fetch, head), Visited(cal, planned, fetch, rest);
    forall x | x in days ensures x !in RefSet(done + [head] + rest) {
      var i :| 0 <= i < |days| && days[i] == x;
      var at := |done| + 1 + i;
      assert all[at] == x;
      assert forall k | 0 <= k < |done| :: done[k] == all[k];
      assert all[|done|] == head;
      assert forall k | 0 <= k < |later| :: later[k] == all[|done| + 1 + |days| + k];
      assert x !in later;
      forall y | y in rest ensures y in later {
        ListIsVisited(cal, planned, fetch, rest, y);
      }
    }
  }

  lemma {:induction false} RefSetSize(refs: seq<Ref>)
    requires Distinct(refs)
    ensures |RefSet(refs)| == |refs|
  {
    if refs != [] {
      var front, last := refs[..|refs| - 1], refs[|refs| - 1];
      RefSetSize(front);
      assert refs == front + [last];
      assert RefSet(refs) == RefSet(front) + {last} && last !in RefSet(front);
    }
  }

  lemma RefSetConcat(a: seq<Ref>, b: seq<Ref>, c: seq<Ref>)
    ensures RefSet(a + b + c) == RefSet(a + c) + RefSet(b)
  {
  }

  /** Scheduling new planned objects moves them from one summand of the measure to the other. */
  lemma SplicingKeepsOutstanding(planned: set<Ref>, scheduled: set<Ref>, days: seq<Ref>, refs: seq<Ref>, spliced: seq<Ref>, index: nat)
    requires RefSet(days) <= planned && RefSet(days) !! scheduled && Distinct(days) && |spliced| == |refs| + |days|
    ensures Outstanding(planned, scheduled + RefSet(days), spliced, index) == Outstanding(planned, scheduled, refs, index)
  {
    RefSetSize(days);
    assert planned - scheduled == (planned - (scheduled + RefSet(days))) + RefSet(days);
  }

  // ----- the loop

  /**
   * Walks the worklist. Each iteration visits one entry, and lowers the outstanding count by exactly one,
   * also when it splices a missing month's days behind the current position.
   */
  method VisitAll(cal: Calendar, planned: seq<Ref>, selected: seq<Ref>, fallbacks: map<int, seq<Ref>>, fetch: Ref -> Fetch, failOnMissing: bool)
    returns (r: Result<ImportReport, ImportError>)
    requires Distinct(Visited(cal, planned, fetch, selected))
    requires forall m :: Lookup(fallbacks, m) == FallbacksOf(cal, planned, m)
    ensures r.Success? <==> forall x | x in Visited(cal, planned, fetch, selected) :: Accepted(fetch, failOnMissing, x)
    ensures r.Success? ==> IsReport(fetch, Visited(cal, planned, fetch, selected), r.value)
    ensures r.Failure? ==>
              || (r.error == SourceFailed && exists x | x in Visited(cal, planned, fetch, selected) :: fetch(x).Failed?)
              || (r.error == SourceMissing && failOnMissing && exists x | x in Visited(cal, planned, fetch, selected) :: fetch(x).NotFound?)
  {
    hide Visited, NextFallbacks, FallbacksOf, Filter, Distinct, RefSet, Accepted, Outstanding;
    ghost var all := Visited(cal, planned, fetch, selected);
    ghost var plannedSet := RefSet(planned);
    var refs := selected;
    var objects, imported, reused, missing := [], [], [], [];
    var scheduled := RefSet(selected);
    var index := 0;
    ghost var total := Outstanding(plannedSet, scheduled, refs, 0);
    NothingVisited(cal, planned, fetch, refs);
    NothingFiltered(fetch);
    while index < |refs|
      invariant 0 <= index <= |refs|
      invariant all == refs[..index] + Visited(cal, planned, fetch, refs[index..])
      invariant scheduled == RefSet(refs)
      invariant IsReport(fetch, refs[..index], ImportReport(refs[..index], objects, imported, reused, missing))
      invariant forall x | x in refs[..index] :: Accepted(fetch, failOnMissing, x)
      invariant Outstanding(plannedSet, scheduled, refs, index) == total - index
      decreases Outstanding(plannedSet, scheduled, refs, index)
    {
      hide IsReport;
      var ref := refs[index];
      ghost var done, rest := refs[..index], refs[index + 1..];
      StepInto(cal, planned, fetch, refs, index, all);
      OutstandingStep(plannedSet, scheduled, refs, index);
      index := index + 1;
      HeadVisited(done, ref, rest, cal, planned, fetch, all);
      ReportStep(fetch, done, ref, objects, imported, reused, missing);
      match fetch(ref) {
        case Failed =>
          RefusedVisit(fetch, failOnMissing, all, ref);
          return Failure(SourceFailed);
        case Reused =>
          objects, reused := objects + [ref], reused + [ref];
        case Imported =>
          objects, imported := objects + [ref], imported + [ref];
        case NotFound =>
          if failOnMissing {
            RefusedVisit(fetch, failOnMissing, all, ref);
            return Failure(SourceMissing);
          }
          missing := missing + [ref];
      }
      AcceptedVisit(fetch, failOnMissing, done, ref);
      if fetch(ref).NotFound? && ref.granularity.Monthly? {
        FallbacksAreNew(cal, planned, fetch, all, done, ref, rest);
        var fallbackRefs := Filter(NotIn(scheduled), Lookup(fallbacks, ref.period));
        ghost var days := NextFallbacks(cal, planned, fetch, ref);
        FallbacksKept(cal, planned, fetch, ref, scheduled, refs, done, rest);
        assert fallbackRefs == days;
        DaysOfPlan(cal, planned, fetch, ref, all, done, rest);
        ghost var before := refs;
        refs := refs[..index] + fallbackRefs + refs[index..];
        Spliced(before, refs, index, days, done, ref, rest);
        SplicingKeepsOutstanding(plannedSet, scheduled, days, before, refs, index);
        scheduled := scheduled + RefSet(fallbackRefs);
        VisitedOfDays(cal, planned, fetch, days, rest);
        VisitResumes(all, done, ref, days, Visited(cal, planned, fetch, rest));
      } else {
        NoFallbacks(cal, planned, fetch, ref, all, done, rest);
      }
    }
    assert refs[..index] == refs && refs[index..] == [];
    NothingVisited(cal, planned, fetch, refs);
    return Success(ImportReport(refs, objects, imported, reused, missing));
  }

  lemma NothingVisited(cal: Calendar, planned: seq<Ref>, fetch: Ref -> Fetch, refs: seq<Ref>)
    ensures Visited(cal, planned, fetch, []) == []
    ensures refs[..0] == [] && refs[0..] == refs
    ensures refs[..0] + Visited(cal, planned, fetch, refs[0..]) == Visited(cal, planned, fetch, refs)
  {
    assert refs[..0] + Visited(cal, planned, fetch, refs) == Visited(cal, planned, fetch, refs);
  }

  lemma NothingFiltered(fetch: Ref -> Fetch)
    ensures IsReport(fetch, [], ImportReport([], [], [], [], []))
  {
  }

  lemma StepInto(cal: Calendar, planned: seq<Ref>, fetch: Ref -> Fetch, refs: seq<Ref>, index: nat, all: seq<Ref>)
    requires index < |refs| && all == refs[..index] + Visited(cal, planned, fetch, refs[index..])
    ensures all == refs[..index] + ([refs[index]] + NextFallbacks(cal, planned, fetch, refs[index]) + Visited(cal, planned, fetch, refs[index + 1..]))
    ensures refs[..index + 1] == refs[..index] + [refs[index]] && refs == refs[..index] + [refs[index]] + refs[index + 1..]
  {
    assert refs[index..][0] == refs[index] && refs[index..][1..] == refs[index + 1..];
  }

  lemma OutstandingStep(planned: set<Ref>, scheduled: set<Ref>, refs: seq<Ref>, index: nat)
    requires index < |refs|
    ensures Outstanding(planned, scheduled, refs, index + 1) == Outstanding(planned, scheduled, refs, index) - 1 >= 0
  {
  }

  lemma HeadVisited(done: seq<Ref>, head: Ref, rest: seq<Ref>, cal: Calendar, planned: seq<Ref>, fetch: Ref -> Fetch, all: seq<Ref>)
    requires all == done + ([head] + NextFallbacks(cal, planned, fetch, head) + Visited(cal, planned, fetch, rest))
    ensures head in all
  {
    assert all[|done|] == head;
  }

  lemma RefusedVisit(fetch: Ref -> Fetch, failOnMissing: bool, all: seq<Ref>, r: Ref)
    requires r in all && (fetch(r).Failed? || (fetch(r).NotFound? && failOnMissing))
    ensures !forall x | x in all :: Accepted(fetch, failOnMissing, x)
  {
  }

  lemma AcceptedVisit(fetch: Ref -> Fetch, failOnMissing: bool, done: seq<Ref>, r: Ref)
    requires forall x | x in done :: Accepted(fetch, failOnMissing, x)
    requires !fetch(r).Failed? && (fetch(r).NotFound? ==> !failOnMissing)
    ensures forall x | x in done + [r] :: Accepted(fetch, failOnMissing, x)
  {
  }

  /** Each outcome appends the object to its own lists. */
  lemma ReportStep(fetch: Ref -> Fetch, done: seq<Ref>, r: Ref, objects: seq<Ref>, imported: seq<Ref>, reused: seq<Ref>, missing: seq<Ref>)
    requires IsReport(fetch, done, ImportReport(done, objects, imported, reused, missing))
    ensures fetch(r).Reused? ==> IsReport(fetch, done + [r], ImportReport(done + [r], objects + [r], imported, reused + [r], missing))
    ensures fetch(r).Imported? ==> IsReport(fetch, done + [r], ImportReport(done + [r], objects + [r], imported + [r], reused, missing))
    ensures fetch(r).NotFound? ==> IsReport(fetch, done + [r], ImportReport(done + [r], objects, imported, reused, missing + [r]))
  {
    hide Filter;
    FilterSnoc(Kept(fetch), done, r);
    FilterSnoc(Fetched(fetch, Imported), done, r);
    FilterSnoc(Fetched(fetch, Reused), done, r);
    FilterSnoc(Fetched(fetch, NotFound), done, r);
  }

  lemma FallbacksKept(cal: Calendar, planned: seq<Ref>, fetch: Ref -> Fetch, head: Ref, scheduled: set<Ref>, refs: seq<Ref>, done: seq<Ref>, rest: seq<Ref>)
    requires head.granularity.Monthly? && fetch(head).NotFound?
    requires scheduled == RefSet(refs) && refs == done + [head] + rest
    requires forall x | x in NextFallbacks(cal, planned, fetch, head) :: x !in RefSet(done + [head] + rest)
    ensures NextFallbacks(cal, planned, fetch, head) == FallbacksOf(cal, planned, head.period)
    ensures Filter(NotIn(scheduled), FallbacksOf(cal, planned, head.period)) == NextFallbacks(cal, planned, fetch, head)
    ensures RefSet(NextFallbacks(cal, planned, fetch, head)) !! scheduled
  {
    hide FallbacksOf;
    FilterKeepsAll(NotIn(scheduled), FallbacksOf(cal, planned, head.period));
  }

  lemma DaysOfPlan(cal: Calendar, planned: seq<Ref>, fetch: Ref -> Fetch, head: Ref, all: seq<Ref>, done: seq<Ref>, rest: seq<Ref>)
    requires Distinct(all)
    requires all == done + ([head] + NextFallbacks(cal, planned, fetch, head) + Visited(cal, planned, fetch, rest))
    ensures var days := NextFallbacks(cal, planned, fetch, head);
            && Distinct(days) && RefSet(days) <= RefSet(planned) && forall r | r in days :: r.granularity.Daily?
  {
    hide Visited, FallbacksOf;
    var days := NextFallbacks(cal, planned, fetch, head);
    forall i, j | 0 <= i < j < |days| ensures days[i] != days[j] {
      assert all[|done| + 1 + i] == days[i] && all[|done| + 1 + j] == days[j];
    }
    FallbackMembers(cal, planned, head.period);
  }

  lemma Spliced(before: seq<Ref>, after: seq<Ref>, index: nat, days: seq<Ref>, done: seq<Ref>, head: Ref, rest: seq<Ref>)
    requires before == done + [head] + rest && index == |done| + 1
    requires after == before[..index] + days + before[index..]
    ensures after[..index] == done + [head] && after[index..] == days + rest
    ensures RefSet(after) == RefSet(before) + RefSet(days)
  {
    assert before[..index] == done + [head] && before[index..] == rest;
    RefSetConcat(done + [head], days, rest);
  }

  lemma VisitResumes(all: seq<Ref>, done: seq<Ref>, head: Ref, days: seq<Ref>, later: seq<Ref>)
    requires all == done + ([head] + days + later)
    ensures all == (done + [head]) + (days + later)
  {
  }

  lemma NoFallbacks(cal: Calendar, planned: seq<Ref>, fetch: Ref -> Fetch, head: Ref, all: seq<Ref>, done: seq<Ref>, rest: seq<Ref>)
    requires !(fetch(head).NotFound? && head.granularity.Monthly?)
    requires all == done + ([head] + NextFallbacks(cal, planned, fetch, head) + Visited(cal, planned, fetch, rest))
    ensures all == (done + [head]) + Visited(cal, planned, fetch, rest)
  {
  }
}
