/**
 * The import worklist: one monthly object per closed month, daily objects elsewhere, and a loop that
 * splices a missing month's daily objects into the list it is walking.
 */
module ImportWorklist {
  import opened Results
  import opened Sorting
  import opened ArchivePlan

  // ----- selection

  function LessEqRef(a: Ref, b: Ref): bool {
    a.startMs < b.startMs
    || (a.startMs == b.startMs && (a.endMs < b.endMs
        || (a.endMs == b.endMs && (a.granularity != b.granularity ==> a.granularity.Daily?)
                               && (a.granularity == b.granularity ==> a.period <= b.period))))
  }

  lemma RefOrderIsTotal()
    ensures TotalPreorder(LessEqRef)
  {
  }

  function CoveredMonths(refs: seq<Ref>): set<int> {
    set r | r in refs && r.granularity.Monthly? :: r.period
  }

  predicate IsMonthly(r: Ref) { r.granularity.Monthly? }

  function DayOutside(cal: Calendar, covered: set<int>): Ref -> bool {
    (r: Ref) => r.granularity.Daily? && cal.monthOf(r.period) !in covered
  }

  function DayWithin(cal: Calendar, m: int): Ref -> bool {
    (r: Ref) => r.granularity.Daily? && cal.monthOf(r.period) == m
  }

  function Candidates(cal: Calendar, refs: seq<Ref>): seq<Ref> {
    Filter(IsMonthly, refs) + Filter(DayOutside(cal, CoveredMonths(refs)), refs)
  }

  /** Every monthly object, and the daily objects of months without one, in time order. */
  function SelectSourceObjects(cal: Calendar, refs: seq<Ref>): (r: seq<Ref>)
    ensures |r| == |Candidates(cal, refs)|
  {
    Sort(LessEqRef, Candidates(cal, refs))
  }

  predicate Selected(cal: Calendar, refs: seq<Ref>, r: Ref) {
    r in refs && (r.granularity.Daily? ==> cal.monthOf(r.period) !in CoveredMonths(refs))
  }

  lemma CandidateMembers(cal: Calendar, refs: seq<Ref>)
    ensures forall r :: r in Candidates(cal, refs) <==> Selected(cal, refs, r)
  {
    FilterMembers(IsMonthly, refs);
    FilterMembers(DayOutside(cal, CoveredMonths(refs)), refs);
  }

  lemma CandidatesDistinct(cal: Calendar, refs: seq<Ref>)
    requires Distinct(refs)
    ensures Distinct(Candidates(cal, refs))
  {
    var day := DayOutside(cal, CoveredMonths(refs));
    FilterMembers(IsMonthly, refs);
    FilterMembers(day, refs);
    FilterDistinct(IsMonthly, refs);
    FilterDistinct(day, refs);
    DistinctConcat(Filter(IsMonthly, refs), Filter(day, refs));
  }

  ghost predicate GenuineRefs(cal: Calendar, refs: seq<Ref>) {
    forall r | r in refs :: Genuine(cal, r)
  }

  /** The selection holds exactly the selected objects, once each, in time order without overlap. */
  lemma SelectionIsApart(cal: Calendar, refs: seq<Ref>)
    requires ValidCalendar(cal) && Distinct(refs) && GenuineRefs(cal, refs)
    ensures forall r :: r in SelectSourceObjects(cal, refs) <==> Selected(cal, refs, r)
    ensures Apart(SelectSourceObjects(cal, refs))
  {
    hide ValidCalendar, Distinct, GenuineRefs, Genuine, SelectSourceObjects, Candidates;
    var sorted, listed := SelectSourceObjects(cal, refs), Candidates(cal, refs);
    SelectionIsSorted(cal, refs);
    SameMembers(listed, sorted);
    CandidateMembers(cal, refs);
    forall i, j | 0 <= i < j < |sorted| ensures sorted[i].endMs < sorted[j].startMs {
      SelectedPairApart(cal, refs, sorted[i], sorted[j]);
    }
  }

  lemma SelectionIsSorted(cal: Calendar, refs: seq<Ref>)
    requires Distinct(refs)
    ensures var sorted := SelectSourceObjects(cal, refs);
            && multiset(Candidates(cal, refs)) == multiset(sorted)
            && (forall i, j | 0 <= i < j < |sorted| :: LessEqRef(sorted[i], sorted[j]) && sorted[i] != sorted[j])
            && (forall i | 0 <= i < |sorted| :: sorted[i] in sorted)
  {
    hide Candidates, LessEqRef, Sort;
    RefOrderIsTotal();
    CandidatesDistinct(cal, refs);
    SortIsSortedPermutation(LessEqRef, Candidates(cal, refs));
    PermutationKeepsDistinct(Candidates(cal, refs), SelectSourceObjects(cal, refs));
  }

  lemma SelectedPairApart(cal: Calendar, refs: seq<Ref>, a: Ref, b: Ref)
    requires ValidCalendar(cal) && GenuineRefs(cal, refs)
    requires Selected(cal, refs, a) && Selected(cal, refs, b) && a != b && LessEqRef(a, b)
    ensures a.endMs < b.startMs
  {
    if a.granularity != b.granularity {
      var month, day := if a.granularity.Monthly? then a else b, if a.granularity.Monthly? then b else a;
      assert month.period in CoveredMonths(refs);
    }
    RefsOverlapOnlyInMonth(cal, a, b);
    RefInMonth(cal, a);
    RefInMonth(cal, b);
  }

  // ----- daily fallbacks

  function FallbacksOf(cal: Calendar, refs: seq<Ref>, m: int): seq<Ref> {
    Filter(DayWithin(cal, m), refs)
  }

  function Lookup(fallbacks: map<int, seq<Ref>>, m: int): seq<Ref> {
    if m in fallbacks then fallbacks[m] else []
  }

  function LessEqStart(a: Ref, b: Ref): bool {
    a.startMs < b.startMs || (a.startMs == b.startMs && a.period <= b.period)
  }

  /** The planned daily objects of the month, by start time. */
  ghost predicate OrdersDays(cal: Calendar, refs: seq<Ref>, m: int, days: seq<Ref>) {
    && multiset(days) == multiset(Filter((ref: Ref) => ref.granularity.Daily? && cal.monthOf(ref.period) == m, refs))
    && forall i, j | 0 <= i < j < |days| ::
         days[i].startMs < days[j].startMs || (days[i].startMs == days[j].startMs && days[i].period <= days[j].period)
  }

  lemma SortOrdersDays(cal: Calendar, refs: seq<Ref>)
    ensures forall m :: OrdersDays(cal, refs, m, Sort(LessEqStart, FallbacksOf(cal, refs, m)))
  {
    forall m ensures OrdersDays(cal, refs, m, Sort(LessEqStart, FallbacksOf(cal, refs, m))) {
      SortIsSortedPermutation(LessEqStart, FallbacksOf(cal, refs, m));
      FilterAlike(DayWithin(cal, m), (ref: Ref) => ref.granularity.Daily? && cal.monthOf(ref.period) == m, refs);
    }
  }

  /** Groups the daily objects by month. */
  method DailyFallbacksByMonth(cal: Calendar, refs: seq<Ref>) returns (r: map<int, seq<Ref>>)
    ensures forall m :: Lookup(r, m) == Sort(LessEqStart, FallbacksOf(cal, refs, m))
    ensures forall m :: OrdersDays(cal, refs, m, Lookup(r, m))
  {
    hide OrdersDays, Sort, LessEqStart;
    var fallbacks: map<int, seq<Ref>> := map[];
    for i := 0 to |refs|
      invariant forall m :: Lookup(fallbacks, m) == FallbacksOf(cal, refs[..i], m)
    {
      var ref := refs[i];
      assert refs[..i + 1] == refs[..i] + [ref];
      ghost var grouped := fallbacks;
      if ref.granularity.Daily? {
        var month := cal.monthOf(ref.period);
        fallbacks := fallbacks[month := Lookup(fallbacks, month) + [ref]];
      }
      forall m ensures Lookup(fallbacks, m) == FallbacksOf(cal, refs[..i + 1], m) {
        assert Lookup(grouped, m) == FallbacksOf(cal, refs[..i], m);
        FilterSnoc(DayWithin(cal, m), refs[..i], ref);
      }
    }
    assert refs[..|refs|] == refs;
    r := map m | m in fallbacks :: Sort(LessEqStart, fallbacks[m]);
    SortOrdersDays(cal, refs);
  }

  // ----- specification of the loop

  datatype Fetch = Reused | Imported | NotFound | Failed

  function NextFallbacks(cal: Calendar, planned: seq<Ref>, fetch: Ref -> Fetch, r: Ref): seq<Ref> {
    if r.granularity.Monthly? && fetch(r).NotFound? then FallbacksOf(cal, planned, r.period) else []
  }

  /** The objects the loop visits: each selected one, followed by its daily fallbacks if it is a missing month. */
  function Visited(cal: Calendar, planned: seq<Ref>, fetch: Ref -> Fetch, refs: seq<Ref>): seq<Ref> {
    if refs == [] then []
    else [refs[0]] + NextFallbacks(cal, planned, fetch, refs[0]) + Visited(cal, planned, fetch, refs[1..])
  }

  /** `a` is visited before `b`: it ends before `b` starts, or it is the missing month that contains the day `b`. */
  predicate Before(fetch: Ref -> Fetch, a: Ref, b: Ref) {
    || a.endMs < b.startMs
    || (a.granularity.Monthly? && fetch(a).NotFound? && b.granularity.Daily? && a.startMs <= b.startMs && b.endMs <= a.endMs)
  }

  ghost predicate InOrder(fetch: Ref -> Fetch, refs: seq<Ref>) {
    forall i, j | 0 <= i < j < |refs| :: Before(fetch, refs[i], refs[j])
  }

  /** What the loop needs of a plan. */
  ghost predicate ValidPlan(cal: Calendar, planned: seq<Ref>) {
    && Distinct(planned) && GenuineRefs(cal, planned)
    && forall m :: Apart(FallbacksOf(cal, planned, m))
  }

  lemma FallbackMembers(cal: Calendar, planned: seq<Ref>, m: int)
    ensures forall r :: r in FallbacksOf(cal, planned, m) <==> r in planned && r.granularity.Daily? && cal.monthOf(r.period) == m
  {
    FilterMembers(DayWithin(cal, m), planned);
  }

  /** Fallbacks lie inside the month they replace. */
  lemma FallbacksInMonth(cal: Calendar, planned: seq<Ref>, month: Ref)
    requires ValidCalendar(cal) && GenuineRefs(cal, planned) && Genuine(cal, month) && month.granularity.Monthly?
    ensures forall r | r in FallbacksOf(cal, planned, month.period) ::
              r.granularity.Daily? && month.startMs <= r.startMs && r.endMs <= month.endMs && r.startMs <= r.endMs
  {
    FallbackMembers(cal, planned, month.period);
    forall r | r in FallbacksOf(cal, planned, month.period)
      ensures r.granularity.Daily? && month.startMs <= r.startMs && r.endMs <= month.endMs && r.startMs <= r.endMs
    {
      RefInMonth(cal, r);
    }
  }

  lemma {:induction false} VisitedMembers(cal: Calendar, planned: seq<Ref>, fetch: Ref -> Fetch, refs: seq<Ref>, x: Ref)
    ensures x in Visited(cal, planned, fetch, refs)
       <==> x in refs || exists r | r in refs :: x in NextFallbacks(cal, planned, fetch, r)
  {
    if refs != [] {
      VisitedMembers(cal, planned, fetch, refs[1..], x);
      assert refs == [refs[0]] + refs[1..];
    }
  }

  /** Everything visited from a list lies at or after the start of the list. */
  lemma VisitedStartsLate(cal: Calendar, planned: seq<Ref>, fetch: Ref -> Fetch, refs: seq<Ref>, bound: int)
    requires ValidCalendar(cal) && GenuineRefs(cal, planned) && GenuineRefs(cal, refs)
    requires forall r | r in refs :: bound < r.startMs
    ensures forall x | x in Visited(cal, planned, fetch, refs) :: bound < x.startMs
  {
    forall x | x in Visited(cal, planned, fetch, refs) ensures bound < x.startMs {
      VisitedMembers(cal, planned, fetch, refs, x);
      if x !in refs {
        var r :| r in refs && x in NextFallbacks(cal, planned, fetch, r);
        FallbacksInMonth(cal, planned, r);
      }
    }
  }

  /** The visit order: strictly forward in time, except that a missing month precedes its own days. */
  lemma {:induction false} VisitedInOrder(cal: Calendar, planned: seq<Ref>, fetch: Ref -> Fetch, refs: seq<Ref>)
    requires ValidCalendar(cal) && ValidPlan(cal, planned) && GenuineRefs(cal, refs) && Apart(refs)
    ensures InOrder(fetch, Visited(cal, planned, fetch, refs))
  {
    if refs != [] {
      var head, rest := refs[0], refs[1..];
      assert forall r | r in rest :: r in refs;
      VisitedInOrder(cal, planned, fetch, rest);
      assert forall r | r in rest :: head.endMs < r.startMs;
      VisitedStartsLate(cal, planned, fetch, rest, head.endMs);
      var days := NextFallbacks(cal, planned, fetch, head);
      if days != [] {
        FallbacksInMonth(cal, planned, head);
      }
      BlockInOrder(fetch, head, days, Visited(cal, planned, fetch, rest));
    }
  }

  lemma BlockInOrder(fetch: Ref -> Fetch, head: Ref, days: seq<Ref>, rest: seq<Ref>)
    requires InOrder(fetch, rest) && Apart(days)
    requires forall x | x in rest :: head.endMs < x.startMs
    requires forall r | r in days :: r.granularity.Daily? && head.startMs <= r.startMs && r.endMs <= head.endMs
    requires days != [] ==> head.granularity.Monthly? && fetch(head).NotFound?
    ensures InOrder(fetch, [head] + days + rest)
  {
    var all := [head] + days + rest;
    forall i, j | 0 <= i < j < |all| ensures Before(fetch, all[i], all[j]) {
      if j <= |days| {
        assert all[j] == days[j - 1] && all[j] in days;
        if i > 0 { assert all[i] == days[i - 1]; }
      } else {
        assert all[j] == rest[j - 1 - |days|] && all[j] in rest;
        if 0 < i <= |days| {
          assert all[i] == days[i - 1] && all[i] in days;
        } else if i > |days| {
          assert all[i] == rest[i - 1 - |days|];
        }
      }
    }
  }

  lemma InOrderIsDistinct(fetch: Ref -> Fetch, refs: seq<Ref>)
    requires InOrder(fetch, refs) && forall r | r in refs :: r.startMs <= r.endMs
    ensures Distinct(refs)
  {
    forall i, j | 0 <= i < j < |refs| ensures refs[i] != refs[j] {
      assert Before(fetch, refs[i], refs[j]) && refs[i] in refs;
    }
  }
}
