/** What a published patch means for the catalog: the facts behind the run's contract. */
module RestPatchTheorem {
  import opened Results
  import opened Sorting
  import opened Grids
  import opened GapReports
  import opened Catalogs
  import opened CatalogObjects
  import opened RestPatch

  /** `opens` is an order-preserving interleaving of the patched and the confirmed-empty opens. */
  ghost predicate Interleaves(opens: seq<int>, patched: seq<int>, empty: seq<int>) {
    if opens == [] then patched == [] && empty == []
    else
      var front, last := opens[..|opens| - 1], opens[|opens| - 1];
      || (patched != [] && patched[|patched| - 1] == last && Interleaves(front, patched[..|patched| - 1], empty))
      || (empty != [] && empty[|empty| - 1] == last && Interleaves(front, patched, empty[..|empty| - 1]))
  }

  lemma InterleavesPatched(opens: seq<int>, patched: seq<int>, empty: seq<int>, t: int)
    requires Interleaves(opens, patched, empty)
    ensures Interleaves(opens + [t], patched + [t], empty)
  {
    assert (opens + [t])[..|opens|] == opens && (patched + [t])[..|patched|] == patched;
  }

  lemma InterleavesEmpty(opens: seq<int>, patched: seq<int>, empty: seq<int>, t: int)
    requires Interleaves(opens, patched, empty)
    ensures Interleaves(opens + [t], patched, empty + [t])
  {
    assert (opens + [t])[..|opens|] == opens && (empty + [t])[..|empty|] == empty;
  }

  lemma {:induction false} InterleavedMembers(opens: seq<int>, patched: seq<int>, empty: seq<int>)
    requires Interleaves(opens, patched, empty)
    ensures |opens| == |patched| + |empty|
    ensures forall t :: t in opens <==> t in patched || t in empty
  {
    if opens != [] {
      var front, last := opens[..|opens| - 1], opens[|opens| - 1];
      assert opens == front + [last];
      if patched != [] && patched[|patched| - 1] == last && Interleaves(front, patched[..|patched| - 1], empty) {
        InterleavedMembers(front, patched[..|patched| - 1], empty);
        assert patched == patched[..|patched| - 1] + [last];
      } else {
        InterleavedMembers(front, patched, empty[..|empty| - 1]);
        assert empty == empty[..|empty| - 1] + [last];
      }
    }
  }

  lemma RestAfterPatched(front: seq<int>, patched: seq<int>, empty: seq<int>, last: int)
    requires empty == Absent(front, AsSet(patched)) && last !in front
    ensures empty == Absent(front + [last], AsSet(patched + [last]))
  {
    AbsentDependsOnMembers(front, AsSet(patched), AsSet(patched + [last]));
    assert (front + [last])[..|front|] == front;
    assert last in patched + [last];
  }

  lemma RestAfterEmpty(front: seq<int>, patched: seq<int>, empty: seq<int>, last: int)
    requires empty == Absent(front, AsSet(patched)) && last !in patched
    ensures empty + [last] == Absent(front + [last], AsSet(patched))
  {
    assert (front + [last])[..|front|] == front;
  }

  lemma IncreasingSnoc(front: seq<int>, last: int)
    ensures Increasing(front + [last]) <==> Increasing(front) && forall t | t in front :: t < last
  {
    var s := front + [last];
    if Increasing(s) {
      forall i, j | 0 <= i < j < |front| ensures front[i] < front[j] {
        assert s[i] == front[i] && s[j] == front[j];
      }
      forall t | t in front ensures t < last {
        var i :| 0 <= i < |front| && front[i] == t;
        assert s[i] < s[|front|];
      }
    }
    if Increasing(front) && forall t | t in front :: t < last {
      if front != [] { assert front[|front| - 1] in front; }
      IncreasingAppends(front, [last]);
    }
  }

  lemma FrontOfIncreasing(s: seq<int>)
    requires Increasing(s) && s != []
    ensures Increasing(s[..|s| - 1]) && s[|s| - 1] !in s[..|s| - 1]
  {
  }

  /** The confirmed-empty opens are the probed opens without the patched ones. */
  lemma {:induction false} EmptyIsTheRest(opens: seq<int>, patched: seq<int>, empty: seq<int>)
    requires Interleaves(opens, patched, empty) && Increasing(opens)
    ensures empty == Absent(opens, AsSet(patched))
  {
    hide Absent, AsSet, Increasing;
    if opens == [] {
      NothingAbsent(AsSet(patched));
    } else {
      var front, last := opens[..|opens| - 1], opens[|opens| - 1];
      FrontOfIncreasing(opens);
      if patched != [] && patched[|patched| - 1] == last && Interleaves(front, patched[..|patched| - 1], empty) {
        var p := patched[..|patched| - 1];
        EmptyIsTheRest(front, p, empty);
        RestAfterPatched(front, p, empty, last);
        assert patched == p + [last];
      } else {
        var e := empty[..|empty| - 1];
        EmptyIsTheRest(front, patched, e);
        InterleavedMembers(front, patched, e);
        RestAfterEmpty(front, patched, e, last);
        assert empty == e + [last];
      }
      assert opens == front + [last];
    }
  }

  lemma NothingAbsent(present: set<int>)
    ensures Absent([], present) == []
  {
  }

  lemma {:induction false} PatchedIncrease(opens: seq<int>, patched: seq<int>, empty: seq<int>)
    requires Interleaves(opens, patched, empty) && Increasing(opens)
    ensures Increasing(patched)
  {
    if opens != [] {
      var front, last := opens[..|opens| - 1], opens[|opens| - 1];
      assert opens == front + [last];
      IncreasingSnoc(front, last);
      if patched != [] && patched[|patched| - 1] == last && Interleaves(front, patched[..|patched| - 1], empty) {
        var p := patched[..|patched| - 1];
        PatchedIncrease(front, p, empty);
        InterleavedMembers(front, p, empty);
        IncreasingSnoc(p, last);
        assert patched == p + [last];
      } else {
        PatchedIncrease(front, patched, empty[..|empty| - 1]);
      }
    }
  }

  lemma {:induction false} AbsentTwice(s: seq<int>, p: set<int>, q: set<int>)
    ensures Absent(Absent(s, p), q) == Absent(s, p + q)
  {
    if s != [] {
      var front, last := s[..|s| - 1], s[|s| - 1];
      AbsentTwice(front, p, q);
      AbsentAppends(Absent(front, p), if last in p then [] else [last], q);
      if last !in p {
        assert Absent([last], q) == Absent([], q) + (if last in q then [] else [last]);
      }
    }
  }

  lemma OpenWithinBounds(g: Grid, objects: seq<HistoryObject>, i: nat, t: int)
    requires ValidGrid(g) && ValidObjects(g, objects) && i < |objects| && t in OpensOf(g, objects[i].segments)
    ensures objects[0].firstOpenMs <= t <= objects[|objects| - 1].lastOpenMs
  {
    hide OpensOf;
    assert objects[i] in objects;
    ObjectOpensInBounds(g, objects[i], t);
    ObjectsInOrder(g, objects, i);
  }

  lemma OpensWithinBounds(g: Grid, c: Catalog, t: int)
    requires ValidGrid(g) && ValidObjects(g, c.objects) && OpenInObjects(g, c.objects, t)
    ensures c.objects != [] && EarliestOpen(c) <= t <= LatestOpen(c)
  {
    hide OpensOf, ValidObjects;
    var o :| o in c.objects && t in OpensOf(g, o.segments);
    var i :| 0 <= i < |c.objects| && c.objects[i] == o;
    OpenWithinBounds(g, c.objects, i, t);
  }

  lemma CatalogBoundsAreExtremes(g: Grid, c: Catalog)
    requires ValidGrid(g) && ValidCatalog(g, c)
    ensures EarliestOpen(c) in OpensOf(g, c.segments) && LatestOpen(c) in OpensOf(g, c.segments)
    ensures forall t | t in OpensOf(g, c.segments) :: EarliestOpen(c) <= t <= LatestOpen(c)
  {
    hide OpensOf, OpenInObjects, ContinuitySegments, ValidObjects, MergeAll;
    CatalogBoundsAligned(g, c);
    CatalogSegmentsIndexObjects(g, c);
    ContinuityAt(g, c.segments, |c.segments| - 1);
    SegmentIsCovered(g, c.segments, |c.segments| - 1, LatestOpen(c));
    forall t | t in OpensOf(g, c.segments) ensures EarliestOpen(c) <= t <= LatestOpen(c) {
      OpensWithinBounds(g, c, t);
    }
  }

  lemma ObjectsInOrder(g: Grid, objects: seq<HistoryObject>, i: nat)
    requires ValidGrid(g) && ValidObjects(g, objects) && i < |objects|
    ensures objects[0].firstOpenMs <= objects[i].firstOpenMs && objects[i].lastOpenMs <= objects[|objects| - 1].lastOpenMs
  {
    assert objects[0] in objects && objects[|objects| - 1] in objects;
  }

  /** The objects a run writes for its exact bars. */
  ghost predicate PatchObjects(g: Grid, patched: seq<int>, added: seq<HistoryObject>) {
    && |added| == |patched|
    && (forall i | 0 <= i < |added| :: Singleton(g, added[i]) && added[i].firstOpenMs == patched[i])
    && (forall i | 0 <= i < |added| :: added[i].key.RestKey? && added[i].key.openMs == patched[i])
  }

  lemma PatchObjectsFit(g: Grid, existing: seq<HistoryObject>, patched: seq<int>, added: seq<HistoryObject>)
    requires PatchObjects(g, patched, added) && Increasing(patched)
    requires forall o, t | o in existing && t in patched :: !Contains(o, t)
    requires forall o | o in existing && o.key.RestKey? :: Contains(o, o.key.openMs)
    ensures PatchFits(g, existing, added)
  {
    forall o | o in added ensures Singleton(g, o) && o.firstOpenMs in patched && o.key.RestKey? && o.key.openMs == o.firstOpenMs {
      var i :| 0 <= i < |added| && added[i] == o;
      assert patched[i] in patched;
    }
  }

  /** New opens are the old opens and the exact bars; bounds stay inside the probed window. */
  lemma PatchAddsExactBars(g: Grid, before: Catalog, after: Catalog, patched: seq<int>, added: seq<HistoryObject>)
    requires ValidGrid(g) && ValidCatalog(g, before) && ValidCatalog(g, after)
    requires PatchObjects(g, patched, added) && PatchFits(g, before.objects, added)
    requires after.objects == if added == [] then before.objects else Combined(before.objects, added)
    ensures OpensOf(g, after.segments) == OpensOf(g, before.segments) + AsSet(patched)
  {
    CatalogSegmentsIndexObjects(g, before);
    CatalogSegmentsIndexObjects(g, after);
    forall t ensures t in OpensOf(g, after.segments) <==> t in OpensOf(g, before.segments) || t in patched {
      if added != [] {
        PatchAddsExactlyItsOpens(g, before.objects, added, t);
        PatchedOpens(g, patched, added, t);
      }
    }
  }

  lemma PatchedOpens(g: Grid, patched: seq<int>, added: seq<HistoryObject>, t: int)
    requires PatchObjects(g, patched, added)
    ensures (exists o | o in added :: o.firstOpenMs == t) <==> t in patched
  {
    if t in patched {
      var i :| 0 <= i < |patched| && patched[i] == t;
      assert added[i] in added && added[i].firstOpenMs == t;
    }
    if exists o | o in added :: o.firstOpenMs == t {
      var o :| o in added && o.firstOpenMs == t;
      var i :| 0 <= i < |added| && added[i] == o;
      assert patched[i] == t;
    }
  }

  /**
   * The audit after publication: with every missing bucket of the window probed, exactly the
   * confirmed-empty ones are still missing, the catalog starts where it did, and it ends in the window.
   */
  lemma ExactlyEmptyRemains(g: Grid, before: Catalog, after: Catalog, end: int, patched: seq<int>, empty: seq<int>)
    requires ValidGrid(g) && ValidCatalog(g, before) && ValidCatalog(g, after)
    requires OpensOf(g, after.segments) == OpensOf(g, before.segments) + AsSet(patched)
    requires Interleaves(Missing(g, before, end), patched, empty)
    requires LatestOpen(before) <= end
    ensures EarliestOpen(after) == EarliestOpen(before)
    ensures LatestOpen(before) <= LatestOpen(after) <= end
    ensures Missing(g, after, end) == empty
    ensures |Missing(g, before, end)| == |patched| + |empty|
  {
    MissingIsGridPoints(g, before, end);
    var probed := Missing(g, before, end);
    InterleavedMembers(probed, patched, empty);
    EmptyIsTheRest(probed, patched, empty);
    CatalogBoundsAreExtremes(g, before);
    CatalogBoundsAreExtremes(g, after);
    assert EarliestOpen(after) in OpensOf(g, after.segments) && LatestOpen(after) in OpensOf(g, after.segments);
    AbsentTwice(Walk(g, EarliestOpen(before), end), OpensOf(g, before.segments), AsSet(patched));
  }
}
