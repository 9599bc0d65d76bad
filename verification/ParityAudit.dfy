/** The paged parity audit of an archive against a live table, and the whole-range comparison it equals. */
module ParityAudit {
  import opened Results
  import opened Sorting
  import opened ParityRows

  datatype Difference = OnlyLive | OnlyArchive | FieldsDiffer

  datatype Sample = Sample(openTimeMs: int, difference: Difference)

  datatype Tally = Tally(
    liveRows: nat, archiveRows: nat, commonRows: nat, onlyLive: nat, onlyArchive: nat, fields: FieldTally, samples: seq<Sample>)

  // ----- the whole-range comparison

  /** The times of either table in a closed window. */
  function TimesIn(live: Table, archive: Table, lo: int, hi: int): set<int> {
    set t | t in live.Keys + archive.Keys && lo <= t <= hi
  }

  ghost predicate SetCounts(live: Table, archive: Table, times: set<int>, tally: Tally) {
    var l, a := live.Keys * times, archive.Keys * times;
    && tally.liveRows == |l| && tally.archiveRows == |a| && tally.commonRows == |l * a|
    && tally.onlyLive == |l - a| && tally.onlyArchive == |a - l|
  }

  function TotalDifferences(tally: Tally): nat {
    tally.onlyLive + tally.onlyArchive + tally.fields.differenceRows
  }

  ghost predicate Genuine(live: Table, archive: Table, sample: Sample)
    requires ShapedTable(live) && ShapedTable(archive)
  {
    match sample.difference
    case OnlyLive => sample.openTimeMs in live && sample.openTimeMs !in archive
    case OnlyArchive => sample.openTimeMs in archive && sample.openTimeMs !in live
    case FieldsDiffer =>
      sample.openTimeMs in live && sample.openTimeMs in archive && RowDiffers(live[sample.openTimeMs], archive[sample.openTimeMs])
  }

  /** Genuine differences among the given times, no time twice. */
  ghost predicate SamplesOf(live: Table, archive: Table, times: set<int>, samples: seq<Sample>)
    requires ShapedTable(live) && ShapedTable(archive)
  {
    && (forall s | s in samples :: s.openTimeMs in times && Genuine(live, archive, s))
    && (forall i, j | 0 <= i < j < |samples| :: samples[i].openTimeMs != samples[j].openTimeMs)
  }

  /** One map comparison over a set of times; it knows nothing of pages. */
  ghost predicate Compared(live: Table, archive: Table, times: set<int>, maxSamples: int, tally: Tally)
    requires ShapedTable(live) && ShapedTable(archive)
  {
    && SetCounts(live, archive, times, tally)
    && FieldCounts(live, archive, times, tally.fields)
    && SamplesOf(live, archive, times, tally.samples)
    && |tally.samples| == MinInt(maxSamples, TotalDifferences(tally))
  }

  ghost predicate AllReadable(live: Table, archive: Table, times: set<int>)
    requires ShapedTable(live) && ShapedTable(archive)
  {
    forall t | t in times && t in live && t in archive :: Readable(live[t], archive[t])
  }

  /** Times new to the audit that only the first table has. */
  ghost predicate OneSided(table: Table, other: Table, done: set<int>, times: set<int>) {
    forall t | t in times :: t in table && t !in other && t !in done
  }

  /** Times new to the audit that both tables have. */
  ghost predicate TwoSided(live: Table, archive: Table, done: set<int>, times: set<int>) {
    forall t | t in times :: t in live && t in archive && t !in done
  }

  ghost predicate NeverBoth(live: Table, archive: Table, times: set<int>) {
    forall t | t in times :: t !in live || t !in archive
  }

  // ----- one page

  lemma CardinalityAdds(k: set<int>, a: set<int>, b: set<int>)
    requires a !! b
    ensures |k * (a + b)| == |k * a| + |k * b|
  {
    assert k * (a + b) == k * a + k * b;
  }

  /** Appends samples while there is room. */
  method AppendSamples(live: Table, archive: Table, ghost times: set<int>, samples: seq<Sample>, found: seq<int>, difference: Difference, maxSamples: int)
    returns (r: seq<Sample>)
    requires ShapedTable(live) && ShapedTable(archive) && |samples| <= maxSamples
    requires SamplesOf(live, archive, times, samples)
    requires forall t | t in found :: t !in times && Genuine(live, archive, Sample(t, difference))
    requires Distinct(found)
    ensures |r| == MinInt(maxSamples, |samples| + |found|)
    ensures SamplesOf(live, archive, times + AsSet(found), r)
  {
    r := samples;
    for i := 0 to |found|
      invariant |r| == MinInt(maxSamples, |samples| + i)
      invariant SamplesOf(live, archive, times + AsSet(found[..i]), r)
    {
      var t := found[i];
      assert t in found && t !in found[..i];
      AsSetSnoc(found, i);
      if |r| < maxSamples {
        r := r + [Sample(t, difference)];
      }
    }
    assert found[..|found|] == found;
  }

  lemma SamplesWiden(live: Table, archive: Table, a: set<int>, b: set<int>, samples: seq<Sample>)
    requires ShapedTable(live) && ShapedTable(archive) && SamplesOf(live, archive, a, samples) && a <= b
    ensures SamplesOf(live, archive, b, samples)
  {
  }

  /** Compares the common rows of one page, in order; stops at a value that is not numeric. */
  method CompareCommon(live: Table, archive: Table, ghost times: set<int>, common: seq<int>, fields: FieldTally, samples: seq<Sample>, maxSamples: int)
    returns (r: Option<(FieldTally, seq<Sample>)>)
    requires ShapedTable(live) && ShapedTable(archive) && |samples| <= maxSamples && Distinct(common)
    requires forall t | t in common :: t in live && t in archive && t !in times
    requires FieldCounts(live, archive, times, fields) && SamplesOf(live, archive, times, samples)
    ensures r.Some? <==> forall t | t in common :: Readable(live[t], archive[t])
    ensures r.Some? ==>
              && FieldCounts(live, archive, times + AsSet(common), r.value.0)
              && SamplesOf(live, archive, times + AsSet(common), r.value.1)
              && r.value.0.differenceRows >= fields.differenceRows
              && |r.value.1| == MinInt(maxSamples, |samples| + r.value.0.differenceRows - fields.differenceRows)
  {
    hide FieldCounts, SamplesOf, Readable, CellCompared, Differs, Gap, RowDiffers;
    var tally, found := fields, samples;
    assert times + AsSet(common[..0]) == times;
    for i := 0 to |common|
      invariant FieldCounts(live, archive, times + AsSet(common[..i]), tally)
      invariant SamplesOf(live, archive, times + AsSet(common[..i]), found)
      invariant forall t | t in common[..i] :: Readable(live[t], archive[t])
      invariant tally.differenceRows >= fields.differenceRows
      invariant |found| == MinInt(maxSamples, |samples| + tally.differenceRows - fields.differenceRows)
    {
      var t := common[i];
      assert t in common && t !in common[..i];
      assert common[..i + 1] == common[..i] + [t];
      ghost var done := times + AsSet(common[..i]);
      AsSetSnoc(common, i);
      assert times + AsSet(common[..i + 1]) == done + {t};
      ShapedFields(live, archive, done, tally);
      var compared := CompareRow(live[t], archive[t], tally);
      if compared.None? {
        return None;
      }
      CountsGrow(live, archive, done, t, tally, compared.value);
      if compared.value.differenceRows > tally.differenceRows && |found| < maxSamples {
        SampleAdds(live, archive, done, found, Sample(t, FieldsDiffer));
        found := found + [Sample(t, FieldsDiffer)];
      } else {
        SamplesWiden(live, archive, done, done + {t}, found);
      }
      tally := compared.value;
    }
    assert common[..|common|] == common;
    return Some((tally, found));
  }

  lemma ShapedFields(live: Table, archive: Table, times: set<int>, tally: FieldTally)
    requires ShapedTable(live) && ShapedTable(archive) && FieldCounts(live, archive, times, tally)
    ensures |tally.mismatches| == FIELDS && |tally.maxAbsDifference| == VALUE_FIELDS
  {
  }

  lemma SampleAdds(live: Table, archive: Table, times: set<int>, samples: seq<Sample>, sample: Sample)
    requires ShapedTable(live) && ShapedTable(archive) && SamplesOf(live, archive, times, samples)
    requires sample.openTimeMs !in times && Genuine(live, archive, sample)
    ensures SamplesOf(live, archive, times + {sample.openTimeMs}, samples + [sample])
  {
  }

  // ----- pages

  function KeysIn(table: Table, lo: int, hi: int): set<int> {
    set t | t in table && lo <= t <= hi
  }

  lemma PagePartition(live: Table, archive: Table, lo: int, hi: int)
    ensures var l, a := KeysIn(live, lo, hi), KeysIn(archive, lo, hi);
            TimesIn(live, archive, lo, hi) == (l - a) + (a - l) + (l * a)
  {
  }

  lemma KeysOfPage(live: Table, archive: Table, lo: int, hi: int)
    ensures live.Keys * TimesIn(live, archive, lo, hi) == KeysIn(live, lo, hi)
    ensures archive.Keys * TimesIn(live, archive, lo, hi) == KeysIn(archive, lo, hi)
  {
  }

  lemma SetCountsGrow(live: Table, archive: Table, done: set<int>, lo: int, hi: int, before: Tally, after: Tally)
    requires SetCounts(live, archive, done, before) && done !! TimesIn(live, archive, lo, hi)
    requires var l, a := KeysIn(live, lo, hi), KeysIn(archive, lo, hi);
             && after.liveRows == before.liveRows + |l| && after.archiveRows == before.archiveRows + |a|
             && after.commonRows == before.commonRows + |l * a|
             && after.onlyLive == before.onlyLive + |l - a| && after.onlyArchive == before.onlyArchive + |a - l|
    ensures SetCounts(live, archive, done + TimesIn(live, archive, lo, hi), after)
  {
    var page := TimesIn(live, archive, lo, hi);
    KeysOfPage(live, archive, lo, hi);
    CountsOfUnion(live.Keys, archive.Keys, done, page);
  }

  lemma CountsOfUnion(lk: set<int>, ak: set<int>, done: set<int>, page: set<int>)
    requires done !! page
    ensures |lk * (done + page)| == |lk * done| + |lk * page|
    ensures |ak * (done + page)| == |ak * done| + |ak * page|
    ensures |(lk * (done + page)) * (ak * (done + page))| == |(lk * done) * (ak * done)| + |(lk * page) * (ak * page)|
    ensures |(lk * (done + page)) - (ak * (done + page))| == |(lk * done) - (ak * done)| + |(lk * page) - (ak * page)|
    ensures |(ak * (done + page)) - (lk * (done + page))| == |(ak * done) - (lk * done)| + |(ak * page) - (lk * page)|
  {
    CardinalityAdds(lk, done, page);
    CardinalityAdds(ak, done, page);
    Distributes(lk, done, page);
    Distributes(ak, done, page);
    Unions(lk * done, ak * done, lk * page, ak * page);
  }

  lemma Distributes(k: set<int>, a: set<int>, b: set<int>)
    ensures k * (a + b) == k * a + k * b
  {
  }

  lemma Unions(ld: set<int>, ad: set<int>, l: set<int>, a: set<int>)
    requires ld + ad !! l + a
    ensures |(ld + l) * (ad + a)| == |ld * ad| + |l * a|
    ensures |(ld + l) - (ad + a)| == |ld - ad| + |l - a|
    ensures |(ad + a) - (ld + l)| == |ad - ld| + |a - l|
  {
    assert (ld + l) * (ad + a) == ld * ad + l * a;
    assert (ld + l) - (ad + a) == (ld - ad) + (l - a);
    assert (ad + a) - (ld + l) == (ad - ld) + (a - l);
  }

  lemma SortedDistinct(s: set<int>)
    ensures Distinct(SortedSet(s)) && AsSet(SortedSet(s)) == s
  {
    SortedSetListsSet(s);
  }

  /** The archive query of one page, with the row limit the script passes. */
  function ArchivePage(archive: Table, lo: int, hi: int, limit: int): set<int> {
    AsSet(Prefix(SortedSet(KeysIn(archive, lo, hi)), limit))
  }

  lemma UnionIsAssociative(a: set<int>, b: set<int>, c: set<int>)
    ensures a + b + c == a + (b + c)
  {
  }

  /** Samples of rows that only one side has. */
  method SampleUnmatched(live: Table, archive: Table, ghost done: set<int>, onlyLive: set<int>, onlyArchive: set<int>, samples: seq<Sample>, maxSamples: int)
    returns (r: seq<Sample>)
    requires ShapedTable(live) && ShapedTable(archive) && |samples| <= maxSamples && SamplesOf(live, archive, done, samples)
    requires OneSided(live, archive, done, onlyLive) && OneSided(archive, live, done, onlyArchive)
    ensures SamplesOf(live, archive, done + (onlyLive + onlyArchive), r)
    ensures |r| == MinInt(maxSamples, |samples| + |onlyLive| + |onlyArchive|)
  {
    hide SamplesOf, OneSided, Genuine;
    SortedDistinct(onlyLive);
    SortedDistinct(onlyArchive);
    OnlyLiveSamples(live, archive, done, onlyLive);
    OnlyArchiveSamples(live, archive, done, onlyLive, onlyArchive);
    r := AppendSamples(live, archive, done, samples, SortedSet(onlyLive), OnlyLive, maxSamples);
    r := AppendSamples(live, archive, done + onlyLive, r, SortedSet(onlyArchive), OnlyArchive, maxSamples);
    UnionIsAssociative(done, onlyLive, onlyArchive);
  }

  lemma OnlyLiveSamples(live: Table, archive: Table, done: set<int>, times: set<int>)
    requires ShapedTable(live) && ShapedTable(archive) && OneSided(live, archive, done, times)
    ensures forall t | t in SortedSet(times) :: t !in done && Genuine(live, archive, Sample(t, OnlyLive))
  {
    SortedDistinct(times);
    ListedMembers(SortedSet(times), times);
  }

  lemma OnlyArchiveSamples(live: Table, archive: Table, done: set<int>, before: set<int>, times: set<int>)
    requires ShapedTable(live) && ShapedTable(archive)
    requires OneSided(live, archive, done, before) && OneSided(archive, live, done, times)
    ensures forall t | t in SortedSet(times) :: t !in done + before && Genuine(live, archive, Sample(t, OnlyArchive))
  {
    SortedDistinct(times);
    ListedMembers(SortedSet(times), times);
  }

  lemma UnmatchedNotCommon(live: Table, archive: Table, done: set<int>, unmatched: set<int>)
    requires NeverBoth(live, archive, unmatched)
    ensures CommonIn(live, archive, done) == CommonIn(live, archive, done + unmatched)
  {
    forall t ensures t in CommonIn(live, archive, done) <==> t in CommonIn(live, archive, done + unmatched) {}
  }

  /** The common rows of one page, after its unmatched rows. */
  method CompareShared(live: Table, archive: Table, ghost done: set<int>, ghost unmatched: set<int>, shared: set<int>,
                       fields: FieldTally, samples: seq<Sample>, maxSamples: int)
    returns (r: Option<(FieldTally, seq<Sample>)>)
    requires ShapedTable(live) && ShapedTable(archive) && |samples| <= maxSamples
    requires FieldCounts(live, archive, done, fields) && SamplesOf(live, archive, done + unmatched, samples)
    requires NeverBoth(live, archive, unmatched) && TwoSided(live, archive, done, shared)
    ensures r.Some? <==> AllReadable(live, archive, shared)
    ensures r.Some? ==>
              && FieldCounts(live, archive, done + unmatched + shared, r.value.0)
              && SamplesOf(live, archive, done + unmatched + shared, r.value.1)
              && r.value.0.differenceRows >= fields.differenceRows
              && |r.value.1| == MinInt(maxSamples, |samples| + r.value.0.differenceRows - fields.differenceRows)
  {
    hide FieldCounts, SamplesOf, Readable;
    UnmatchedNotCommon(live, archive, done, unmatched);
    CountsDependOnCommon(live, archive, done, done + unmatched, fields);
    SortedDistinct(shared);
    ListedMembers(SortedSet(shared), shared);
    r := CompareCommon(live, archive, done + unmatched, SortedSet(shared), fields, samples, maxSamples);
  }

  /** The three parts of a page: what only one side has, and what both have; none of it was compared before. */
  lemma PageSides(live: Table, archive: Table, done: set<int>, lo: int, hi: int)
    requires done !! TimesIn(live, archive, lo, hi)
    ensures var l, a := KeysIn(live, lo, hi), KeysIn(archive, lo, hi);
            && OneSided(live, archive, done, l - a) && OneSided(archive, live, done, a - l)
            && TwoSided(live, archive, done, l * a) && NeverBoth(live, archive, (l - a) + (a - l))
  {
    forall t | t in KeysIn(live, lo, hi) + KeysIn(archive, lo, hi) ensures t !in done {
      assert t in TimesIn(live, archive, lo, hi);
    }
  }

  /** The row limit of the archive query never cuts a page that fits. */
  lemma PageIsWhole(archive: Table, lo: int, hi: int, limit: int)
    requires |KeysIn(archive, lo, hi)| <= limit
    ensures ArchivePage(archive, lo, hi, limit) == KeysIn(archive, lo, hi)
  {
    SortedDistinct(KeysIn(archive, lo, hi));
  }

  lemma DoneAfterPage(live: Table, archive: Table, done: set<int>, lo: int, hi: int)
    ensures var l, a := KeysIn(live, lo, hi), KeysIn(archive, lo, hi);
            done + ((l - a) + (a - l)) + l * a == done + TimesIn(live, archive, lo, hi)
  {
    PagePartition(live, archive, lo, hi);
  }

  lemma ComparedParts(live: Table, archive: Table, times: set<int>, maxSamples: int, tally: Tally)
    requires ShapedTable(live) && ShapedTable(archive) && Compared(live, archive, times, maxSamples, tally)
    ensures SetCounts(live, archive, times, tally) && FieldCounts(live, archive, times, tally.fields)
    ensures SamplesOf(live, archive, times, tally.samples) && |tally.samples| == MinInt(maxSamples, TotalDifferences(tally))
  {
  }

  lemma ComparedWhole(live: Table, archive: Table, times: set<int>, maxSamples: int, tally: Tally)
    requires ShapedTable(live) && ShapedTable(archive)
    requires SetCounts(live, archive, times, tally) && FieldCounts(live, archive, times, tally.fields)
    requires SamplesOf(live, archive, times, tally.samples) && |tally.samples| == MinInt(maxSamples, TotalDifferences(tally))
    ensures Compared(live, archive, times, maxSamples, tally)
  {
  }

  /** Reads one page of each side and counts rows. */
  method CountPage(live: Table, archive: Table, ghost done: set<int>, lo: int, hi: int, pageRows: int, tally: Tally)
    returns (onlyLive: set<int>, onlyArchive: set<int>, shared: set<int>, counted: Tally)
    requires SetCounts(live, archive, done, tally) && done !! TimesIn(live, archive, lo, hi)
    requires |KeysIn(archive, lo, hi)| <= pageRows + 1
    ensures OneSided(live, archive, done, onlyLive) && OneSided(archive, live, done, onlyArchive)
    ensures TwoSided(live, archive, done, shared) && NeverBoth(live, archive, onlyLive + onlyArchive)
    ensures done + (onlyLive + onlyArchive) + shared == done + TimesIn(live, archive, lo, hi)
    ensures shared == KeysIn(live, lo, hi) * KeysIn(archive, lo, hi)
    ensures SetCounts(live, archive, done + TimesIn(live, archive, lo, hi), counted)
    ensures counted.fields == tally.fields && counted.samples == tally.samples
    ensures counted.onlyLive == tally.onlyLive + |onlyLive| && counted.onlyArchive == tally.onlyArchive + |onlyArchive|
  {
    hide SetCounts, TimesIn, ArchivePage, KeysIn, OneSided, TwoSided, NeverBoth;
    var liveTimes := KeysIn(live, lo, hi);
    PageIsWhole(archive, lo, hi, pageRows + 1);
    var archiveTimes := ArchivePage(archive, lo, hi, pageRows + 1);
    onlyLive, onlyArchive, shared := liveTimes - archiveTimes, archiveTimes - liveTimes, liveTimes * archiveTimes;
    counted := tally.(liveRows := tally.liveRows + |liveTimes|, archiveRows := tally.archiveRows + |archiveTimes|,
                      commonRows := tally.commonRows + |shared|,
                      onlyLive := tally.onlyLive + |onlyLive|, onlyArchive := tally.onlyArchive + |onlyArchive|);
    PageSides(live, archive, done, lo, hi);
    DoneAfterPage(live, archive, done, lo, hi);
    SetCountsGrow(live, archive, done, lo, hi, tally, counted);
  }

  lemma CountsIgnoreTheRest(live: Table, archive: Table, times: set<int>, a: Tally, b: Tally)
    requires SetCounts(live, archive, times, a) && b.(fields := a.fields, samples := a.samples) == a
    ensures SetCounts(live, archive, times, b)
  {
  }

  /** One page folded into the counters. */
  method AuditPage(live: Table, archive: Table, ghost done: set<int>, lo: int, hi: int, pageRows: int, maxSamples: int, tally: Tally)
    returns (r: Option<Tally>)
    requires ShapedTable(live) && ShapedTable(archive) && 0 <= maxSamples
    requires Compared(live, archive, done, maxSamples, tally) && done !! TimesIn(live, archive, lo, hi)
    requires |KeysIn(archive, lo, hi)| <= pageRows + 1
    ensures r.Some? <==> AllReadable(live, archive, TimesIn(live, archive, lo, hi))
    ensures r.Some? ==> Compared(live, archive, done + TimesIn(live, archive, lo, hi), maxSamples, r.value)
  {
    hide FieldCounts, SamplesOf, SetCounts, Readable, TimesIn, AllReadable, ShapedTable, KeysIn, Compared,
         OneSided, TwoSided, NeverBoth;
    ComparedParts(live, archive, done, maxSamples, tally);
    var onlyLive, onlyArchive, shared, counted := CountPage(live, archive, done, lo, hi, pageRows, tally);
    var samples := SampleUnmatched(live, archive, done, onlyLive, onlyArchive, tally.samples, maxSamples);
    var compared := CompareShared(live, archive, done, onlyLive + onlyArchive, shared, tally.fields, samples, maxSamples);
    SharedReadable(live, archive, lo, hi);
    if compared.None? {
      return None;
    }
    var after := counted.(fields := compared.value.0, samples := compared.value.1);
    ghost var page := done + TimesIn(live, archive, lo, hi);
    CountsIgnoreTheRest(live, archive, page, counted, after);
    SampleRoom(maxSamples, tally, after, |samples|);
    ComparedWhole(live, archive, page, maxSamples, after);
    return Some(after);
  }

  /** Filling the samples in two steps fills them as one step would. */
  lemma SampleRoom(maxSamples: int, before: Tally, after: Tally, between: int)
    requires |before.samples| == MinInt(maxSamples, TotalDifferences(before))
    requires after.onlyLive >= before.onlyLive && after.onlyArchive >= before.onlyArchive
    requires between == MinInt(maxSamples, |before.samples| + (after.onlyLive - before.onlyLive) + (after.onlyArchive - before.onlyArchive))
    requires after.fields.differenceRows >= before.fields.differenceRows
    requires |after.samples| == MinInt(maxSamples, between + after.fields.differenceRows - before.fields.differenceRows)
    ensures |after.samples| == MinInt(maxSamples, TotalDifferences(after))
  {
  }

  lemma SharedReadable(live: Table, archive: Table, lo: int, hi: int)
    requires ShapedTable(live) && ShapedTable(archive)
    ensures AllReadable(live, archive, KeysIn(live, lo, hi) * KeysIn(archive, lo, hi))
       <==> AllReadable(live, archive, TimesIn(live, archive, lo, hi))
  {
    hide Readable;
    forall t ensures t in KeysIn(live, lo, hi) * KeysIn(archive, lo, hi)
      <==> t in TimesIn(live, archive, lo, hi) && t in live && t in archive {}
  }

  lemma ListedMembers(s: seq<int>, members: set<int>)
    requires AsSet(s) == members
    ensures forall t :: t in s <==> t in members
  {
    forall t ensures t in s <==> t in members {
      assert t in s <==> t in AsSet(s);
    }
  }
}
