/** Row comparison of the parity audit, and the counters it keeps over a set of compared times. */
module ParityRows {
  import opened Results

  /** A nullable decimal column; `Bad` does not parse as a finite number. */
  datatype Cell = Null | Num(value: real) | Bad

  datatype Row = Row(ints: seq<Option<int>>, cells: seq<Cell>)

  const INTEGER_FIELDS: nat := 2
  const VALUE_FIELDS: nat := 8
  const FIELDS: nat := INTEGER_FIELDS + VALUE_FIELDS

  type Table = map<int, Row>

  predicate Shaped(row: Row) { |row.ints| == INTEGER_FIELDS && |row.cells| == VALUE_FIELDS }

  ghost predicate ShapedTable(table: Table) { forall t | t in table :: Shaped(table[t]) }

  /** Whether two rows differ in compared field `f`. */
  predicate Differs(a: Row, b: Row, f: nat)
    requires Shaped(a) && Shaped(b) && f < FIELDS
  {
    if f < INTEGER_FIELDS then a.ints[f] != b.ints[f] else a.cells[f - INTEGER_FIELDS] != b.cells[f - INTEGER_FIELDS]
  }

  ghost predicate RowDiffers(a: Row, b: Row)
    requires Shaped(a) && Shaped(b)
  {
    exists f: nat | f < FIELDS :: Differs(a, b, f)
  }

  ghost predicate Readable(a: Row, b: Row)
    requires Shaped(a) && Shaped(b)
  {
    forall v: nat | v < VALUE_FIELDS :: !a.cells[v].Bad? && !b.cells[v].Bad?
  }

  function Abs(x: real): real { if x >= 0.0 then x else -x }

  /** The measured difference of two numeric values that differ. */
  function Gap(a: Row, b: Row, v: nat): Option<real>
    requires Shaped(a) && Shaped(b) && v < VALUE_FIELDS
  {
    var left, right := a.cells[v], b.cells[v];
    if left.Num? && right.Num? && left != right then Some(Abs(left.value - right.value)) else None
  }

  /** Counters that depend on the common rows compared so far. */
  datatype FieldTally = FieldTally(differenceRows: nat, mismatches: seq<nat>, maxAbsDifference: seq<real>)

  lemma DifferencesFound(a: Row, b: Row, differences: set<nat>)
    requires Shaped(a) && Shaped(b) && differences == set k: nat | k < FIELDS && Differs(a, b, k)
    ensures RowDiffers(a, b) <==> differences != {}
  {
    if differences != {} {
      var k :| k in differences;
    }
    if RowDiffers(a, b) {
      var f: nat :| f < FIELDS && Differs(a, b, f);
      assert f in differences;
    }
  }

  lemma SameRowsDoNotDiffer(a: Row, b: Row)
    requires Shaped(a) && Shaped(b)
    ensures RowDiffers(a, b) <==> a != b
  {
    if !RowDiffers(a, b) {
      forall i: nat | i < INTEGER_FIELDS ensures a.ints[i] == b.ints[i] {
        assert !Differs(a, b, i);
      }
      forall v: nat | v < VALUE_FIELDS ensures a.cells[v] == b.cells[v] {
        assert !Differs(a, b, INTEGER_FIELDS + v);
      }
      assert a.ints == b.ints && a.cells == b.cells;
    }
  }

  /** One pair of cells counted: different cells are a mismatch, and the maximum covers the difference of two numbers either way round. */
  ghost predicate CellCompared(left: Cell, right: Cell, mismatches: nat, counted: nat, maximum: real, raised: real) {
    && counted == (if left == right then mismatches else mismatches + 1)
    && (left.Num? && right.Num? && left != right ==>
          && maximum <= raised && left.value - right.value <= raised && right.value - left.value <= raised
          && (raised == maximum || raised == left.value - right.value || raised == right.value - left.value))
    && (!(left.Num? && right.Num?) || left == right ==> raised == maximum)
  }

  /** One common row folded into the counters; `None` when a value is not numeric. */
  method CompareRow(a: Row, b: Row, tally: FieldTally) returns (r: Option<FieldTally>)
    requires Shaped(a) && Shaped(b) && |tally.mismatches| == FIELDS && |tally.maxAbsDifference| == VALUE_FIELDS
    ensures r.Some? <==> Readable(a, b)
    ensures r.Some? ==>
              && |r.value.mismatches| == FIELDS && |r.value.maxAbsDifference| == VALUE_FIELDS
              && r.value.differenceRows == tally.differenceRows + (if RowDiffers(a, b) then 1 else 0)
              && (forall f: nat | f < FIELDS :: r.value.mismatches[f] == tally.mismatches[f] + (if Differs(a, b, f) then 1 else 0))
              && (forall v: nat | v < VALUE_FIELDS ::
                    r.value.maxAbsDifference[v] ==
                      if Gap(a, b, v).Some? then MaxReal(tally.maxAbsDifference[v], Gap(a, b, v).value) else tally.maxAbsDifference[v])
    ensures r.Some? ==>
              && (r.value.differenceRows == if a == b then tally.differenceRows else tally.differenceRows + 1)
              && (forall i: nat | i < INTEGER_FIELDS ::
                    r.value.mismatches[i] == if a.ints[i] == b.ints[i] then tally.mismatches[i] else tally.mismatches[i] + 1)
              && (forall v: nat | v < VALUE_FIELDS :: CellCompared(a.cells[v], b.cells[v],
                    tally.mismatches[INTEGER_FIELDS + v], r.value.mismatches[INTEGER_FIELDS + v],
                    tally.maxAbsDifference[v], r.value.maxAbsDifference[v]))
  {
    hide RowDiffers;
    var mismatches, maxima := tally.mismatches, tally.maxAbsDifference;
    var differences: set<nat> := {};
    for f := 0 to INTEGER_FIELDS
      invariant |mismatches| == FIELDS
      invariant forall k: nat | k < FIELDS :: mismatches[k] == tally.mismatches[k] + (if k < f && Differs(a, b, k) then 1 else 0)
      invariant differences == set k: nat | k < f && Differs(a, b, k)
    {
      if a.ints[f] != b.ints[f] {
        mismatches := mismatches[f := mismatches[f] + 1];
        differences := differences + {f};
      }
    }
    for v := 0 to VALUE_FIELDS
      invariant |mismatches| == FIELDS && |maxima| == VALUE_FIELDS
      invariant forall k: nat | k < FIELDS ::
                  mismatches[k] == tally.mismatches[k] + (if k < INTEGER_FIELDS + v && Differs(a, b, k) then 1 else 0)
      invariant differences == set k: nat | k < INTEGER_FIELDS + v && Differs(a, b, k)
      invariant forall k: nat | k < v :: !a.cells[k].Bad? && !b.cells[k].Bad?
      invariant forall k: nat | k < VALUE_FIELDS ::
                  maxima[k] == if k < v && Gap(a, b, k).Some? then MaxReal(tally.maxAbsDifference[k], Gap(a, b, k).value)
                               else tally.maxAbsDifference[k]
    {
      var left, right := a.cells[v], b.cells[v];
      if left.Bad? || right.Bad? {
        return None;
      }
      if left != right {
        mismatches := mismatches[INTEGER_FIELDS + v := mismatches[INTEGER_FIELDS + v] + 1];
        differences := differences + {INTEGER_FIELDS + v};
        if left.Num? && right.Num? {
          maxima := maxima[v := MaxReal(maxima[v], Abs(left.value - right.value))];
        }
      }
    }
    DifferencesFound(a, b, differences);
    SameRowsDoNotDiffer(a, b);
    return Some(FieldTally(tally.differenceRows + (if differences != {} then 1 else 0), mismatches, maxima));
  }

  // ----- what the counters mean over a set of times

  ghost function CommonIn(live: Table, archive: Table, times: set<int>): set<int> {
    set t | t in times && t in live && t in archive
  }

  ghost function DifferingIn(live: Table, archive: Table, times: set<int>): set<int>
    requires ShapedTable(live) && ShapedTable(archive)
  {
    set t | t in times && t in live && t in archive && RowDiffers(live[t], archive[t])
  }

  ghost function FieldDifferingIn(live: Table, archive: Table, times: set<int>, f: nat): set<int>
    requires ShapedTable(live) && ShapedTable(archive) && f < FIELDS
  {
    set t | t in times && t in live && t in archive && Differs(live[t], archive[t], f)
  }

  /** `m` is the largest measured difference of field `v`, or zero when there is none. */
  ghost predicate IsMaximum(live: Table, archive: Table, times: set<int>, v: nat, m: real)
    requires ShapedTable(live) && ShapedTable(archive) && v < VALUE_FIELDS
  {
    && 0.0 <= m
    && (forall t | t in CommonIn(live, archive, times) && Gap(live[t], archive[t], v).Some? :: Gap(live[t], archive[t], v).value <= m)
    && (m == 0.0 || exists t | t in CommonIn(live, archive, times) :: Gap(live[t], archive[t], v) == Some(m))
  }

  ghost predicate FieldCounts(live: Table, archive: Table, times: set<int>, tally: FieldTally)
    requires ShapedTable(live) && ShapedTable(archive)
  {
    && |tally.mismatches| == FIELDS && |tally.maxAbsDifference| == VALUE_FIELDS
    && tally.differenceRows == |DifferingIn(live, archive, times)|
    && (forall f: nat | f < FIELDS :: tally.mismatches[f] == |FieldDifferingIn(live, archive, times, f)|)
    && (forall v: nat | v < VALUE_FIELDS :: IsMaximum(live, archive, times, v, tally.maxAbsDifference[v]))
  }

  // ----- the counters in the rows' own fields

  ghost function IntsDiffer(live: Table, archive: Table, times: set<int>, i: nat): set<int>
    requires ShapedTable(live) && ShapedTable(archive) && i < INTEGER_FIELDS
  {
    set t | t in times && t in live && t in archive && live[t].ints[i] != archive[t].ints[i]
  }

  ghost function CellsDiffer(live: Table, archive: Table, times: set<int>, v: nat): set<int>
    requires ShapedTable(live) && ShapedTable(archive) && v < VALUE_FIELDS
  {
    set t | t in times && t in live && t in archive && live[t].cells[v] != archive[t].cells[v]
  }

  /** Both tables hold a number in field `v` of time `t`, and the first is larger by `d`. */
  ghost predicate LargerBy(live: Table, archive: Table, t: int, v: nat, d: real)
    requires ShapedTable(live) && ShapedTable(archive) && v < VALUE_FIELDS && t in live && t in archive
  {
    live[t].cells[v].Num? && archive[t].cells[v].Num? && live[t].cells[v].value - archive[t].cells[v].value == d
  }

  /** `m` bounds every difference of two numbers in field `v`, and is one of them unless it is zero. */
  ghost predicate BoundsDifferences(live: Table, archive: Table, times: set<int>, v: nat, m: real)
    requires ShapedTable(live) && ShapedTable(archive) && v < VALUE_FIELDS
  {
    && (forall t, d | t in times && t in live && t in archive && LargerBy(live, archive, t, v, d) :: -m <= d <= m)
    && (m == 0.0 || exists t | t in times && t in live && t in archive ::
          LargerBy(live, archive, t, v, m) || LargerBy(live, archive, t, v, -m))
  }

  /** What the counters say of the compared times. */
  ghost predicate FieldsSay(live: Table, archive: Table, times: set<int>, tally: FieldTally)
    requires ShapedTable(live) && ShapedTable(archive)
  {
    && |tally.mismatches| == 10 && |tally.maxAbsDifference| == 8
    && tally.differenceRows == |set t | t in times && t in live && t in archive && live[t] != archive[t]|
    && (forall i: nat | i < 2 :: tally.mismatches[i] == |IntsDiffer(live, archive, times, i)|)
    && (forall v: nat | v < 8 :: tally.mismatches[2 + v] == |CellsDiffer(live, archive, times, v)|)
    && (forall v: nat | v < 8 :: BoundsDifferences(live, archive, times, v, tally.maxAbsDifference[v]))
  }

  lemma MaximumBounds(live: Table, archive: Table, times: set<int>, v: nat, m: real)
    requires ShapedTable(live) && ShapedTable(archive) && v < VALUE_FIELDS && IsMaximum(live, archive, times, v, m)
    ensures BoundsDifferences(live, archive, times, v, m)
  {
    forall t, d | t in times && t in live && t in archive && LargerBy(live, archive, t, v, d) ensures -m <= d <= m {
      assert t in CommonIn(live, archive, times);
    }
    if m != 0.0 {
      var t :| t in CommonIn(live, archive, times) && Gap(live[t], archive[t], v) == Some(m);
      assert LargerBy(live, archive, t, v, m) || LargerBy(live, archive, t, v, -m);
    }
  }

  lemma IntsCounted(live: Table, archive: Table, times: set<int>, i: nat)
    requires ShapedTable(live) && ShapedTable(archive) && i < INTEGER_FIELDS
    ensures FieldDifferingIn(live, archive, times, i) == IntsDiffer(live, archive, times, i)
  {
    forall t ensures t in FieldDifferingIn(live, archive, times, i) <==> t in IntsDiffer(live, archive, times, i) {}
  }

  lemma CellsCounted(live: Table, archive: Table, times: set<int>, v: nat)
    requires ShapedTable(live) && ShapedTable(archive) && v < VALUE_FIELDS
    ensures FieldDifferingIn(live, archive, times, INTEGER_FIELDS + v) == CellsDiffer(live, archive, times, v)
  {
    forall t ensures t in FieldDifferingIn(live, archive, times, INTEGER_FIELDS + v) <==> t in CellsDiffer(live, archive, times, v) {}
  }

  lemma CountsSay(live: Table, archive: Table, times: set<int>, tally: FieldTally)
    requires ShapedTable(live) && ShapedTable(archive) && FieldCounts(live, archive, times, tally)
    ensures FieldsSay(live, archive, times, tally)
  {
    hide IsMaximum, BoundsDifferences, RowDiffers;
    forall t | t in times && t in live && t in archive ensures RowDiffers(live[t], archive[t]) <==> live[t] != archive[t] {
      SameRowsDoNotDiffer(live[t], archive[t]);
    }
    assert DifferingIn(live, archive, times) == set t | t in times && t in live && t in archive && live[t] != archive[t];
    forall i: nat | i < 2 ensures tally.mismatches[i] == |IntsDiffer(live, archive, times, i)| {
      IntsCounted(live, archive, times, i);
    }
    forall v: nat | v < 8 ensures tally.mismatches[2 + v] == |CellsDiffer(live, archive, times, v)| {
      CellsCounted(live, archive, times, v);
    }
    forall v: nat | v < 8 ensures BoundsDifferences(live, archive, times, v, tally.maxAbsDifference[v]) {
      MaximumBounds(live, archive, times, v, tally.maxAbsDifference[v]);
    }
  }

  lemma MaximumGrows(live: Table, archive: Table, times: set<int>, t: int, v: nat, m: real)
    requires ShapedTable(live) && ShapedTable(archive) && v < VALUE_FIELDS
    requires t in live && t in archive && IsMaximum(live, archive, times, v, m)
    ensures IsMaximum(live, archive, times + {t}, v,
                      if Gap(live[t], archive[t], v).Some? then MaxReal(m, Gap(live[t], archive[t], v).value) else m)
  {
    var gap := Gap(live[t], archive[t], v);
    var after := if gap.Some? then MaxReal(m, gap.value) else m;
    assert CommonIn(live, archive, times + {t}) == CommonIn(live, archive, times) + {t};
    if after != 0.0 {
      if after == m {
        var s :| s in CommonIn(live, archive, times) && Gap(live[s], archive[s], v) == Some(m);
        assert s in CommonIn(live, archive, times + {t});
      } else {
        assert t in CommonIn(live, archive, times + {t});
      }
    }
  }

  lemma DifferingGrows(live: Table, archive: Table, times: set<int>, t: int)
    requires ShapedTable(live) && ShapedTable(archive) && t in live && t in archive && t !in times
    ensures |DifferingIn(live, archive, times + {t})|
         == |DifferingIn(live, archive, times)| + (if RowDiffers(live[t], archive[t]) then 1 else 0)
  {
    assert DifferingIn(live, archive, times + {t})
        == DifferingIn(live, archive, times) + (if RowDiffers(live[t], archive[t]) then {t} else {});
  }

  lemma FieldDifferingGrows(live: Table, archive: Table, times: set<int>, t: int, f: nat)
    requires ShapedTable(live) && ShapedTable(archive) && t in live && t in archive && t !in times && f < FIELDS
    ensures |FieldDifferingIn(live, archive, times + {t}, f)|
         == |FieldDifferingIn(live, archive, times, f)| + (if Differs(live[t], archive[t], f) then 1 else 0)
  {
    assert FieldDifferingIn(live, archive, times + {t}, f)
        == FieldDifferingIn(live, archive, times, f) + (if Differs(live[t], archive[t], f) then {t} else {});
  }

  /** Comparing one more common row keeps the meaning of the counters. */
  lemma CountsGrow(live: Table, archive: Table, times: set<int>, t: int, before: FieldTally, after: FieldTally)
    requires ShapedTable(live) && ShapedTable(archive) && t in live && t in archive && t !in times
    requires FieldCounts(live, archive, times, before)
    requires |after.mismatches| == FIELDS && |after.maxAbsDifference| == VALUE_FIELDS
    requires after.differenceRows == before.differenceRows + (if RowDiffers(live[t], archive[t]) then 1 else 0)
    requires forall f: nat | f < FIELDS ::
               after.mismatches[f] == before.mismatches[f] + (if Differs(live[t], archive[t], f) then 1 else 0)
    requires forall v: nat | v < VALUE_FIELDS ::
               after.maxAbsDifference[v] ==
                 if Gap(live[t], archive[t], v).Some? then MaxReal(before.maxAbsDifference[v], Gap(live[t], archive[t], v).value)
                 else before.maxAbsDifference[v]
    ensures FieldCounts(live, archive, times + {t}, after)
  {
    hide IsMaximum, DifferingIn, FieldDifferingIn, RowDiffers, Differs, Gap;
    DifferingGrows(live, archive, times, t);
    forall f: nat | f < FIELDS ensures after.mismatches[f] == |FieldDifferingIn(live, archive, times + {t}, f)| {
      FieldDifferingGrows(live, archive, times, t, f);
    }
    forall v: nat | v < VALUE_FIELDS ensures IsMaximum(live, archive, times + {t}, v, after.maxAbsDifference[v]) {
      MaximumGrows(live, archive, times, t, v, before.maxAbsDifference[v]);
    }
  }

  /** Only the common rows of a set of times matter. */
  lemma CountsDependOnCommon(live: Table, archive: Table, a: set<int>, b: set<int>, tally: FieldTally)
    requires ShapedTable(live) && ShapedTable(archive)
    requires CommonIn(live, archive, a) == CommonIn(live, archive, b)
    requires FieldCounts(live, archive, a, tally)
    ensures FieldCounts(live, archive, b, tally)
  {
    forall t ensures t in a && t in live && t in archive <==> t in b && t in live && t in archive {
      assert t in CommonIn(live, archive, a) <==> t in CommonIn(live, archive, b);
    }
    assert DifferingIn(live, archive, a) == DifferingIn(live, archive, b);
    forall f: nat | f < FIELDS ensures FieldDifferingIn(live, archive, a, f) == FieldDifferingIn(live, archive, b, f) {}
  }

  /** The counters are determined by the two tables and the set of times. */
  lemma CountsAreDetermined(live: Table, archive: Table, times: set<int>, x: FieldTally, y: FieldTally)
    requires ShapedTable(live) && ShapedTable(archive)
    requires FieldCounts(live, archive, times, x) && FieldCounts(live, archive, times, y)
    ensures x == y
  {
    forall v: nat | v < VALUE_FIELDS ensures x.maxAbsDifference[v] == y.maxAbsDifference[v] {
      MaximumIsUnique(live, archive, times, v, x.maxAbsDifference[v], y.maxAbsDifference[v]);
      MaximumIsUnique(live, archive, times, v, y.maxAbsDifference[v], x.maxAbsDifference[v]);
    }
    assert x.maxAbsDifference == y.maxAbsDifference;
    forall f: nat | f < FIELDS ensures x.mismatches[f] == y.mismatches[f] {}
    assert x.mismatches == y.mismatches;
  }

  lemma MaximumIsUnique(live: Table, archive: Table, times: set<int>, v: nat, m: real, n: real)
    requires ShapedTable(live) && ShapedTable(archive) && v < VALUE_FIELDS
    requires IsMaximum(live, archive, times, v, m) && IsMaximum(live, archive, times, v, n)
    ensures m <= n
  {
    if m != 0.0 {
      var t :| t in CommonIn(live, archive, times) && Gap(live[t], archive[t], v) == Some(m);
      assert Gap(live[t], archive[t], v).value <= n;
    }
  }
}
