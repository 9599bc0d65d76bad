/**
 * Bucket grids: the successor an interval defines, and the walk from one bucket open to another.
 * A fixed step is one instance; calendar months are why the successor is arbitrary.
 */
module Grids {
  import opened Sorting

  /** The one-minute interval of the period-summary bars, in milliseconds. */
  const INTERVAL_MS: int := 60_000
  const DAY_MS: int := 86_400_000

  /** The bucket opens of one source grid, with their successor and predecessor. */
  datatype Grid = Grid(aligned: int -> bool, next: int -> int, prev: int -> int)

  ghost predicate ValidGrid(g: Grid) {
    && (forall t {:trigger g.next(t)} :: t < g.next(t))
    && (forall t {:trigger g.next(t)} :: g.aligned(t) ==> g.aligned(g.next(t)) && g.prev(g.next(t)) == t)
    && (forall t {:trigger g.prev(t)} :: g.aligned(t) ==> g.aligned(g.prev(t)) && g.next(g.prev(t)) == t)
    && (forall s, t {:trigger g.next(s), g.aligned(t)} :: g.aligned(s) && g.aligned(t) && s < t ==> g.next(s) <= t)
  }

  /** The grid of a fixed-width interval whose buckets open at `anchor` modulo `step`. */
  function FixedGrid(step: int, anchor: int): Grid
    requires step > 0
  {
    Grid(t => (t - anchor) % step == 0, t => t + step, t => t - step)
  }

  lemma MulOrder(a: int, b: int, step: int)
    requires step > 0 && a <= b
    ensures a * step <= b * step
  {
  }

  lemma MultiplesAreApart(step: int, a: int, b: int)
    requires step > 0 && a % step == 0 && b % step == 0 && a < b
    ensures a + step <= b
  {
    var q, r := a / step, b / step;
    assert a == q * step && b == r * step;
    if r <= q {
      MulOrder(r, q, step);
    } else {
      MulOrder(q + 1, r, step);
    }
  }

  lemma ShiftKeepsResidue(step: int, a: int)
    requires step > 0
    ensures (a + step) % step == a % step && (a - step) % step == a % step
  {
    var q := a / step;
    assert a == q * step + a % step;
    assert a + step == (q + 1) * step + a % step;
    assert a - step == (q - 1) * step + a % step;
    DivisionIsUnique(step, a + step, q + 1, a % step);
    DivisionIsUnique(step, a - step, q - 1, a % step);
  }

  lemma DivisionIsUnique(step: int, a: int, q: int, r: int)
    requires step > 0 && a == q * step + r && 0 <= r < step
    ensures a / step == q && a % step == r
  {
    var p := a / step;
    if p < q {
      MulOrder(p + 1, q, step);
    } else if q < p {
      MulOrder(q + 1, p, step);
    }
  }

  lemma FixedGridIsValid(step: int, anchor: int)
    requires step > 0
    ensures ValidGrid(FixedGrid(step, anchor))
  {
    var g := FixedGrid(step, anchor);
    forall t ensures g.aligned(t) ==> g.aligned(g.next(t)) && g.aligned(g.prev(t)) {
      ShiftKeepsResidue(step, t - anchor);
      assert t - anchor + step == g.next(t) - anchor;
      assert t - anchor - step == g.prev(t) - anchor;
    }
    forall s, t | g.aligned(s) && g.aligned(t) && s < t ensures g.next(s) <= t {
      MultiplesAreApart(step, s - anchor, t - anchor);
    }
  }

  lemma StepUp(g: Grid, t: int)
    requires ValidGrid(g) && g.aligned(t)
    ensures t < g.next(t) && g.aligned(g.next(t)) && g.prev(g.next(t)) == t
  {
  }

  lemma StepBelow(g: Grid, s: int, t: int)
    requires ValidGrid(g) && g.aligned(s) && g.aligned(t) && s < t
    ensures g.next(s) <= t
  {
  }

  lemma BelowNext(g: Grid, t: int, end: int)
    requires ValidGrid(g) && g.aligned(t) && g.aligned(end) && t < g.next(end)
    ensures t <= end
  {
  }

  lemma StepDown(g: Grid, c: int, d: int)
    requires ValidGrid(g) && g.aligned(c) && g.aligned(d)
    ensures g.aligned(g.prev(d)) && g.next(g.prev(d)) == d && g.prev(d) < d
    ensures c < d ==> c <= g.prev(d)
  {
  }

  /** The opens from `a` through `b`. */
  ghost function Walk(g: Grid, a: int, b: int): (r: seq<int>)
    requires ValidGrid(g)
    decreases b - a
  {
    if a > b then [] else [a] + Walk(g, g.next(a), b)
  }

  /** A walk lists exactly the aligned points of its window, in order. */
  lemma {:induction false} WalkListsWindow(g: Grid, a: int, b: int)
    requires ValidGrid(g) && g.aligned(a)
    ensures forall t :: t in Walk(g, a, b) <==> g.aligned(t) && a <= t <= b
    ensures Increasing(Walk(g, a, b))
    decreases b - a
  {
    if a <= b {
      var rest := Walk(g, g.next(a), b);
      WalkListsWindow(g, g.next(a), b);
      forall t ensures t in Walk(g, a, b) <==> g.aligned(t) && a <= t <= b {
        assert t in Walk(g, a, b) <==> t == a || t in rest;
      }
      var w := Walk(g, a, b);
      forall i, j | 0 <= i < j < |w| ensures w[i] < w[j] {
        assert w[j] == rest[j - 1];
        if i == 0 { assert rest[j - 1] in rest; } else { assert w[i] == rest[i - 1]; }
      }
    }
  }

  /** A walk splits at any aligned point of its window. */
  lemma {:induction false} WalkSplits(g: Grid, a: int, m: int, b: int)
    requires ValidGrid(g) && g.aligned(a) && g.aligned(m) && a <= m
    requires m <= b || g.prev(m) <= b
    ensures Walk(g, a, b) == Walk(g, a, g.prev(m)) + Walk(g, m, b)
    decreases m - a
  {
    assert g.next(g.prev(m)) == m;
    if a == m {
      assert g.prev(m) < g.next(g.prev(m));
    } else {
      assert g.next(a) <= m;
      WalkSplits(g, g.next(a), m, b);
      assert a <= g.prev(m);
    }
  }

  /** The last open of a non-empty walk can be peeled off. */
  lemma WalkEnds(g: Grid, a: int, b: int)
    requires ValidGrid(g) && g.aligned(a) && g.aligned(b) && a <= b
    ensures Walk(g, a, b) == Walk(g, a, g.prev(b)) + [b]
  {
    WalkSplits(g, a, b, b);
    assert Walk(g, b, b) == [b] + Walk(g, g.next(b), b);
  }

  /** `n` applications of a successor. */
  function Nth(next: int -> int, t: int, n: nat): int {
    if n == 0 then t else next(Nth(next, t, n - 1))
  }

  lemma {:induction false} NthShifts(next: int -> int, t: int, n: nat)
    ensures Nth(next, next(t), n) == Nth(next, t, n + 1)
  {
    if n > 0 { NthShifts(next, t, n - 1); }
  }

  /** The walk is the orbit of its first point. */
  lemma {:induction false} WalkIsOrbit(g: Grid, a: int, b: int, i: nat)
    requires ValidGrid(g) && i < |Walk(g, a, b)|
    ensures Walk(g, a, b)[i] == Nth(g.next, a, i)
    decreases i
  {
    if i > 0 {
      WalkIsOrbit(g, g.next(a), b, i - 1);
      NthShifts(g.next, a, i - 1);
    }
  }
}
