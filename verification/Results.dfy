/** Shared result, option and sorting vocabulary. */
module Results {
  datatype Option<+T> = None | Some(value: T) {
    function GetOr(default: T): T {
      if Some? then value else default
    }
  }

  datatype Result<+T, +E> = Success(value: T) | Failure(error: E)

  /** Digests are opaque numbers; every module takes the digest function as a parameter. */
  datatype Digest = Digest(value: nat)

  type Bytes = seq<bv8>

  function MinInt(a: int, b: int): int { if a <= b then a else b }
  function MaxInt(a: int, b: int): int { if a >= b then a else b }
  function MinReal(a: real, b: real): real { if a <= b then a else b }
  function MaxReal(a: real, b: real): real { if a >= b then a else b }
}

/** Python's `sorted`, as a stable insertion sort over an arbitrary total preorder. */
module Sorting {

  ghost predicate TotalPreorder<T(!new)>(le: (T, T) -> bool) {
    && (forall a, b :: le(a, b) || le(b, a))
    && (forall a, b, c :: le(a, b) && le(b, c) ==> le(a, c))
  }

  ghost predicate SortedBy<T>(le: (T, T) -> bool, s: seq<T>) {
    forall i, j | 0 <= i < j < |s| :: le(s[i], s[j])
  }

  function Insert<T>(le: (T, T) -> bool, x: T, s: seq<T>): (r: seq<T>)
    ensures |r| == |s| + 1
  {
    if s == [] || le(x, s[0]) then [x] + s else [s[0]] + Insert(le, x, s[1..])
  }

  function Sort<T>(le: (T, T) -> bool, s: seq<T>): (r: seq<T>)
    ensures |r| == |s|
  {
    if s == [] then [] else Insert(le, s[0], Sort(le, s[1..]))
  }

  lemma {:induction false} InsertKeepsElements<T>(le: (T, T) -> bool, x: T, s: seq<T>)
    ensures multiset(Insert(le, x, s)) == multiset(s) + multiset{x}
  {
    if s != [] && !le(x, s[0]) {
      InsertKeepsElements(le, x, s[1..]);
      assert s == [s[0]] + s[1..];
    }
  }

  lemma {:induction false} InsertKeepsOrder<T(!new)>(le: (T, T) -> bool, x: T, s: seq<T>)
    requires TotalPreorder(le) && SortedBy(le, s)
    ensures SortedBy(le, Insert(le, x, s))
  {
    var r := Insert(le, x, s);
    if s == [] {
    } else if le(x, s[0]) {
      forall i, j | 0 <= i < j < |r| ensures le(r[i], r[j]) {
        if i == 0 && j > 1 { assert le(x, s[0]) && le(s[0], s[j - 1]); }
      }
    } else {
      InsertKeepsOrder(le, x, s[1..]);
      InsertKeepsElements(le, x, s[1..]);
      var rest := Insert(le, x, s[1..]);
      forall j | 0 <= j < |rest| ensures le(s[0], rest[j]) {
        assert rest[j] in multiset(rest);
        if rest[j] != x {
          assert rest[j] in s[1..];
          var k :| 0 <= k < |s[1..]| && s[1..][k] == rest[j];
          assert s[k + 1] == rest[j];
        }
      }
    }
  }

  /** `sorted` returns a permutation of its input, in order. */
  lemma {:induction false} SortIsSortedPermutation<T(!new)>(le: (T, T) -> bool, s: seq<T>)
    requires TotalPreorder(le)
    ensures SortedBy(le, Sort(le, s)) && multiset(Sort(le, s)) == multiset(s)
  {
    if s != [] {
      SortIsSortedPermutation(le, s[1..]);
      InsertKeepsOrder(le, s[0], Sort(le, s[1..]));
      InsertKeepsElements(le, s[0], Sort(le, s[1..]));
      assert s == [s[0]] + s[1..];
    }
  }

  lemma {:induction false} SortKeepsSorted<T>(le: (T, T) -> bool, s: seq<T>)
    requires SortedBy(le, s)
    ensures Sort(le, s) == s
  {
    if s != [] {
      assert forall i, j | 0 <= i < j < |s[1..]| :: s[1..][i] == s[i + 1] && s[1..][j] == s[j + 1];
      SortKeepsSorted(le, s[1..]);
      if |s| > 1 { assert le(s[0], s[1]); }
      assert s == [s[0]] + s[1..];
    }
  }

  ghost predicate Distinct<T>(s: seq<T>) {
    forall i, j | 0 <= i < j < |s| :: s[i] != s[j]
  }

  lemma {:induction false} DistinctIsCounted<T>(s: seq<T>)
    ensures Distinct(s) <==> forall x :: multiset(s)[x] <= 1
  {
    if s != [] {
      var front, last := s[..|s| - 1], s[|s| - 1];
      assert s == front + [last];
      DistinctIsCounted(front);
      assert multiset(s) == multiset(front) + multiset{last};
      assert last in front <==> multiset(front)[last] >= 1;
      if Distinct(s) {
        assert Distinct(front) && last !in front;
      } else if Distinct(front) {
        assert last in front;
        assert multiset(s)[last] >= 2;
      } else {
        var x :| multiset(front)[x] > 1;
        assert multiset(s)[x] > 1;
      }
    }
  }

  /** Permutations keep distinctness. */
  lemma PermutationKeepsDistinct<T>(a: seq<T>, b: seq<T>)
    requires multiset(a) == multiset(b) && Distinct(a)
    ensures Distinct(b)
  {
    DistinctIsCounted(a);
    DistinctIsCounted(b);
  }

  lemma ConcatSnoc<T>(a: seq<T>, b: seq<T>)
    requires b != []
    ensures a + b == a + b[..|b| - 1] + [b[|b| - 1]]
  {
  }

  /** A permutation has the same members. */
  lemma SameMembers<T>(a: seq<T>, b: seq<T>)
    requires multiset(a) == multiset(b)
    ensures forall x :: x in a <==> x in b
  {
    forall x ensures x in a <==> x in b {
      assert x in a <==> x in multiset(a);
      assert x in b <==> x in multiset(b);
    }
  }

  // ----- filtering

  function Filter<T>(keep: T -> bool, s: seq<T>): (r: seq<T>)
    ensures |r| <= |s|
  {
    if s == [] then [] else Filter(keep, s[..|s| - 1]) + (if keep(s[|s| - 1]) then [s[|s| - 1]] else [])
  }

  lemma FilterSnoc<T>(keep: T -> bool, s: seq<T>, x: T)
    ensures Filter(keep, s + [x]) == Filter(keep, s) + (if keep(x) then [x] else [])
  {
    assert (s + [x])[..|s|] == s;
  }

  lemma {:induction false} FilterMember<T>(keep: T -> bool, s: seq<T>, x: T)
    ensures x in Filter(keep, s) <==> x in s && keep(x)
  {
    if s != [] {
      FilterMember(keep, s[..|s| - 1], x);
      assert s == s[..|s| - 1] + [s[|s| - 1]];
    }
  }

  lemma FilterMembers<T>(keep: T -> bool, s: seq<T>)
    ensures forall x :: x in Filter(keep, s) <==> x in s && keep(x)
  {
    forall x { FilterMember(keep, s, x); }
  }

  /** A filter keeps the relative order of what it keeps. */
  lemma {:induction false} FilterPosition<T>(keep: T -> bool, s: seq<T>, i: nat, j: nat) returns (a: nat, b: nat)
    requires i < j < |Filter(keep, s)|
    ensures a < b < |s| && s[a] == Filter(keep, s)[i] && s[b] == Filter(keep, s)[j]
    ensures keep(s[a]) && keep(s[b])
  {
    var front, last := s[..|s| - 1], s[|s| - 1];
    var kept := Filter(keep, front);
    if j < |kept| {
      a, b := FilterPosition(keep, front, i, j);
    } else {
      assert kept[i] in kept;
      FilterMember(keep, front, kept[i]);
      var k :| 0 <= k < |front| && front[k] == kept[i];
      a, b := k, |front|;
    }
  }

  lemma {:induction false} FilterKeepsAll<T>(keep: T -> bool, s: seq<T>)
    requires forall x | x in s :: keep(x)
    ensures Filter(keep, s) == s
  {
    if s != [] {
      var front, last := s[..|s| - 1], s[|s| - 1];
      assert last in s && s == front + [last];
      FilterKeepsAll(keep, front);
    }
  }

  lemma {:induction false} FilterKeepsNone<T>(keep: T -> bool, s: seq<T>)
    requires forall x | x in s :: !keep(x)
    ensures Filter(keep, s) == []
  {
    if s != [] {
      assert s[|s| - 1] in s && forall x | x in s[..|s| - 1] :: x in s;
      FilterKeepsNone(keep, s[..|s| - 1]);
    }
  }

  lemma {:induction false} FilterAppends<T>(keep: T -> bool, a: seq<T>, b: seq<T>)
    ensures Filter(keep, a + b) == Filter(keep, a) + Filter(keep, b)
  {
    if b == [] {
      assert a + b == a;
    } else {
      FilterAppends(keep, a, b[..|b| - 1]);
      assert (a + b)[..|a + b| - 1] == a + b[..|b| - 1];
    }
  }

  /** Conditions that agree everywhere keep the same elements. */
  lemma {:induction false} FilterAlike<T(!new)>(keep: T -> bool, same: T -> bool, s: seq<T>)
    requires forall x :: keep(x) <==> same(x)
    ensures Filter(keep, s) == Filter(same, s)
  {
    if s != [] { FilterAlike(keep, same, s[..|s| - 1]); }
  }

  lemma FilterDistinct<T>(keep: T -> bool, s: seq<T>)
    requires Distinct(s)
    ensures Distinct(Filter(keep, s))
  {
    forall i, j | 0 <= i < j < |Filter(keep, s)| ensures Filter(keep, s)[i] != Filter(keep, s)[j] {
      var a, b := FilterPosition(keep, s, i, j);
    }
  }

  lemma DistinctConcat<T>(a: seq<T>, b: seq<T>)
    requires Distinct(a) && Distinct(b) && forall x | x in a :: x !in b
    ensures Distinct(a + b)
  {
    var s := a + b;
    forall i, j | 0 <= i < j < |s| ensures s[i] != s[j] {
      if i < |a| <= j { assert s[i] in a && s[j] in b; }
    }
  }

  // ----- sorted listing of a set

  /** Python's `s[:limit]`. */
  function Prefix<T>(s: seq<T>, limit: int): seq<T> {
    if limit >= 0 then (if limit <= |s| then s[..limit] else s)
    else if |s| + limit >= 0 then s[..|s| + limit] else []
  }

  function AsSet(s: seq<int>): set<int> { set x | x in s }

  lemma AsSetSnoc(s: seq<int>, i: nat)
    requires i < |s|
    ensures AsSet(s[..i + 1]) == AsSet(s[..i]) + {s[i]}
  {
    assert s[..i + 1] == s[..i] + [s[i]];
  }

  lemma Member<T>(s: set<T>) returns (x: T)
    requires s != {}
    ensures x in s
  {
    x :| x in s;
  }

  lemma AtMostOne<T>(s: set<T>)
    requires forall x, y | x in s && y in s :: x == y
    ensures |s| <= 1
  {
    if s != {} {
      var x := Member(s);
      if s - {x} != {} {
        var y := Member(s - {x});
        assert false;
      }
      assert s == {x} + (s - {x});
    }
  }

  lemma {:induction false} SetHasMinimum(s: set<int>)
    requires s != {}
    ensures exists m :: m in s && forall x | x in s :: m <= x
    decreases |s|
  {
    var m := Minimum(s);
  }

  lemma {:induction false} Minimum(s: set<int>) returns (m: int)
    requires s != {}
    ensures m in s && forall x | x in s :: m <= x
    decreases |s|
  {
    var a := Member(s);
    m := a;
    if s - {a} != {} {
      var least := Minimum(s - {a});
      m := if a < least then a else least;
    }
    forall x | x in s ensures m <= x {
      if x != a { assert x in s - {a}; }
    }
  }

  /** `sorted(s)` for a set of integers. */
  function SortedSet(s: set<int>): (r: seq<int>)
    ensures |r| == |s|
    decreases |s|
  {
    if s == {} then []
    else
      SetHasMinimum(s);
      var m :| m in s && forall x | x in s :: m <= x;
      [m] + SortedSet(s - {m})
  }

  lemma SortedSetUnfolds(s: set<int>)
    requires s != {}
    ensures var r := SortedSet(s);
            && |r| == |s| > 0 && r[0] in s && r == [r[0]] + SortedSet(s - {r[0]})
            && forall x | x in s :: r[0] <= x
  {
  }

  lemma {:induction false} SortedSetMembers(s: set<int>)
    ensures forall x :: x in SortedSet(s) <==> x in s
    decreases |s|
  {
    if s != {} {
      hide SortedSet;
      SortedSetUnfolds(s);
      var r := SortedSet(s);
      SortedSetMembers(s - {r[0]});
    }
  }

  ghost predicate Increasing(s: seq<int>) {
    forall i, j | 0 <= i < j < |s| :: s[i] < s[j]
  }

  /** An increasing sequence repeats nothing. */
  lemma {:induction false} IncreasingSize(s: seq<int>)
    requires Increasing(s)
    ensures |AsSet(s)| == |s|
  {
    if s != [] {
      var front, last := s[..|s| - 1], s[|s| - 1];
      IncreasingSize(front);
      AsSetSnoc(s, |front|);
      assert s[..|front| + 1] == s;
      assert last !in front;
    }
  }

  lemma PrependSmaller(x: int, s: seq<int>)
    requires Increasing(s) && forall y | y in s :: x < y
    ensures Increasing([x] + s)
  {
    var r := [x] + s;
    forall i, j | 0 <= i < j < |r| ensures r[i] < r[j] {
      assert r[j] == s[j - 1] && s[j - 1] in s;
      if i > 0 { assert r[i] == s[i - 1]; }
    }
  }

  lemma {:induction false} SortedSetIncreases(s: set<int>)
    ensures Increasing(SortedSet(s))
    decreases |s|
  {
    if s != {} {
      hide SortedSet, Increasing;
      SortedSetUnfolds(s);
      var m := SortedSet(s)[0];
      SortedSetIncreases(s - {m});
      SortedSetMembers(s - {m});
      PrependSmaller(m, SortedSet(s - {m}));
    }
  }

  /** The listing of a set holds its members, in strictly increasing order. */
  lemma SortedSetListsSet(s: set<int>)
    ensures forall x :: x in SortedSet(s) <==> x in s
    ensures forall i, j | 0 <= i < j < |SortedSet(s)| :: SortedSet(s)[i] < SortedSet(s)[j]
  {
    SortedSetMembers(s);
    SortedSetIncreases(s);
  }
}

/** Sums of a quantity over a sequence; what a running total is compared with. */
module Sums {
  import opened Sorting

  ghost function SumBy<T>(f: T -> real, s: seq<T>): real {
    if s == [] then 0.0 else SumBy(f, s[..|s| - 1]) + f(s[|s| - 1])
  }

  /** The same for whole numbers. */
  ghost function CountBy<T>(f: T -> int, s: seq<T>): int {
    if s == [] then 0 else CountBy(f, s[..|s| - 1]) + f(s[|s| - 1])
  }

  lemma SumSnoc<T>(f: T -> real, s: seq<T>, x: T)
    ensures SumBy(f, s + [x]) == SumBy(f, s) + f(x)
  {
    assert (s + [x])[..|s|] == s;
  }

  lemma CountSnoc<T>(f: T -> int, s: seq<T>, x: T)
    ensures CountBy(f, s + [x]) == CountBy(f, s) + f(x)
  {
    assert (s + [x])[..|s|] == s;
  }

  /** A sum is additive, and over one element it is that element's value. */
  lemma {:induction false} SumOfParts<T>(f: T -> real, a: seq<T>, b: seq<T>)
    ensures SumBy(f, a + b) == SumBy(f, a) + SumBy(f, b)
    ensures |a| == 1 ==> SumBy(f, a) == f(a[0])
  {
    if |a| == 1 { assert a[..0] == []; }
    if b == [] {
      assert a + b == a;
    } else {
      SumOfParts(f, a, b[..|b| - 1]);
      assert (a + b)[..|a + b| - 1] == a + b[..|b| - 1];
    }
  }

  lemma {:induction false} CountOfParts<T>(f: T -> int, a: seq<T>, b: seq<T>)
    ensures CountBy(f, a + b) == CountBy(f, a) + CountBy(f, b)
    ensures |a| == 1 ==> CountBy(f, a) == f(a[0])
  {
    if |a| == 1 { assert a[..0] == []; }
    if b == [] {
      assert a + b == a;
    } else {
      CountOfParts(f, a, b[..|b| - 1]);
      assert (a + b)[..|a + b| - 1] == a + b[..|b| - 1];
    }
  }

  lemma WithoutOne<T>(s: seq<T>, k: nat)
    requires k < |s|
    ensures multiset(s[..k] + s[k + 1..]) == multiset(s) - multiset{s[k]}
  {
    assert s == s[..k] + [s[k]] + s[k + 1..];
  }

  lemma SumWithoutOne<T>(f: T -> real, s: seq<T>, k: nat)
    requires k < |s|
    ensures SumBy(f, s) == SumBy(f, s[..k] + s[k + 1..]) + f(s[k])
  {
    hide SumBy;
    SumSnoc(f, s[..k], s[k]);
    SumOfParts(f, s[..k] + [s[k]], s[k + 1..]);
    SumOfParts(f, s[..k], s[k + 1..]);
    assert s == s[..k] + [s[k]] + s[k + 1..];
  }

  lemma PositionOf<T>(s: seq<T>, x: T) returns (k: nat)
    requires x in multiset(s)
    ensures k < |s| && s[k] == x
  {
    k :| k < |s| && s[k] == x;
  }

  lemma SameSize<T>(a: seq<T>, b: seq<T>)
    requires multiset(a) == multiset(b)
    ensures |a| == |b|
  {
    assert |multiset(a)| == |a| && |multiset(b)| == |b|;
  }

  /** The order of the summands does not matter. */
  lemma {:induction false} SumIgnoresOrder<T>(f: T -> real, a: seq<T>, b: seq<T>)
    requires multiset(a) == multiset(b)
    ensures SumBy(f, a) == SumBy(f, b)
    decreases |a|
  {
    hide SumBy;
    SameSize(a, b);
    if a == [] {
      assert b == [];
    } else {
      WithoutOne(a, 0);
      var k := PositionOf(b, a[0]);
      WithoutOne(b, k);
      SumIgnoresOrder(f, a[..0] + a[1..], b[..k] + b[k + 1..]);
      SumWithoutOne(f, a, 0);
      SumWithoutOne(f, b, k);
    }
  }
}
