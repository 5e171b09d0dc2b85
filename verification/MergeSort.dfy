/**
 lib/msort2_7.c: the merge sort behind qsort.  Small elements are merged directly; for
 large ones the code sorts pointers and then permutes the array in place by following
 the cycles of the permutation.  Pointers are modelled as element indices.
 */
module MergeSort {
  import opened Order
  import Quicksort
  import Arith

  /** s with x written over it from position at. */
  ghost function Patched<T>(s: seq<T>, at: nat, x: seq<T>): seq<T>
    requires at + |x| <= |s|
  {
    s[..at] + x + s[at + |x|..]
  }

  /** memcpy between two different buffers. */
  method Copy<T>(src: array<T>, from: nat, dst: array<T>, to: nat, len: nat)
    requires src != dst && from + len <= src.Length && to + len <= dst.Length
    modifies dst
    ensures dst[..] == Patched(old(dst[..]), to, src[from..from + len])
  {
    for k := 0 to len
      invariant forall i :: 0 <= i < dst.Length ==>
        dst[i] == if to <= i < to + k then src[from + i - to] else old(dst[i])
    {
      dst[to + k] := src[from + k];
    }
  }

  /** Merges the halves of b[lo..lo+n] into t until one of them runs out. */
  method MergeLoop<T>(b: array<T>, lo: nat, n1: nat, n: nat, t: array<T>, cmp: (T, T) -> int)
    returns (i1: nat, i2: nat, ghost done: seq<T>)
    requires b != t && n1 <= n && lo + n <= b.Length && n <= t.Length
    modifies t
    ensures i1 <= n1 && i2 <= n - n1 && (i1 == n1 || i2 == n - n1) && |done| == i1 + i2
    ensures forall k :: 0 <= k < i1 + i2 ==> t[k] == done[k]
    ensures var x, y := b[lo..lo + n1], b[lo + n1..lo + n];
            Merge(cmp, x, y) == done + Merge(cmp, x[i1..], y[i2..])
  {
    hide Merge;
    ghost var x, y := b[lo..lo + n1], b[lo + n1..lo + n];
    done := [];
    var tmp := 0;
    i1, i2 := 0, 0;
    while i1 < n1 && i2 < n - n1
      invariant i1 <= n1 && i2 <= n - n1 && tmp == i1 + i2 == |done|
      invariant forall k :: 0 <= k < tmp ==> t[k] == done[k]
      invariant Merge(cmp, x, y) == done + Merge(cmp, x[i1..], y[i2..])
    {
      MergeAdvance(cmp, x, y, i1, i2, done);
      if cmp(b[lo + i1], b[lo + n1 + i2]) <= 0 {
        done := done + [x[i1]];
        t[tmp] := b[lo + i1];
        i1 := i1 + 1;
      } else {
        done := done + [y[i2]];
        t[tmp] := b[lo + n1 + i2];
        i2 := i2 + 1;
      }
      tmp := tmp + 1;
    }
  }

  /** Merges into t; n2 elements at the end of the right half are already in place. */
  method MergeIntoTmp<T>(b: array<T>, lo: nat, n1: nat, n: nat, t: array<T>, cmp: (T, T) -> int) returns (n2: nat)
    requires b != t && n1 <= n && lo + n <= b.Length && n <= t.Length
    modifies t
    ensures n2 <= n - n1
    ensures t[..n - n2] + b[lo + n - n2..lo + n] == Merge(cmp, b[lo..lo + n1], b[lo + n1..lo + n])
  {
    hide Merge;
    ghost var x, y := b[lo..lo + n1], b[lo + n1..lo + n];
    var i1, i2, done := MergeLoop(b, lo, n1, n, t, cmp);
    n2 := n - n1 - i2;
    MergeEnd(cmp, x[i1..], y[i2..]);
    if i1 < n1 {
      Copy(b, lo + i1, t, i1 + i2, n1 - i1);
    }
    MergeDone(x, y, i1, i2, done, t[..n - n2], b[lo + n - n2..lo + n]);
  }

  lemma MergeDone<T>(x: seq<T>, y: seq<T>, i1: nat, i2: nat, done: seq<T>, moved: seq<T>, kept: seq<T>)
    requires i1 <= |x| && i2 <= |y| && (i1 == |x| || i2 == |y|)
    requires |moved| == |done| + |x| - i1 && kept == y[i2..]
    requires forall k :: 0 <= k < |done| ==> moved[k] == done[k]
    requires forall k :: i1 <= k < |x| ==> moved[|done| + k - i1] == x[k]
    ensures moved + kept == done + (x[i1..] + y[i2..])
  {
    assert moved == done + x[i1..];
  }

  /** One comparison moves one element from the front of x or y to the end of what is done. */
  lemma MergeAdvance<T>(cmp: (T, T) -> int, x: seq<T>, y: seq<T>, i1: nat, i2: nat, done: seq<T>)
    requires i1 < |x| && i2 < |y|
    ensures done + Merge(cmp, x[i1..], y[i2..]) ==
            if cmp(x[i1], y[i2]) <= 0 then (done + [x[i1]]) + Merge(cmp, x[i1 + 1..], y[i2..])
            else (done + [y[i2]]) + Merge(cmp, x[i1..], y[i2 + 1..])
  {
    assert x[i1..][1..] == x[i1 + 1..] && y[i2..][1..] == y[i2 + 1..];
  }

  lemma MergeEnd<T>(cmp: (T, T) -> int, x: seq<T>, y: seq<T>)
    requires x == [] || y == []
    ensures Merge(cmp, x, y) == x + y
  {
  }

  /** Merges in place: the part of the right half that comes last is never moved. */
  method MergeHalves<T>(b: array<T>, lo: nat, n1: nat, n: nat, t: array<T>, cmp: (T, T) -> int)
    requires b != t && n1 <= n && lo + n <= b.Length && n <= t.Length
    modifies b, t
    ensures var s := old(b[..]);
            var merged := Merge(cmp, s[lo..lo + n1], s[lo + n1..lo + n]);
            |merged| == n && b[..] == Patched(s, lo, merged)
  {
    hide Merge, Patched;
    var n2 := MergeIntoTmp(b, lo, n1, n, t, cmp);
    ghost var s := b[..];
    ghost var moved, kept := t[..n - n2], b[lo + n - n2..lo + n];
    assert t[0..n - n2] == moved && s[lo + n - n2..lo + n] == kept;
    assert s[lo..lo + n1] == b[lo..lo + n1] && s[lo + n1..lo + n] == b[lo + n1..lo + n];
    PatchedPrefix(s, lo, moved, kept);
    Copy(t, 0, b, lo, n - n2);
  }

  lemma PatchedPrefix<T>(s: seq<T>, at: nat, x: seq<T>, rest: seq<T>)
    requires at + |x| + |rest| <= |s| && s[at + |x|..at + |x| + |rest|] == rest
    ensures Patched(s, at, x) == Patched(s, at, x + rest)
  {
    assert s[at + |x|..] == rest + s[at + |x| + |rest|..];
  }

  lemma PatchedWhole<T>(s: seq<T>, x: seq<T>)
    requires |x| == |s|
    ensures Patched(s, 0, x) == x
  {
  }

  lemma PatchedTwice<T>(s: seq<T>, lo: nat, n1: nat, n: nat, x: seq<T>, y: seq<T>, m: seq<T>)
    requires n1 <= n && lo + n <= |s| && |x| == n1 && |y| == n - n1 && |m| == n
    ensures |Patched(s, lo, x)| == |s| && Patched(s, lo, x)[lo + n1..lo + n] == s[lo + n1..lo + n]
    ensures var p := Patched(Patched(s, lo, x), lo + n1, y);
            |p| == |s| && p[lo..lo + n1] == x && p[lo + n1..lo + n] == y && Patched(p, lo, m) == Patched(s, lo, m)
  {
    var p := Patched(Patched(s, lo, x), lo + n1, y);
    assert p == s[..lo] + x + y + s[lo + n..];
  }

  /** The recursive merge sort is the stable sort of the range, and touches nothing else of b. */
  method SortWithTmp<T(!new)>(b: array<T>, lo: nat, n: nat, t: array<T>, cmp: (T, T) -> int)
    requires Comparison(cmp)
    requires b != t && lo + n <= b.Length && n <= t.Length
    modifies b, t
    ensures var sorted := StableSort(cmp, old(b[..])[lo..lo + n]);
            |sorted| == n && b[..] == Patched(old(b[..]), lo, sorted)
    decreases n
  {
    hide Comparison, StableSort, Merge, Patched;
    ghost var s := b[..];
    if n <= 1 {
      SortOne(cmp, s, lo, n);
      return;
    }
    var n1 := n / 2;
    HalvesSorted(cmp, s, lo, n1, n);
    SortWithTmp(b, lo, n1, t, cmp);
    SortWithTmp(b, lo + n1, n - n1, t, cmp);
    MergeHalves(b, lo, n1, n, t, cmp);
  }

  lemma SortOne<T>(cmp: (T, T) -> int, s: seq<T>, lo: nat, n: nat)
    requires n <= 1 && lo + n <= |s|
    ensures StableSort(cmp, s[lo..lo + n]) == s[lo..lo + n] && Patched(s, lo, s[lo..lo + n]) == s
  {
  }

  /** Sorting the left half, then the right one, then merging, patches in the sorted range. */
  lemma HalvesSorted<T(!new)>(cmp: (T, T) -> int, s: seq<T>, lo: nat, n1: nat, n: nat)
    requires Comparison(cmp) && n1 <= n && lo + n <= |s|
    ensures var x, y := StableSort(cmp, s[lo..lo + n1]), StableSort(cmp, s[lo + n1..lo + n]);
            && |x| == n1 && |y| == n - n1
            && var p := Patched(s, lo, x);
               && |p| == |s| && p[lo + n1..lo + n] == s[lo + n1..lo + n]
               && var r := Patched(p, lo + n1, y);
                  && |r| == |s|
                  && |StableSort(cmp, s[lo..lo + n])| == n
                  && Merge(cmp, r[lo..lo + n1], r[lo + n1..lo + n]) == StableSort(cmp, s[lo..lo + n])
                  && Patched(r, lo, StableSort(cmp, s[lo..lo + n])) == Patched(s, lo, StableSort(cmp, s[lo..lo + n]))
  {
    hide Comparison, StableSort, Merge, Patched;
    var x, y, z := s[lo..lo + n1], s[lo + n1..lo + n], s[lo..lo + n];
    assert z == x + y;
    MergeOfSorts(cmp, x, y);
    StableSortSize(cmp, x);
    StableSortSize(cmp, y);
    StableSortSize(cmp, z);
    PatchedTwice(s, lo, n1, n, StableSort(cmp, x), StableSort(cmp, y), StableSort(cmp, z));
  }

  lemma StableSortSize<T(!new)>(cmp: (T, T) -> int, s: seq<T>)
    requires Comparison(cmp)
    ensures |StableSort(cmp, s)| == |s|
  {
    StableSortCorrect(cmp, s);
    assert |multiset(StableSort(cmp, s))| == |multiset(s)|;
  }

  // Indirect sorting: a table of indices is sorted, then applied to the array.

  /** The table as it is first filled: entry k points at element k. */
  ghost function Iota(n: nat): seq<int> {
    seq(n, k => k)
  }

  ghost predicate Permutation(p: seq<int>) {
    && (forall k :: 0 <= k < |p| ==> 0 <= p[k] < |p|)
    && (forall j, k :: 0 <= j < k < |p| ==> p[j] != p[k])
  }

  /** q undoes p. */
  ghost predicate Inverse(p: seq<int>, q: seq<int>) {
    && |p| == |q|
    && (forall k :: 0 <= k < |p| ==> 0 <= p[k] < |p| && q[p[k]] == k)
    && (forall k :: 0 <= k < |q| ==> 0 <= q[k] < |q| && p[q[k]] == k)
  }

  lemma IotaCount(n: nat, d: int)
    ensures multiset(Iota(n))[d] == if 0 <= d < n then 1 else 0
  {
    if n > 0 {
      IotaCount(n - 1, d);
      assert Iota(n) == Iota(n - 1) + [n - 1];
    }
  }

  lemma SameElementsPermutation(p: seq<int>)
    requires multiset(p) == multiset(Iota(|p|))
    ensures Permutation(p)
    ensures forall d :: 0 <= d < |p| ==> d in p
  {
    forall k | 0 <= k < |p| ensures 0 <= p[k] < |p| {
      assert p[k] in multiset(p);
      IotaCount(|p|, p[k]);
    }
    forall j, k | 0 <= j < k < |p| ensures p[j] != p[k] {
      IotaCount(|p|, p[k]);
      assert p == p[..k] + [p[k]] + p[k + 1..];
      assert p[j] == p[..k][j];
    }
    forall d | 0 <= d < |p| ensures d in p {
      IotaCount(|p|, d);
      assert d in multiset(p);
    }
  }

  lemma InverseOf(p: seq<int>) returns (q: seq<int>)
    requires Permutation(p) && forall d :: 0 <= d < |p| ==> d in p
    ensures Inverse(p, q)
  {
    q := seq(|p|, d requires 0 <= d < |p| && d in p => IndexOf(p, d));
  }

  ghost function IndexOf(p: seq<int>, d: int): (k: int)
    requires d in p
    ensures 0 <= k < |p| && p[k] == d
  {
    var k :| 0 <= k < |p| && p[k] == d;
    k
  }

  /** The elements of s in the order the table gives. */
  ghost function Picked<T>(s: seq<T>, table: seq<int>): seq<T>
    requires InRange(table, |s|)
  {
    seq(|table|, k requires 0 <= k < |table| => s[table[k]])
  }

  /** The comparison of two table entries: it follows both pointers. */
  function Through<T>(s: seq<T>, cmp: (T, T) -> int): (int, int) -> int
    requires s != []
  {
    (i: int, j: int) => cmp(At(s, i), At(s, j))
  }

  function At<T>(s: seq<T>, i: int): T
    requires s != []
  {
    if 0 <= i < |s| then s[i] else s[0]
  }

  lemma ThroughComparison<T(!new)>(s: seq<T>, cmp: (T, T) -> int)
    requires s != [] && Comparison(cmp)
    ensures Comparison(Through(s, cmp))
  {
    var via := Through(s, cmp);
    forall x, y, z ensures Chain(via, x, y, z) {
      assert Chain(cmp, At(s, x), At(s, y), At(s, z));
    }
    forall x, y ensures via(x, y) < 0 <==> 0 < via(y, x) {
      Flip(cmp, At(s, x), At(s, y));
      Flip(cmp, At(s, y), At(s, x));
    }
  }

  ghost predicate InRange(table: seq<int>, n: nat) {
    forall k :: 0 <= k < |table| ==> 0 <= table[k] < n
  }

  lemma {:induction false} InsertThrough<T>(s: seq<T>, cmp: (T, T) -> int, x: int, table: seq<int>)
    requires s != [] && 0 <= x < |s| && InRange(table, |s|)
    ensures InRange(Insert(Through(s, cmp), x, table), |s|)
    ensures Picked(s, Insert(Through(s, cmp), x, table)) == Insert(cmp, s[x], Picked(s, table))
  {
    var via := Through(s, cmp);
    if table != [] {
      var y := table[0];
      assert 0 <= y < |s| && via(x, y) == cmp(At(s, x), At(s, y)) == cmp(s[x], Picked(s, table)[0]);
    }
    if table == [] || via(x, table[0]) <= 0 {
      assert Insert(via, x, table) == [x] + table;
      assert Picked(s, [x] + table) == [s[x]] + Picked(s, table);
    } else {
      InsertThrough(s, cmp, x, table[1..]);
      var r := Insert(via, x, table[1..]);
      assert Picked(s, table)[1..] == Picked(s, table[1..]);
      assert Picked(s, [table[0]] + r) == [s[table[0]]] + Picked(s, r);
    }
  }

  /** Sorting the pointers and following them is sorting the elements. */
  lemma {:induction false} SortThrough<T>(s: seq<T>, cmp: (T, T) -> int, table: seq<int>)
    requires s != [] && InRange(table, |s|)
    ensures InRange(StableSort(Through(s, cmp), table), |s|)
    ensures Picked(s, StableSort(Through(s, cmp), table)) == StableSort(cmp, Picked(s, table))
  {
    if table != [] {
      SortThrough(s, cmp, table[1..]);
      InsertThrough(s, cmp, table[0], StableSort(Through(s, cmp), table[1..]));
      assert Picked(s, table)[1..] == Picked(s, table[1..]);
    }
  }

  /**
   Positions in `done` hold their final element and point at themselves, all others are as
   they were.  Within the cycle of i being followed, j is the next position to fill.
   */
  ghost predicate Following<T>(b: seq<T>, tp: seq<int>, was: seq<T>, p: seq<int>, q: seq<int>, done: set<int>,
      i: int, j: int)
  {
    && |b| == |tp| == |was| == |p| && Inverse(p, q)
    && (forall k :: k in done ==> 0 <= k < |p|)
    && (forall k :: 0 <= k < |p| ==>
          if k in done then b[k] == was[p[k]] && tp[k] == k else b[k] == was[k] && tp[k] == p[k])
    && (forall k :: k in done ==> (p[k] in done || p[k] == j) && (q[k] in done || k == i))
    && (0 <= j < |p| ==> j !in done && (j == i || (i in done && q[j] in done)))
  }

  lemma FollowStep<T>(b: seq<T>, tp: seq<int>, was: seq<T>, p: seq<int>, q: seq<int>, done: set<int>, i: int, j: int)
    requires Following(b, tp, was, p, q, done, i, j) && 0 <= i < |p| && 0 <= j < |p| && p[j] != i
    ensures p[j] !in done && p[j] != j
    ensures Following(b[j := b[p[j]]], tp[j := j], was, p, q, done + {j}, i, p[j])
  {
    assert q[p[j]] == j;
  }

  lemma FollowEnd<T>(b: seq<T>, tp: seq<int>, was: seq<T>, p: seq<int>, q: seq<int>, done: set<int>, i: int, j: int)
    requires Following(b, tp, was, p, q, done, i, j) && 0 <= i < |p| && 0 <= j < |p| && p[j] == i
    ensures Following(b[j := was[i]], tp[j := j], was, p, q, done + {j}, -1, -1)
  {
    assert q[p[j]] == j;
  }

  lemma FollowStart<T>(b: seq<T>, tp: seq<int>, was: seq<T>, p: seq<int>, q: seq<int>, done: set<int>, i: int)
    requires Following(b, tp, was, p, q, done, -1, -1) && 0 <= i < |p| && i !in done
    ensures Following(b, tp, was, p, q, done, i, i)
  {
  }

  lemma FollowFixed<T>(b: seq<T>, tp: seq<int>, was: seq<T>, p: seq<int>, q: seq<int>, done: set<int>, i: int)
    requires Following(b, tp, was, p, q, done, -1, -1) && 0 <= i < |p| && tp[i] == i
    ensures Following(b, tp, was, p, q, done + {i}, -1, -1)
  {
    if i !in done {
      assert q[p[i]] == i;
    }
  }

  lemma FollowNone<T>(was: seq<T>, p: seq<int>) returns (q: seq<int>)
    requires |was| == |p| && multiset(p) == multiset(Iota(|p|))
    ensures Following(was, p, was, p, q, {}, -1, -1)
  {
    SameElementsPermutation(p);
    q := InverseOf(p);
  }

  lemma FollowAll<T>(b: seq<T>, tp: seq<int>, was: seq<T>, p: seq<int>, q: seq<int>, done: set<int>)
    requires Following(b, tp, was, p, q, done, -1, -1) && forall k :: 0 <= k < |p| ==> k in done
    ensures InRange(p, |was|) && b == Picked(was, p)
  {
  }

  /** Follows the cycle of position i; it closes because every step fills a new position. */
  method FollowCycle<T>(b: array<T>, tp: array<int>, i: int, ghost was: seq<T>, ghost p: seq<int>, ghost q: seq<int>,
                        ghost done: set<int>) returns (ghost done': set<int>)
    requires b.Length == tp.Length && Following(b[..], tp[..], was, p, q, done, -1, -1)
    requires 0 <= i < b.Length && tp[i] != i && b as object != tp
    modifies b, tp
    ensures done <= done' && i in done'
    ensures Following(b[..], tp[..], was, p, q, done', -1, -1)
  {
    done' := done;
    FollowStart(b[..], tp[..], was, p, q, done, i);
    var j, kp, stored := i, tp[i], b[i];
    while kp != i
      invariant 0 <= j < b.Length && Following(b[..], tp[..], was, p, q, done', i, j)
      invariant kp == p[j] && done <= done' && stored == was[i]
      decreases (set k | k in Iota(b.Length)) - done'
    {
      assert Iota(b.Length)[j] == j;
      var k := kp;
      FollowStep(b[..], tp[..], was, p, q, done', i, j);
      ghost var b0, tp0 := b[..], tp[..];
      tp[j] := j;
      b[j] := b[k];
      assert b[..] == b0[j := b0[k]] && tp[..] == tp0[j := j];
      done' := done' + {j};
      j := k;
      kp := tp[k];
    }
    FollowEnd(b[..], tp[..], was, p, q, done', i, j);
    ghost var b0, tp0 := b[..], tp[..];
    tp[j] := j;
    b[j] := stored;
    assert b[..] == b0[j := was[i]] && tp[..] == tp0[j := j];
    done' := done' + {j};
  }

  /** Permutes the array in place so that position k gets the element that table entry k names. */
  method ApplyTable<T>(b: array<T>, tp: array<int>)
    requires b.Length == tp.Length && b as object != tp
    requires multiset(tp[..]) == multiset(Iota(tp.Length)) && InRange(tp[..], b.Length)
    modifies b, tp
    ensures b[..] == Picked(old(b[..]), old(tp[..]))
  {
    hide Following, Picked, Iota, InRange;
    ghost var q := FollowNone(b[..], tp[..]);
    FollowCycles(b, tp, q);
  }

  method FollowCycles<T>(b: array<T>, tp: array<int>, ghost q: seq<int>)
    requires b.Length == tp.Length && b as object != tp
    requires Following(b[..], tp[..], b[..], tp[..], q, {}, -1, -1) && InRange(tp[..], b.Length)
    modifies b, tp
    ensures b[..] == Picked(old(b[..]), old(tp[..]))
  {
    hide Following, Picked, InRange;
    ghost var was, p := b[..], tp[..];
    ghost var done: set<int> := {};
    for i := 0 to b.Length
      invariant Following(b[..], tp[..], was, p, q, done, -1, -1)
      invariant forall k :: 0 <= k < i ==> k in done
    {
      if tp[i] != i {
        done := FollowCycle(b, tp, i, was, p, q, done);
      } else {
        FollowFixed(b[..], tp[..], was, p, q, done, i);
        done := done + {i};
      }
    }
    FollowAll(b[..], tp[..], was, p, q, done);
  }

  /** Fills and sorts the table of pointers for the elements of s. */
  method SortedTable<T(!new)>(s: seq<T>, cmp: (T, T) -> int) returns (tp: array<int>)
    requires Comparison(cmp) && s != []
    ensures fresh(tp) && tp.Length == |s|
    ensures tp[..] == StableSort(Through(s, cmp), Iota(|s|))
  {
    var n := |s|;
    tp := new int[n];
    var tmp := new int[n];
    var k := 0;
    while k < n
      invariant 0 <= k <= n && forall i :: 0 <= i < k ==> tp[i] == i
    {
      tp[k] := k;
      k := k + 1;
    }
    ThroughComparison(s, cmp);
    assert tp[..] == Iota(n) && tp[..][0..0 + n] == tp[..];
    SortWithTmp(tp, 0, n, tmp, Through(s, cmp));
    PatchedWhole(Iota(n), StableSort(Through(s, cmp), Iota(n)));
  }

  /** Indirect sorting gives the same result as direct sorting. */
  method SortIndirect<T(!new)>(b: array<T>, cmp: (T, T) -> int)
    requires Comparison(cmp)
    modifies b
    ensures b[..] == StableSort(cmp, old(b[..]))
  {
    if b.Length == 0 {
      return;
    }
    var s := b[..];
    var tp := SortedTable(s, cmp);
    ThroughComparison(s, cmp);
    StableSortCorrect(Through(s, cmp), Iota(|s|));
    SortThrough(s, cmp, Iota(|s|));
    assert Picked(s, Iota(|s|)) == s;
    ApplyTable(b, tp);
  }

  /** The temporary space qsort asks for. */
  function TmpBytes(n: nat, size: nat): nat {
    if size > 32 then 2 * n * 8 + size else n * size
  }

  lemma TmpHolds(n: nat, size: nat)
    requires size > 0
    ensures n <= TmpBytes(n, size)
  {
    Arith.MulMonotone(1, size, n);
  }

  /**
   qsort: always a sorted rearrangement; the stable one whenever the temporary space is
   small enough for the stack or can be allocated.  tmp is that space, scratch contents and all.
   */
  method Qsort<T(!new)>(b: array<T>, size: nat, cmp: (T, T) -> int, tmp: array<T>, mallocOk: bool)
    requires Comparison(cmp)
    requires size > 0 && TmpBytes(b.Length, size) <= Quicksort.SIZE_MAX
    requires b != tmp && tmp.Length >= b.Length
    modifies b, tmp
    ensures Sorted(cmp, b[..]) && multiset(b[..]) == multiset(old(b[..]))
    ensures TmpBytes(b.Length, size) < 1024 || mallocOk ==> b[..] == StableSort(cmp, old(b[..]))
  {
    hide Comparison, StableSort, Sorted, SameClasses, Patched;
    TmpHolds(b.Length, size);
    hide TmpBytes;
    ghost var s := b[..];
    StableSortCorrect(cmp, s);
    if TmpBytes(b.Length, size) >= 1024 && !mallocOk {
      Quicksort.Sort(b, cmp);
    } else if size > 32 {
      SortIndirect(b, cmp);
    } else {
      assert s[0..0 + b.Length] == s;
      SortWithTmp(b, 0, b.Length, tmp, cmp);
      PatchedWhole(s, StableSort(cmp, s));
    }
  }
}
