/**
 lib/qsort2_7.c: the in-place quicksort with an explicit stack of pending parts, a
 median-of-three pivot, and a final insertion sort whose inner loop has no bounds test.
 Array positions stand for element addresses.
 */
module Quicksort {
  import opened Order
  import opened Arith

  const MAX_THRESH: int := 4
  const STACK_SIZE: int := 64
  const SIZE_MAX: int := 0xFFFF_FFFF_FFFF_FFFF

  /** t differs from s only by a rearrangement of the elements at lo..hi-1. */
  ghost predicate Rearranged<T>(s: seq<T>, t: seq<T>, lo: int, hi: int) {
    && |s| == |t| && 0 <= lo <= hi <= |s|
    && s[..lo] == t[..lo] && s[hi..] == t[hi..]
    && multiset(s[lo..hi]) == multiset(t[lo..hi])
  }

  function Swapped<T>(s: seq<T>, i: int, j: int): seq<T>
    requires 0 <= i < |s| && 0 <= j < |s|
  {
    s[i := s[j]][j := s[i]]
  }

  lemma SwapRearranges<T>(s: seq<T>, t: seq<T>, i: int, j: int, lo: int, hi: int)
    requires Rearranged(s, t, lo, hi) && lo <= i < hi && lo <= j < hi
    ensures Rearranged(s, Swapped(t, i, j), lo, hi)
  {
    var u := Swapped(t, i, j);
    assert u[lo..hi] == Swapped(t[lo..hi], i - lo, j - lo);
    assert u[..lo] == t[..lo] && u[hi..] == t[hi..];
  }

  lemma RearrangedElements<T>(s: seq<T>, t: seq<T>, lo: int, hi: int)
    requires Rearranged(s, t, lo, hi)
    ensures multiset(s) == multiset(t)
    ensures forall i :: lo <= i < hi ==> t[i] in s[lo..hi]
    ensures forall i :: 0 <= i < lo || hi <= i < |s| ==> t[i] == s[i]
  {
    assert s == s[..lo] + s[lo..hi] + s[hi..];
    assert t == t[..lo] + t[lo..hi] + t[hi..];
    forall i | lo <= i < hi ensures t[i] in s[lo..hi] {
      assert t[i] == t[lo..hi][i - lo];
      assert t[i] in multiset(t[lo..hi]);
    }
    forall i | 0 <= i < lo ensures t[i] == s[i] {
      assert t[i] == t[..lo][i] && s[i] == s[..lo][i];
    }
    forall i | hi <= i < |s| ensures t[i] == s[i] {
      assert t[i] == t[hi..][i - hi] && s[i] == s[hi..][i - hi];
    }
  }

  lemma RearrangedSame<T>(s: seq<T>, lo: int, hi: int)
    requires 0 <= lo <= hi <= |s|
    ensures Rearranged(s, s, lo, hi)
  {
  }

  /** Exchanges two elements of a part that is being rearranged since `was`. */
  method Swap<T>(a: array<T>, i: int, j: int, ghost was: seq<T>, ghost lo: int, ghost hi: int)
    requires Rearranged(was, a[..], lo, hi) && lo <= i < hi && lo <= j < hi
    modifies a
    ensures Rearranged(was, a[..], lo, hi)
    ensures a[i] == old(a[j]) && a[j] == old(a[i])
    ensures forall k :: 0 <= k < a.Length && k != i && k != j ==> a[k] == old(a[k])
  {
    SwapRearranges(was, a[..], i, j, lo, hi);
    ghost var s := a[..];
    a[i], a[j] := a[j], a[i];
    assert a[..] == Swapped(s, i, j);
  }

  /** Everything left of `left` is at most everything right of `right`. */
  ghost predicate Split<T>(cmp: (T, T) -> int, s: seq<T>, lo: int, right: int, left: int, hi: int)
    requires 0 <= lo && left <= |s| && -1 <= right && hi < |s|
  {
    forall i, j :: lo <= i < left && right < j <= hi ==> cmp(s[i], s[j]) <= 0
  }

  lemma SplitAt<T(!new)>(cmp: (T, T) -> int, s: seq<T>, v: T, lo: int, right: int, left: int, hi: int)
    requires Comparison(cmp)
    requires 0 <= lo && left <= |s| && -1 <= right && hi < |s|
    requires forall i :: lo <= i < left ==> cmp(s[i], v) <= 0
    requires forall i :: right < i <= hi ==> cmp(v, s[i]) <= 0
    ensures Split(cmp, s, lo, right, left, hi)
  {
    forall i, j | lo <= i < left && right < j <= hi ensures cmp(s[i], s[j]) <= 0 {
      assert Chain(cmp, s[i], v, s[j]);
    }
  }

  /**
   One pass of the main loop: median of three, then the two scans that collapse on each
   other.  The scans carry no bounds tests; every array access here is proved in lo..hi.
   */
  method Partition<T(!new)>(a: array<T>, cmp: (T, T) -> int, lo: int, hi: int) returns (left: int, right: int)
    requires Comparison(cmp)
    requires 0 <= lo && lo + 2 <= hi < a.Length
    modifies a
    ensures lo <= right < left <= hi && lo < left && right < hi
    ensures Split(cmp, a[..], lo, right, left, hi)
    ensures Rearranged(old(a[..]), a[..], lo, hi + 1)
  {
    hide Rearranged, Split;
    ghost var was := a[..];
    var mid := Median(a, cmp, lo, hi);
    ghost var v := a[mid];
    left, right := lo + 1, hi - 1;
    while left <= right
      invariant lo < left <= hi && lo <= right < hi && lo <= mid <= hi && a[mid] == v
      invariant forall i :: lo <= i < left ==> cmp(a[i], v) <= 0
      invariant forall i :: right < i <= hi ==> cmp(v, a[i]) <= 0
      invariant Rearranged(was, a[..], lo, hi + 1)
      decreases right - left
    {
      while cmp(a[left], a[mid]) < 0
        invariant lo < left <= hi
        invariant forall i :: lo <= i < left ==> cmp(a[i], v) <= 0
        decreases hi - left
      {
        left := left + 1;
      }
      while cmp(a[mid], a[right]) < 0
        invariant lo <= right < hi
        invariant forall i :: right < i <= hi ==> cmp(v, a[i]) <= 0
        decreases right
      {
        right := right - 1;
      }
      if left < right {
        Swap(a, left, right, was, lo, hi + 1);
        if mid == left {
          mid := right;
        } else if mid == right {
          mid := left;
        }
        left, right := left + 1, right - 1;
      } else if left == right {
        left, right := left + 1, right - 1;
      }
    }
    SplitAt(cmp, a[..], v, lo, right, left, hi);
  }

  /** Orders the first, middle and last element of the part and returns the middle position. */
  method Median<T(!new)>(a: array<T>, cmp: (T, T) -> int, lo: int, hi: int) returns (mid: int)
    requires Comparison(cmp)
    requires 0 <= lo && lo + 2 <= hi < a.Length
    modifies a
    ensures lo < mid < hi
    ensures cmp(a[lo], a[mid]) <= 0 && cmp(a[mid], a[hi]) <= 0
    ensures Rearranged(old(a[..]), a[..], lo, hi + 1)
  {
    hide Rearranged, Comparison;
    mid := lo + (hi - lo) / 2;
    ghost var was := a[..];
    RearrangedSame(was, lo, hi + 1);
    InOrder(a, cmp, lo, mid, was, lo, hi + 1);
    if cmp(a[hi], a[mid]) < 0 {
      Flip(cmp, a[mid], a[hi]);
      Swap(a, mid, hi, was, lo, hi + 1);
      InOrder(a, cmp, lo, mid, was, lo, hi + 1);
    }
    Flip(cmp, a[hi], a[mid]);
    Flip(cmp, a[mid], a[hi]);
  }

  /** Exchanges two elements if the second is below the first. */
  method InOrder<T(!new)>(a: array<T>, cmp: (T, T) -> int, i: int, j: int, ghost was: seq<T>, ghost lo: int,
      ghost hi: int)
    requires Comparison(cmp)
    requires Rearranged(was, a[..], lo, hi) && 0 <= lo <= i < j < hi <= a.Length
    modifies a
    ensures Rearranged(was, a[..], lo, hi)
    ensures cmp(a[i], a[j]) <= 0
    ensures (a[i] == old(a[i]) && a[j] == old(a[j])) || (a[i] == old(a[j]) && a[j] == old(a[i]))
    ensures forall k :: 0 <= k < a.Length && k != i && k != j ==> a[k] == old(a[k])
  {
    hide Rearranged;
    if cmp(a[j], a[i]) < 0 {
      Swap(a, i, j, was, lo, hi);
    }
  }

  /** A part of the array still to be partitioned; both ends are inside it. */
  datatype Part = Part(lo: int, hi: int)

  /** The elements at 0..b are the lowest ones. */
  ghost predicate Bottom<T>(cmp: (T, T) -> int, s: seq<T>, b: int) {
    && 0 <= b < |s|
    && forall i, j :: 0 <= i <= b < j < |s| ==> cmp(s[i], s[j]) <= 0
  }

  lemma BottomKept<T>(cmp: (T, T) -> int, s: seq<T>, t: seq<T>, b: int, lo: int, hi: int)
    requires Bottom(cmp, s, b) && Rearranged(s, t, lo, hi + 1)
    requires b < lo || (lo == 0 && hi == b)
    ensures Bottom(cmp, t, b)
  {
    RearrangedElements(s, t, lo, hi + 1);
    forall i, j | 0 <= i <= b < j < |t| ensures cmp(t[i], t[j]) <= 0 {
      if b < lo {
        assert t[i] == s[i];
        if lo <= j <= hi {
          assert t[j] in s[lo..hi + 1];
        }
      } else {
        assert t[i] in s[lo..hi + 1];
      }
    }
  }

  /**
   The pending parts: entries 1..top-1 of the stack (entry 0 is the end mark) and the
   current part.  At most one of them, `first` (0 for the current one), starts the array,
   and it is 0..b; every other one lies above b.  Entry k is at most n / 2^(k-1) long.
   */
  ghost predicate Pending(stack: seq<Part>, top: int, cur: Part, n: int, b: int, first: int) {
    && |stack| == STACK_SIZE && 1 <= top <= STACK_SIZE && -1 <= first < top
    && (first == -1 ==> b <= MAX_THRESH)
    && (forall k :: 1 <= k < top ==> PendingPart(stack[k], n, b, first == k, k - 1))
    && PendingPart(cur, n, b, first == 0, top - 1)
  }

  ghost predicate PendingPart(p: Part, n: int, b: int, first: bool, level: nat) {
    && 0 <= p.lo && p.lo + MAX_THRESH <= p.hi < n
    && (if first then p.lo == 0 && p.hi == b else b < p.lo)
    && Fits(p.hi - p.lo + 1, level, n)
  }

  /** A part of this size fits n at least 2^level times over. */
  ghost predicate Fits(size: int, level: nat, n: int) {
    size * Pow2(level) <= n
  }

  lemma Shorter(size: int, less: int, level: nat, n: int)
    requires 0 <= less <= size && Fits(size, level, n)
    ensures Fits(less, level, n)
    ensures 2 * less <= size ==> Fits(less, level + 1, n)
  {
    assert less * Pow2(level) <= size * Pow2(level);
    if 2 * less <= size {
      assert less * Pow2(level + 1) == (2 * less) * Pow2(level);
      assert (2 * less) * Pow2(level) <= size * Pow2(level);
    }
  }

  /** Parts at the depth limit would be longer than any array. */
  lemma StackHasRoom(stack: seq<Part>, top: int, cur: Part, n: int, b: int, first: int)
    requires Pending(stack, top, cur, n, b, first) && n <= SIZE_MAX
    ensures top < STACK_SIZE - 1
  {
    FitsBelow(cur.hi - cur.lo + 1, top - 1, n);
  }

  lemma FitsBelow(size: int, level: nat, n: int)
    requires Fits(size, level, n) && MAX_THRESH < size && n <= SIZE_MAX
    ensures level < STACK_SIZE - 2
  {
    if level >= 62 {
      Pow2Monotone(62, level);
      Pow2Values();
      AtLeast(size, 5, Pow2(level));
    }
  }

  lemma AtLeast(x: int, y: int, w: nat)
    requires y <= x
    ensures y * w <= x * w
  {
  }

  /** Bounds the number of partition passes still to come. */
  ghost function Work(parts: seq<Part>): nat {
    if parts == [] then 0 else Work(parts[..|parts| - 1]) + Weight(parts[|parts| - 1])
  }

  lemma WorkPush(parts: seq<Part>, p: Part)
    ensures Work(parts + [p]) == Work(parts) + Weight(p)
  {
    assert (parts + [p])[..|parts|] == parts;
  }

  ghost function Weight(p: Part): nat {
    if p.lo <= p.hi then 2 * (p.hi - p.lo) + 1 else 0
  }

  /** The work that the current part and those pending stand for. */
  ghost function Remaining(stack: seq<Part>, top: int, cur: Part): nat
    requires 1 <= top <= |stack|
  {
    Weight(cur) + Work(stack[1..top])
  }

  lemma PopRemaining(stack: seq<Part>, top: int, cur: Part)
    requires 2 <= top <= |stack| && Weight(cur) > 0
    ensures Remaining(stack, top - 1, stack[top - 1]) < Remaining(stack, top, cur)
  {
    hide Work, Weight;
    WorkPush(stack[1..top - 1], stack[top - 1]);
    assert stack[1..top - 1] + [stack[top - 1]] == stack[1..top];
  }

  lemma PushRemaining(stack: seq<Part>, top: int, cur: Part, longer: Part, cur': Part)
    requires 1 <= top < |stack| && Weight(longer) + Weight(cur') < Weight(cur)
    ensures Remaining(stack[top := longer], top + 1, cur') < Remaining(stack, top, cur)
  {
    hide Work, Weight;
    WorkPush(stack[1..top], longer);
    assert stack[top := longer][1..top + 1] == stack[1..top] + [longer];
  }

  lemma PopPending(stack: seq<Part>, top: int, cur: Part, n: int, b: int, b': int, first: int, first': int)
    requires Pending(stack, top, cur, n, b, first) && top > 1
    requires first == 0 ==> b' <= b && b' <= MAX_THRESH
    requires first != 0 ==> b' == b
    requires first' == if first == 0 then -1 else if first == top - 1 then 0 else first
    ensures Pending(stack, top - 1, stack[top - 1], n, b', first')
  {
    forall k | 1 <= k < top ensures PendingPart(stack[k], n, b', first == k, k - 1) {
      assert PendingPart(stack[k], n, b, first == k, k - 1);
    }
  }

  /** Work goes on with part of the current part. */
  lemma Narrow(stack: seq<Part>, top: int, cur: Part, cur': Part, n: int, b: int, b': int, first: int, first': int)
    requires Pending(stack, top, cur, n, b, first)
    requires cur.lo <= cur'.lo && cur'.lo + MAX_THRESH <= cur'.hi <= cur.hi
    requires if first == 0 then b' <= b && (if first' == 0 then cur'.lo == cur.lo && cur'.hi == b'
                                            else first' == -1 && b' <= MAX_THRESH && b' < cur'.lo)
             else b' == b && first' == first
    ensures Pending(stack, top, cur', n, b', first')
  {
    assert PendingPart(cur, n, b, first == 0, top - 1);
    Shorter(cur.hi - cur.lo + 1, cur'.hi - cur'.lo + 1, top - 1, n);
    hide Fits;
    forall k | 1 <= k < top ensures PendingPart(stack[k], n, b', first' == k, k - 1) {
      assert PendingPart(stack[k], n, b, first == k, k - 1);
    }
  }

  lemma PushPending(stack: seq<Part>, top: int, cur: Part, p: Part, cur': Part,
                    n: int, b: int, b': int, first: int, first': int)
    requires Pending(stack, top, cur, n, b, first) && top < STACK_SIZE
    requires PendingPart(p, n, b', first' == top, top - 1)
    requires PendingPart(cur', n, b', first' == 0, top)
    requires if first == 0 then b' <= b && first' in {0, top} else b' == b && first' == first
    ensures Pending(stack[top := p], top + 1, cur', n, b', first')
  {
    forall k | 1 <= k < top ensures PendingPart(stack[k], n, b', first' == k, k - 1) {
      assert PendingPart(stack[k], n, b, first == k, k - 1);
    }
  }

  /**
   What the code does with the two halves of a partitioned part: drop the ones within the
   threshold, put the longer of two others on the stack, and go on with the other one.
   */
  method NextPart(stack: array<Part>, top: int, cur: Part, left: int, right: int,
                  ghost n: int, ghost b: int, ghost first: int)
    returns (top': int, cur': Part, ghost b': int, ghost first': int)
    requires Pending(stack[..], top, cur, n, b, first) && n <= SIZE_MAX
    requires cur.lo <= right < left <= cur.hi && cur.lo < left && right < cur.hi
    modifies stack
    ensures 0 <= top' < STACK_SIZE
    ensures top' > 0 ==> Pending(stack[..], top', cur', n, b', first')
    ensures top' == 0 ==> b' <= MAX_THRESH
    ensures top' > 0 ==> stack.Length == STACK_SIZE && 1 <= top <= STACK_SIZE
    ensures top' > 0 ==> Remaining(stack[..], top', cur') < old(Remaining(stack[..], top, cur))
    ensures b' == if first == 0 then right else b
  {
    StackHasRoom(stack[..], top, cur, n, b, first);
    PendingBounds(stack[..], top, cur, n, b, first);
    hide Pending, PendingPart, Work;
    b' := if first == 0 then right else b;
    var lo, hi := cur.lo, cur.hi;
    ghost var was := stack[..];
    if right - lo <= MAX_THRESH {
      if hi - left <= MAX_THRESH {
        top' := top - 1;
        cur' := stack[top'];
        first' := if first == 0 then -1 else if first == top' then 0 else first;
        if top' > 0 {
          PopPending(was, top, cur, n, b, b', first, first');
          PopRemaining(was, top, cur);
        }
      } else {
        top', cur' := top, Part(left, hi);
        first' := if first == 0 then -1 else first;
        Narrow(was, top, cur, cur', n, b, b', first, first');
      }
    } else if hi - left <= MAX_THRESH {
      top', cur', first' := top, Part(lo, right), first;
      Narrow(was, top, cur, cur', n, b, b', first, first');
    } else {
      top', cur', first' := PushLonger(stack, top, cur, left, right, n, b, first);
    }
  }

  method PushLonger(stack: array<Part>, top: int, cur: Part, left: int, right: int,
                    ghost n: int, ghost b: int, ghost first: int)
    returns (top': int, cur': Part, ghost first': int)
    requires Pending(stack[..], top, cur, n, b, first) && top < STACK_SIZE - 1
    requires cur.lo <= right < left <= cur.hi
    requires right - cur.lo > MAX_THRESH && cur.hi - left > MAX_THRESH
    modifies stack
    ensures 0 < top' < STACK_SIZE
    ensures Pending(stack[..], top', cur', n, if first == 0 then right else b, first')
    ensures stack.Length == STACK_SIZE && 1 <= top <= STACK_SIZE
    ensures Remaining(stack[..], top', cur') < old(Remaining(stack[..], top, cur))
  {
    hide Pending, Remaining;
    PendingBounds(stack[..], top, cur, n, b, first);
    ghost var was := stack[..];
    var longer;
    if right - cur.lo > cur.hi - left {
      longer, cur' := Part(cur.lo, right), Part(left, cur.hi);
      first' := if first == 0 then top else first;
    } else {
      longer, cur' := Part(left, cur.hi), Part(cur.lo, right);
      first' := first;
    }
    LongerPending(was, top, cur, left, right, longer, cur', n, b, first, first');
    PushRemaining(was, top, cur, longer, cur');
    stack[top] := longer;
    top' := top + 1;
    assert stack[..] == was[top := longer];
  }

  lemma LongerPending(stack: seq<Part>, top: int, cur: Part, left: int, right: int, longer: Part, cur': Part,
                      n: int, b: int, first: int, first': int)
    requires Pending(stack, top, cur, n, b, first) && top < STACK_SIZE - 1
    requires cur.lo <= right < left <= cur.hi
    requires right - cur.lo > MAX_THRESH && cur.hi - left > MAX_THRESH
    requires if right - cur.lo > cur.hi - left
             then longer == Part(cur.lo, right) && cur' == Part(left, cur.hi)
               && first' == (if first == 0 then top else first)
             else longer == Part(left, cur.hi) && cur' == Part(cur.lo, right) && first' == first
    ensures Pending(stack[top := longer], top + 1, cur', n, if first == 0 then right else b, first')
  {
    hide Fits;
    Shorter(cur.hi - cur.lo + 1, cur.hi - left + 1, top - 1, n);
    Shorter(cur.hi - cur.lo + 1, right - cur.lo + 1, top - 1, n);
    PushPending(stack, top, cur, longer, cur', n, b, if first == 0 then right else b, first, first');
  }

  /** s with the element at run moved down to position to. */
  ghost function Rotated<T>(s: seq<T>, to: int, run: int): seq<T>
    requires 0 <= to <= run < |s|
  {
    s[..to] + [s[run]] + s[to..run] + s[run + 1..]
  }

  lemma RotatedInPlace<T>(s: seq<T>, run: int)
    requires 0 <= run < |s|
    ensures Rotated(s, run, run) == s
  {
  }

  lemma RotatedElements<T>(s: seq<T>, to: int, run: int)
    requires 0 <= to <= run < |s|
    ensures multiset(Rotated(s, to, run)) == multiset(s)
  {
    var a, b, c := s[..to], s[to..run], s[run + 1..];
    assert s == a + b + [s[run]] + c;
    assert multiset(a + b + [s[run]] + c) == multiset(a) + multiset(b) + multiset{s[run]} + multiset(c);
    assert multiset(a + [s[run]] + b + c) == multiset(a) + multiset{s[run]} + multiset(b) + multiset(c);
  }

  lemma RotatedSorted<T(!new)>(cmp: (T, T) -> int, s: seq<T>, to: int, run: int)
    requires Comparison(cmp)
    requires 0 < to <= run < |s| && Sorted(cmp, s[..run])
    requires cmp(s[run], s[to - 1]) >= 0
    requires forall k :: to <= k < run ==> cmp(s[run], s[k]) < 0
    ensures Sorted(cmp, Rotated(s, to, run)[..run + 1])
  {
    var r := Rotated(s, to, run)[..run + 1];
    assert forall i, j :: 0 <= i < j < run ==> cmp(s[i], s[j]) <= 0 by {
      assert forall i :: 0 <= i < run ==> s[i] == s[..run][i];
    }
    forall i | 0 <= i < to ensures cmp(s[i], s[run]) <= 0 {
      assert Chain(cmp, s[i], s[to - 1], s[run]);
    }
    assert forall k :: 0 <= k <= run ==> r[k] == if k < to then s[k] else if k == to then s[run] else s[k - 1];
  }

  lemma RotatedMinimum<T>(cmp: (T, T) -> int, s: seq<T>, to: int, run: int)
    requires 0 < to <= run < |s|
    requires forall k :: 0 <= k < |s| ==> cmp(s[0], s[k]) <= 0
    ensures |Rotated(s, to, run)| == |s| && Rotated(s, to, run)[0] == s[0]
    ensures forall k :: 0 <= k < |s| ==> cmp(s[0], Rotated(s, to, run)[k]) <= 0
  {
    var r := Rotated(s, to, run);
    assert forall k :: 0 <= k < |s| ==> r[k] == s[if k == to then run else if to < k <= run then k - 1 else k];
  }

  /** The byte-wise rotation at the end of an insertion, at the level of elements. */
  method Rotate<T>(a: array<T>, to: int, run: int)
    requires 0 <= to <= run < a.Length
    modifies a
    ensures a[..] == Rotated(old(a[..]), to, run)
  {
    hide Rotated;
    ghost var s := a[..];
    var c := a[run];
    var hi := run;
    while hi > to
      invariant to <= hi <= run
      invariant forall k :: hi < k <= run ==> a[k] == s[k - 1]
      invariant forall k :: 0 <= k <= hi || run < k < a.Length ==> a[k] == s[k]
    {
      a[hi] := a[hi - 1];
      hi := hi - 1;
    }
    a[hi] := c;
    RotatedAt(s, a[..], to, run);
  }

  lemma RotatedAt<T>(s: seq<T>, t: seq<T>, to: int, run: int)
    requires 0 <= to <= run < |s| == |t|
    requires t[to] == s[run] && forall k :: to < k <= run ==> t[k] == s[k - 1]
    requires forall k :: 0 <= k < to || run < k < |t| ==> t[k] == s[k]
    ensures t == Rotated(s, to, run)
  {
  }

  /** Puts the smallest element first; it is within the threshold because 0..b are the lowest. */
  method PlaceMinimum<T(!new)>(a: array<T>, cmp: (T, T) -> int, ghost b: int)
    requires Comparison(cmp)
    requires Bottom(cmp, a[..], b) && b <= MAX_THRESH
    modifies a
    ensures forall k :: 0 <= k < a.Length ==> cmp(a[0], a[k]) <= 0
    ensures multiset(a[..]) == multiset(old(a[..]))
  {
    var thresh := if a.Length - 1 < MAX_THRESH then a.Length - 1 else MAX_THRESH;
    var tmp, run := 0, 1;
    while run <= thresh
      invariant 0 <= tmp < run <= thresh + 1
      invariant forall k :: 0 <= k < run ==> cmp(a[tmp], a[k]) <= 0
    {
      if cmp(a[run], a[tmp]) < 0 {
        forall k | 0 <= k < run ensures cmp(a[run], a[k]) <= 0 {
          assert Chain(cmp, a[run], a[tmp], a[k]);
        }
        tmp := run;
      }
      run := run + 1;
    }
    ghost var was := a[..];
    LowestOfAll(cmp, was, b, thresh, tmp);
    if tmp != 0 {
      hide Bottom, Comparison;
      Swap(a, tmp, 0, was, 0, a.Length);
      RearrangedElements(was, a[..], 0, a.Length);
    }
  }

  lemma LowestOfAll<T(!new)>(cmp: (T, T) -> int, s: seq<T>, b: int, thresh: int, m: int)
    requires Comparison(cmp) && Bottom(cmp, s, b) && b <= MAX_THRESH && 0 <= m <= thresh < |s|
    requires thresh == if |s| - 1 < MAX_THRESH then |s| - 1 else MAX_THRESH
    requires forall k :: 0 <= k <= thresh ==> cmp(s[m], s[k]) <= 0
    ensures forall k :: 0 <= k < |s| ==> cmp(s[m], s[k]) <= 0
  {
    forall k | thresh < k < |s| ensures cmp(s[m], s[k]) <= 0 {
      assert cmp(s[0], s[k]) <= 0;
      assert Chain(cmp, s[m], s[0], s[k]);
    }
  }

  /** Inserts a[run] into the sorted elements below it; a[0] stops the scan. */
  method InsertOne<T(!new)>(a: array<T>, cmp: (T, T) -> int, run: int)
    requires Comparison(cmp)
    requires 1 <= run < a.Length && Sorted(cmp, a[..run])
    requires forall k :: 0 <= k < a.Length ==> cmp(a[0], a[k]) <= 0
    modifies a
    ensures Sorted(cmp, a[..run + 1])
    ensures forall k :: 0 <= k < a.Length ==> cmp(a[0], a[k]) <= 0
    ensures multiset(a[..]) == multiset(old(a[..]))
  {
    hide Comparison, Rotated, Sorted;
    Flip(cmp, a[0], a[run]);
    var tmp := run - 1;
    while cmp(a[run], a[tmp]) < 0
      invariant 0 <= tmp < run
      invariant forall k :: tmp < k < run ==> cmp(a[run], a[k]) < 0
      decreases tmp
    {
      tmp := tmp - 1;
    }
    tmp := tmp + 1;
    ghost var s := a[..];
    assert s[..run] == a[..run];
    RotatedElements(s, tmp, run);
    RotatedSorted(cmp, s, tmp, run);
    if tmp != run {
      Rotate(a, tmp, run);
    } else {
      RotatedInPlace(s, run);
    }
    assert a[..][..run + 1] == a[..run + 1];
    RotatedMinimum(cmp, s, tmp, run);
    assert forall k :: 0 <= k < a.Length ==> a[k] == a[..][k];
  }

  /** Insertion sort, starting with the two sorted elements that PlaceMinimum leaves in front. */
  method InsertionSort<T(!new)>(a: array<T>, cmp: (T, T) -> int, ghost b: int)
    requires Comparison(cmp)
    requires Bottom(cmp, a[..], b) && b <= MAX_THRESH
    modifies a
    ensures Sorted(cmp, a[..])
    ensures multiset(a[..]) == multiset(old(a[..]))
  {
    PlaceMinimum(a, cmp, b);
    var run := 1;
    while run + 1 < a.Length
      invariant 1 <= run && (a.Length > 1 ==> run < a.Length)
      invariant forall k :: 0 <= k < a.Length ==> cmp(a[0], a[k]) <= 0
      invariant Sorted(cmp, a[..if run < a.Length then run + 1 else 1])
      invariant multiset(a[..]) == multiset(old(a[..]))
    {
      run := run + 1;
      InsertOne(a, cmp, run);
    }
    assert a[..] == a[..a.Length];
  }

  lemma PassKeepsBottom<T>(cmp: (T, T) -> int, s: seq<T>, t: seq<T>, stack: seq<Part>, top: int, cur: Part,
                           b: int, first: int, left: int, right: int)
    requires Pending(stack, top, cur, |s|, b, first) && Bottom(cmp, s, b)
    requires Rearranged(s, t, cur.lo, cur.hi + 1)
    requires cur.lo <= right < left <= cur.hi && Split(cmp, t, cur.lo, right, left, cur.hi)
    ensures Bottom(cmp, t, if first == 0 then right else b)
    ensures multiset(t) == multiset(s)
  {
    BottomKept(cmp, s, t, b, cur.lo, cur.hi);
    RearrangedElements(s, t, cur.lo, cur.hi + 1);
  }

  lemma PendingBounds(stack: seq<Part>, top: int, cur: Part, n: int, b: int, first: int)
    requires Pending(stack, top, cur, n, b, first)
    ensures 0 <= cur.lo && cur.lo + MAX_THRESH <= cur.hi < n
    ensures 1 <= top <= |stack| == STACK_SIZE
  {
  }

  lemma PendingStart<T>(cmp: (T, T) -> int, s: seq<T>, stack: seq<Part>)
    requires |stack| == STACK_SIZE && |s| > MAX_THRESH
    ensures Pending(stack, 1, Part(0, |s| - 1), |s|, |s| - 1, 0)
    ensures Bottom(cmp, s, |s| - 1)
  {
    assert Pow2(0) == 1;
  }

  /** The quicksort proper: stops when every part is within the threshold. */
  method PartitionAll<T(!new)>(a: array<T>, cmp: (T, T) -> int) returns (ghost b: int)
    requires Comparison(cmp)
    requires MAX_THRESH < a.Length <= SIZE_MAX
    modifies a
    ensures Bottom(cmp, a[..], b) && b <= MAX_THRESH
    ensures multiset(a[..]) == multiset(old(a[..]))
  {
    hide Bottom, Pending, Rearranged, Split, Remaining;
    var n := a.Length;
    var stack := new Part[STACK_SIZE](_ => Part(0, -1));
    var top := 1;
    var cur := Part(0, n - 1);
    ghost var first := 0;
    b := n - 1;
    PendingStart(cmp, a[..], stack[..]);
    while top > 0
      invariant 0 <= top < STACK_SIZE
      invariant top > 0 ==> Pending(stack[..], top, cur, n, b, first)
      invariant top == 0 ==> b <= MAX_THRESH
      invariant Bottom(cmp, a[..], b)
      invariant multiset(a[..]) == multiset(old(a[..]))
      decreases if top > 0 then 1 + Remaining(stack[..], top, cur) else 0
    {
      ghost var was := a[..];
      PendingBounds(stack[..], top, cur, n, b, first);
      var left, right := Partition(a, cmp, cur.lo, cur.hi);
      PassKeepsBottom(cmp, was, a[..], stack[..], top, cur, b, first, left, right);
      top, cur, b, first := NextPart(stack, top, cur, left, right, n, b, first);
    }
  }

  /** Sorts in place, with at most STACK_SIZE pending parts, for every comparison function. */
  method Sort<T(!new)>(a: array<T>, cmp: (T, T) -> int)
    requires Comparison(cmp)
    requires a.Length <= SIZE_MAX
    modifies a
    ensures Sorted(cmp, a[..])
    ensures multiset(a[..]) == multiset(old(a[..]))
  {
    if a.Length == 0 {
      return;
    }
    ghost var b := a.Length - 1;
    if a.Length > MAX_THRESH {
      b := PartitionAll(a, cmp);
    }
    InsertionSort(a, cmp, b);
  }
}
