/**
 lib/as.c: the search for a free virtual address and for a free slot, and the list of slots
 in use that kern/kern/at.c hands out.
 */
module AddressSearch {

  const U64: nat := 0x1_0000_0000_0000_0000

  /** The addresses from start up to end. */
  datatype Range = Range(start: nat, end: nat)

  ghost predicate WellFormed(rs: seq<Range>) {
    forall i :: 0 <= i < |rs| ==> rs[i].start <= rs[i].end
  }

  /** The test of the search, as it is written. */
  predicate Conflict(r: Range, start: nat, end: nat) {
    || (r.start <= start < r.end)
    || (r.start < end <= r.end)
    || (start < r.start && r.end < end)
  }

  predicate Overlap(r: Range, start: nat, end: nat) {
    r.start < end && start < r.end && r.start < r.end && start < end
  }

  ghost predicate Blocked(rs: seq<Range>, at: nat, bytes: nat) {
    exists i :: 0 <= i < |rs| && Conflict(rs[i], at, at + bytes)
  }

  ghost predicate Overlapped(rs: seq<Range>, at: nat, bytes: nat) {
    exists i :: 0 <= i < |rs| && Overlap(rs[i], at, at + bytes)
  }

  /** Every address that the search skips is blocked by the mapping it ran into. */
  lemma SkippedBlocked(r: Range, at: nat, bytes: nat, x: nat)
    requires r.start <= r.end && bytes > 0 && Conflict(r, at, at + bytes) && at <= x < r.end
    ensures Conflict(r, x, x + bytes)
  {
  }

  /** How many mappings end above an address. */
  ghost function Above(rs: seq<Range>, at: nat): nat {
    if rs == [] then 0 else (if rs[0].end > at then 1 else 0) + Above(rs[1..], at)
  }

  lemma {:induction false} AboveFewer(rs: seq<Range>, a: nat, b: nat)
    requires a <= b
    ensures Above(rs, b) <= Above(rs, a)
  {
    if rs != [] { AboveFewer(rs[1..], a, b); }
  }

  lemma {:induction false} AboveFalls(rs: seq<Range>, a: nat, i: nat)
    requires i < |rs| && rs[i].end > a
    ensures Above(rs, rs[i].end) < Above(rs, a)
  {
    if i == 0 {
      AboveFewer(rs[1..], a, rs[0].end);
    } else {
      AboveFalls(rs[1..], a, i - 1);
      AboveFewer([rs[0]], a, rs[i].end);
    }
  }

  /** Wraps: the end of the request passes 2^64, and nothing is said of what follows. */
  datatype Found = Va(at: nat) | OutOfSpace | Endless | Wraps

  /**
   The search part of cache_get_va: the lowest address from base on that the test lets
   through.  It would go round for ever only for an empty request, and the end of the request
   wraps only if every address where it would not is blocked.
   */
  method Search(rs: seq<Range>, base: nat, limit: nat, bytes: nat) returns (f: Found)
    requires WellFormed(rs) && base < U64 && forall i :: 0 <= i < |rs| ==> rs[i].end < U64
    ensures f.Va? ==> base <= f.at && f.at + bytes <= limit && !Blocked(rs, f.at, bytes)
    ensures f.Va? ==> forall x :: base <= x < f.at ==> bytes == 0 || Blocked(rs, x, bytes)
    ensures f.OutOfSpace? ==> forall x :: base <= x && x + bytes <= limit ==> bytes == 0 || Blocked(rs, x, bytes)
    ensures f.Wraps? <==> bytes > 0 && forall x :: base <= x && x + bytes < U64 ==> Blocked(rs, x, bytes)
    ensures f.Endless? <==> bytes == 0 && Blocked(rs, base, 0)
  {
    var start := base;
    var i := 0;
    while i < |rs|
      invariant base <= start < U64 && 0 <= i <= |rs|
      invariant forall j :: 0 <= j < i ==> !Conflict(rs[j], start, start + bytes)
      invariant bytes > 0 ==> forall x :: base <= x < start ==> Blocked(rs, x, bytes)
      invariant bytes == 0 && start != base ==>
                Blocked(rs, base, 0) && exists j :: 0 <= j < |rs| && rs[j].start < start == rs[j].end
      decreases Above(rs, start), |rs| - i
    {
      if start + bytes >= U64 {
        return Wraps;
      }
      if Conflict(rs[i], start, start + bytes) {
        if rs[i].end == start {
          return Endless;
        }
        AboveFalls(rs, start, i);
        if bytes > 0 {
          forall x | start <= x < rs[i].end ensures Blocked(rs, x, bytes) {
            SkippedBlocked(rs[i], start, bytes, x);
          }
        }
        start, i := rs[i].end, 0;
      } else {
        i := i + 1;
      }
    }
    if start + bytes >= U64 {
      return Wraps;
    }
    assert !Blocked(rs, start, bytes);
    if limit < start + bytes {
      return OutOfSpace;
    }
    return Va(start);
  }

  /** An address is lowest when nothing overlaps the request there and something does at every lower one. */
  ghost predicate Lowest(rs: seq<Range>, base: nat, bytes: nat, at: nat) {
    base <= at && !Overlapped(rs, at, bytes) && forall x :: base <= x < at ==> Overlapped(rs, x, bytes)
  }

  /** Some empty mapping lies strictly inside the request. */
  ghost predicate EmptyInside(rs: seq<Range>, at: nat, bytes: nat) {
    exists i :: 0 <= i < |rs| && rs[i].start == rs[i].end && at < rs[i].start < at + bytes
  }

  /** The test blocks an address where a mapping overlaps, and where an empty one lies strictly inside. */
  lemma BlockedMeans(rs: seq<Range>, at: nat, bytes: nat)
    requires WellFormed(rs) && bytes > 0
    ensures Blocked(rs, at, bytes) <==> Overlapped(rs, at, bytes) || EmptyInside(rs, at, bytes)
  {
    if i :| 0 <= i < |rs| && Conflict(rs[i], at, at + bytes) {
      assert Overlap(rs[i], at, at + bytes) || (rs[i].start == rs[i].end && at < rs[i].start < at + bytes);
    }
    if i :| 0 <= i < |rs| && Overlap(rs[i], at, at + bytes) {
      assert Conflict(rs[i], at, at + bytes);
    }
    if i :| 0 <= i < |rs| && rs[i].start == rs[i].end && at < rs[i].start < at + bytes {
      assert Conflict(rs[i], at, at + bytes);
    }
  }

  /**
   What the search finds is the lowest address that overlaps no mapping, exactly when no
   empty mapping lies strictly inside the request at that lowest address.
   */
  lemma FindsLowest(rs: seq<Range>, base: nat, bytes: nat, found: nat, lowest: nat)
    requires WellFormed(rs) && bytes > 0 && base <= found && !Blocked(rs, found, bytes)
    requires forall x :: base <= x < found ==> Blocked(rs, x, bytes)
    requires Lowest(rs, base, bytes, lowest)
    ensures found >= lowest
    ensures found == lowest <==> !EmptyInside(rs, lowest, bytes)
  {
    BlockedMeans(rs, found, bytes);
    BlockedMeans(rs, lowest, bytes);
    assert found < lowest ==> Overlapped(rs, found, bytes);
    assert lowest < found ==> Blocked(rs, lowest, bytes);
  }

  /** So one empty mapping can move the result: nothing overlaps the request at 0, and the search answers 5. */
  method EmptyMappingMoves() returns (f: Found)
    ensures Lowest([Range(5, 5)], 0, 10, 0) && f == Va(5)
  {
    var rs := [Range(5, 5)];
    f := Search(rs, 0, 100, 10);
    forall x | 0 <= x <= 5 ensures Blocked(rs, x, 10) <==> x < 5 {
      assert Conflict(rs[0], x, x + 10) <==> x < 5;
    }
    assert !Blocked(rs, 5, 10) && Blocked(rs, 0, 10);
  }

  // Slots.

  /** The slots in use below n, in ascending order. */
  ghost function InUse(flags: seq<bool>, n: nat): seq<nat>
    requires n <= |flags|
  {
    if n == 0 then [] else InUse(flags, n - 1) + if flags[n - 1] then [n - 1] else []
  }

  lemma {:induction false} InUseMeans(flags: seq<bool>, n: nat)
    requires n <= |flags|
    ensures forall k: nat :: k in InUse(flags, n) <==> k < n && flags[k]
    ensures Ascending(InUse(flags, n))
    ensures forall i :: 0 <= i < |InUse(flags, n)| ==> InUse(flags, n)[i] < n
  {
    if n > 0 { InUseMeans(flags, n - 1); }
  }

  ghost predicate Ascending(l: seq<nat>) {
    forall i, j :: 0 <= i < j < |l| ==> l[i] < l[j]
  }

  /** at_to_user: the slots in use, in order, or an error when the caller's array is too small. */
  method ToUser(flags: seq<bool>, size: nat) returns (ok: bool, ents: seq<nat>)
    ensures ok <==> |InUse(flags, |flags|)| <= size
    ensures ok ==> ents == InUse(flags, |flags|)
  {
    ents := [];
    for i := 0 to |flags|
      invariant ents == InUse(flags, i) && |ents| <= size
    {
      if flags[i] {
        if |ents| >= size {
          InUseGrows(flags, i + 1, |flags|);
          return false, ents;
        }
        ents := ents + [i];
      }
    }
    ok := true;
  }

  lemma {:induction false} InUseGrows(flags: seq<bool>, m: nat, n: nat)
    requires m <= n <= |flags|
    ensures |InUse(flags, m)| <= |InUse(flags, n)|
  {
    if m < n { InUseGrows(flags, m, n - 1); }
  }

  /** cache_get_kslot: the least slot not in an ascending list of used ones; grow asks for a larger array first. */
  method GetKslot(kslots: seq<nat>, size: nat) returns (kslot: nat, grow: bool)
    requires Ascending(kslots)
    ensures kslot !in kslots && forall k :: 0 <= k < kslot ==> k in kslots
    ensures grow <==> kslot == size
  {
    kslot := 0;
    var i := 0;
    while i < |kslots|
      invariant 0 <= i <= |kslots| && kslot == i
      invariant forall j :: 0 <= j < i ==> kslots[j] == j
    {
      if kslots[i] != kslot {
        break;
      }
      kslot := kslots[i] + 1;
      i := i + 1;
    }
    NotIn(kslots, i);
    forall k | 0 <= k < kslot ensures k in kslots { assert kslots[k] == k; }
    grow := i == size;
  }

  lemma NotIn(l: seq<nat>, i: nat)
    requires Ascending(l) && i <= |l| && (forall j :: 0 <= j < i ==> l[j] == j) && (i < |l| ==> l[i] != i)
    ensures i !in l
  {
    if i < |l| {
      assert i > 0 ==> l[i - 1] < l[i];
      forall j | i <= j < |l| ensures l[j] != i { assert j > i ==> l[i] < l[j]; }
    }
  }

  predicate Taken(flags: seq<bool>, k: nat) {
    k < |flags| && flags[k]
  }

  /** The two together: the slot handed out is the least one that the address tree does not use. */
  method FreeSlot(flags: seq<bool>, size: nat) returns (ok: bool, kslot: nat)
    ensures ok <==> |InUse(flags, |flags|)| <= size
    ensures ok ==> !Taken(flags, kslot) && forall k :: 0 <= k < kslot ==> Taken(flags, k)
  {
    var ents;
    ok, ents := ToUser(flags, size);
    kslot := 0;
    if ok {
      InUseMeans(flags, |flags|);
      var grow;
      kslot, grow := GetKslot(ents, size);
      assert kslot in ents <==> Taken(flags, kslot);
      forall k | 0 <= k < kslot ensures Taken(flags, k) { assert k in ents; }
    }
  }
}
