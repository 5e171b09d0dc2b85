/**
 kern/kern/pagetree.c, the index walk: page numbers are spread over three direct entries
 and four indirect trees of depth 0 to 3, whose leaf pages hold 170 entries (24 bytes
 each) and whose inner pages hold 512 pointers.
 */
module PageIndex {
  import Arith

  const DIRECT: nat := 3
  const TREES: nat := 4
  const ENTS: nat := 170
  const FANOUT: nat := 512

  /** The number of entries below a node of the given level. */
  function Span(level: nat): (s: nat)
    ensures s > 0
  {
    if level == 0 then ENTS else FANOUT * Span(level - 1)
  }

  /** The first page number that indirect tree i holds. */
  function Base(i: nat): nat {
    if i == 0 then DIRECT else Base(i - 1) + Span(i - 1)
  }

  /** Where an entry is: a direct one, or the slots to follow in one of the indirect trees. */
  datatype Pos = Direct(i: nat) | Under(tree: nat, path: seq<nat>)

  predicate ValidPath(level: nat, path: seq<nat>) {
    |path| == level + 1 && path[level] < ENTS && forall k :: 0 <= k < level ==> path[k] < FANOUT
  }

  predicate ValidPos(pos: Pos) {
    match pos
    case Direct(i) => i < DIRECT
    case Under(tree, path) => tree < TREES && ValidPath(tree, path)
  }

  /** The page number, counted from the start of the node, that a path leads to. */
  function Unpath(level: nat, path: seq<nat>): nat
    requires |path| == level + 1
  {
    if level == 0 then path[0] else path[0] * Span(level - 1) + Unpath(level - 1, path[1..])
  }

  function PageNo(pos: Pos): nat
    requires ValidPos(pos)
  {
    match pos
    case Direct(i) => i
    case Under(tree, path) => Base(tree) + Unpath(tree, path)
  }

  lemma Below(q: nat, r: nat, w: nat, k: nat)
    requires q < k && r < w
    ensures q * w + r < k * w
  {
    assert (q + 1) * w <= k * w;
  }

  lemma {:induction false} UnpathBound(level: nat, path: seq<nat>)
    requires ValidPath(level, path)
    ensures Unpath(level, path) < Span(level)
  {
    if level > 0 {
      UnpathBound(level - 1, path[1..]);
      Below(path[0], Unpath(level - 1, path[1..]), Span(level - 1), FANOUT);
    }
  }

  lemma SplitUnique(a: nat, b: nat, c: nat, d: nat, w: nat)
    requires b < w && d < w && a * w + b == c * w + d
    ensures a == c && b == d
  {
    Arith.DivModOf(a * w + b, w, a, b);
    Arith.DivModOf(c * w + d, w, c, d);
  }

  /** Two paths below the same node with the same page number are the same path. */
  lemma {:induction false} UnpathInjective(level: nat, p: seq<nat>, q: seq<nat>)
    requires ValidPath(level, p) && ValidPath(level, q) && Unpath(level, p) == Unpath(level, q)
    ensures p == q
  {
    if level > 0 {
      UnpathBound(level - 1, p[1..]);
      UnpathBound(level - 1, q[1..]);
      SplitUnique(p[0], Unpath(level - 1, p[1..]), q[0], Unpath(level - 1, q[1..]), Span(level - 1));
      UnpathInjective(level - 1, p[1..], q[1..]);
      assert p == [p[0]] + p[1..] && q == [q[0]] + q[1..];
    }
  }

  lemma BaseMonotone(i: nat, j: nat)
    requires i < j
    ensures Base(i) + Span(i) <= Base(j)
  {
    if i + 1 < j {
      BaseMonotone(i, j - 1);
    }
  }

  /** No two positions hold the same page number, and every one is below the capacity. */
  lemma PageNoInjective(a: Pos, b: Pos)
    requires ValidPos(a) && ValidPos(b)
    ensures PageNo(a) == PageNo(b) ==> a == b
    ensures PageNo(a) < Base(TREES)
  {
    if a.Under? {
      UnpathBound(a.tree, a.path);
      BaseMonotone(a.tree, TREES);
      if a.tree > 0 { BaseMonotone(0, a.tree); }
    } else {
      BaseMonotone(0, TREES);
    }
    if b.Under? {
      UnpathBound(b.tree, b.path);
      if b.tree > 0 { BaseMonotone(0, b.tree); }
    }
    if a.Under? && b.Under? {
      if a.tree < b.tree {
        BaseMonotone(a.tree, b.tree);
      } else if b.tree < a.tree {
        BaseMonotone(b.tree, a.tree);
      } else if PageNo(a) == PageNo(b) {
        UnpathInjective(a.tree, a.path, b.path);
      }
    }
  }

  // The walk itself.

  const U32: nat := 0x1_0000_0000

  lemma {:induction false} SpanMonotone(i: nat, j: nat)
    requires i <= j
    ensures Span(i) <= Span(j)
  {
    if i < j {
      SpanMonotone(i, j - 1);
    }
  }

  /** Below depth 3, slot and remainder fit the 32-bit variables they are kept in. */
  lemma NoTruncation(level: nat, n: nat)
    requires 0 < level < TREES && n < Span(level)
    ensures n / Span(level - 1) < FANOUT && n / Span(level - 1) % U32 == n / Span(level - 1)
    ensures n % Span(level - 1) < Span(level - 1) && n % Span(level - 1) % U32 == n % Span(level - 1)
  {
    var w := Span(level - 1);
    var q := n / w;
    assert n == w * q + n % w;
    assert q >= FANOUT ==> w * q >= w * FANOUT;
    SpanMonotone(level - 1, 2);
    assert Span(0) == 170 && Span(1) == 87040 && Span(2) == 44564480;
  }

  /** pagetree_get_entp_indirect: the slots followed from a node of the given level. */
  method WalkIndirect(n: nat, level: nat) returns (path: seq<nat>)
    requires level < TREES && n < Span(level)
    ensures ValidPath(level, path) && Unpath(level, path) == n
    decreases level
  {
    if level == 0 {
      return [n];
    }
    var nPagesPerI := ENTS;
    for i := 0 to level - 1
      invariant nPagesPerI == Span(i)
    {
      nPagesPerI := nPagesPerI * FANOUT;
    }
    NoTruncation(level, n);
    var nextSlot := n / nPagesPerI % U32;
    var nextPage := n % nPagesPerI % U32;
    var rest := WalkIndirect(nextPage, level - 1);
    path := [nextSlot] + rest;
    assert path[1..] == rest;
    assert nextSlot * nPagesPerI + nextPage == n;
  }

  /** pagetree_get_entp: finds the one position of every page number below the capacity, and fails above it. */
  method GetEntp(npage: nat) returns (ok: bool, pos: Pos)
    ensures ok <==> npage < Base(TREES)
    ensures ok ==> ValidPos(pos) && PageNo(pos) == npage
  {
    if npage < DIRECT {
      BaseMonotone(0, TREES);
      return true, Direct(npage);
    }
    var n := npage - DIRECT;
    var numIndirectPages := ENTS;
    for i := 0 to TREES
      invariant n >= 0 && numIndirectPages == Span(i) && npage == Base(i) + n
    {
      if n < numIndirectPages {
        BaseMonotone(i, TREES);
        var path := WalkIndirect(n, i);
        return true, Under(i, path);
      }
      n := n - numIndirectPages;
      numIndirectPages := numIndirectPages * FANOUT;
    }
    return false, Direct(0);
  }

  /** The capacity is 3 + 170 + 170*512 + 170*512^2 + 170*512^3 pages. */
  lemma Capacity()
    ensures Base(TREES) == 3 + 170 + 170 * 512 + 170 * 512 * 512 + 170 * 512 * 512 * 512
  {
    assert Span(0) == 170 && Span(1) == 87040 && Span(2) == 44564480 && Span(3) == 22817013760;
    assert Base(1) == 173 && Base(2) == 87213 && Base(3) == 44651693;
  }
}
