/**
 kern/kern/pagetree.c: which indirect pages a page tree has.  An indirect page is known by
 the slots that lead to it from the root; the walk to an entry goes through the indirect
 pages at all prefixes of its path.
 */
module PagePaths {
  import opened PageIndex
  import opened PageTree

  /** The slots on the way to entry n. */
  ghost function PathTo(level: nat, n: nat): (path: seq<nat>)
    requires n < Span(level)
    ensures Slots(level, path) && |path| == level
  {
    if level == 0 then [] else [SlotAt(level, n)] + PathTo(level - 1, RestAt(level, n))
  }

  /** Slots that can lead to an indirect page below a node. */
  ghost predicate Slots(level: nat, path: seq<nat>) {
    |path| <= level && forall k :: 0 <= k < |path| ==> path[k] < FANOUT
  }

  /** There is no indirect page at the end of the slots. */
  ghost predicate AbsentAt(node: Node, path: seq<nat>) {
    node.Absent?
    || (path != [] && node.Inner? && path[0] < |node.kids| && AbsentAt(node.kids[path[0]], path[1..]))
  }

  /** How many indirect pages are missing on the way to entry n. */
  ghost function Lack(node: Node, level: nat, n: nat): (lack: nat)
    requires WellNode(node, level) && n < Span(level)
    ensures lack <= level + 1
    decreases level
  {
    match node
    case Absent => level + 1
    case Leaf(_, _) => 0
    case Inner(_, kids) => Lack(kids[SlotAt(level, n)], level - 1, RestAt(level, n))
  }

  lemma {:induction false} LackZero(node: Node, level: nat, n: nat)
    requires WellNode(node, level) && n < Span(level)
    ensures HasPath(node, level, n) <==> Lack(node, level, n) == 0
    decreases level
  {
    if node.Inner? {
      LackZero(node.kids[SlotAt(level, n)], level - 1, RestAt(level, n));
    }
  }

  /** What is missing on the way is its last part. */
  lemma {:induction false} LackMeans(node: Node, level: nat, n: nat, d: nat)
    requires WellNode(node, level) && n < Span(level) && d <= level
    ensures AbsentAt(node, PathTo(level, n)[..d]) <==> d + Lack(node, level, n) > level
    decreases level
  {
    if node.Inner? && d > 0 {
      var path := PathTo(level, n);
      LackMeans(node.kids[SlotAt(level, n)], level - 1, RestAt(level, n), d - 1);
      assert path[..d][1..] == path[1..][..d - 1];
    } else if node.Inner? {
      assert PathTo(level, n)[..0] == [];
    }
  }

  /** node' has the indirect pages of node and those on the path, and no others. */
  ghost predicate Opened(node: Node, node': Node, level: nat, path: seq<nat>) {
    forall p :: Slots(level, p) ==> (AbsentAt(node', p) <==> AbsentAt(node, p) && !(p <= path))
  }

  lemma OpenedNothing(node: Node, level: nat)
    requires !node.Absent?
    ensures Opened(node, node, level, [])
  {
  }

  /** Opening one child further. */
  lemma OpenedKid(node: Node, mid: Node, level: nat, k: nat, kid: Node, path: seq<nat>)
    requires WellNode(mid, level) && level > 0 && mid.Inner? && k < FANOUT
    requires Opened(node, mid, level, []) && Opened(mid.kids[k], kid, level - 1, path)
    ensures Opened(node, Inner(mid.frame, mid.kids[k := kid]), level, [k] + path)
  {
    var node' := Inner(mid.frame, mid.kids[k := kid]);
    forall p | Slots(level, p) ensures AbsentAt(node', p) <==> AbsentAt(node, p) && !(p <= [k] + path) {
      assert AbsentAt(mid, p) <==> AbsentAt(node, p) && !(p <= []);
      if p != [] {
        assert Slots(level - 1, p[1..]);
        assert p <= [k] + path <==> p[0] == k && p[1..] <= path by {
          assert p == [p[0]] + p[1..];
          if p[0] == k && p[1..] <= path { assert [k] + path == p + path[|p| - 1..]; }
          if p <= [k] + path { assert p[1..] == path[..|p| - 1]; }
        }
      }
    }
  }

  /** Setting an entry opens nothing. */
  lemma {:induction false} SetAbsent(node: Node, level: nat, n: nat, e: Entry, p: seq<nat>)
    requires WellNode(node, level) && n < Span(level) && HasPath(node, level, n)
    ensures AbsentAt(Set(node, level, n, e), p) <==> AbsentAt(node, p)
    decreases level
  {
    if node.Inner? && p != [] {
      var k := SlotAt(level, n);
      SetAbsent(node.kids[k], level - 1, RestAt(level, n), e, p[1..]);
    }
  }
}
