/**
 kern/kern/pagetree.c, tree by tree: the public operations on one page tree, with every
 other tree of the system in an arbitrary base.
 */
module PageForest {
  import opened PageMemory
  import opened PageIndex
  import opened PageTree
  import opened PageEntries
  import opened PageNodes
  import opened PagePaths
  import Arith

  datatype Tree = Tree(direct: seq<Entry>, indir: seq<Node>, demand: bool, cpu: nat)

  const LEVELS: seq<nat> := [0, 1, 2, 3]

  const CAPACITY: nat := Base(TREES)

  ghost predicate WellTree(t: Tree) {
    && |t.direct| == DIRECT && (forall i :: 0 <= i < DIRECT ==> DirectOk(t.direct[i]))
    && KidsOk(t.indir, LEVELS)
  }

  /** The indirect tree, from i on, that holds page number n. */
  function TreeOf(n: nat, i: nat): (k: nat)
    requires i < TREES && Base(i) <= n < CAPACITY
    ensures i <= k < TREES && Base(k) <= n < Base(k) + Span(k)
    decreases TREES - i
  {
    if n < Base(i) + Span(i) then i else TreeOf(n, i + 1)
  }

  lemma TreeOfUnique(n: nat, k: nat)
    requires k < TREES && Base(k) <= n < Base(k) + Span(k) && n < CAPACITY && DIRECT <= n
    ensures TreeOf(n, 0) == k
  {
    var i := TreeOf(n, 0);
    if i < k { BaseMonotone(i, k); }
    if k < i { BaseMonotone(k, i); }
  }

  // A tree as a flat map from page numbers to entries.

  function Find(t: Tree, n: nat): Entry
    requires WellTree(t) && n < CAPACITY
  {
    if n < DIRECT then t.direct[n]
    else
      var i := TreeOf(n, 0);
      Lookup(t.indir[i], i, n - Base(i))
  }

  ghost predicate Reaches(t: Tree, n: nat)
    requires WellTree(t) && n < CAPACITY
  {
    n >= DIRECT ==> var i := TreeOf(n, 0); HasPath(t.indir[i], i, n - Base(i))
  }

  function Replace(t: Tree, n: nat, e: Entry): Tree
    requires WellTree(t) && n < CAPACITY && Reaches(t, n)
  {
    if n < DIRECT then t.(direct := t.direct[n := e])
    else
      var i := TreeOf(n, 0);
      t.(indir := t.indir[i := Set(t.indir[i], i, n - Base(i), e)])
  }

  /** Replacing one entry changes that page number and no other. */
  lemma ReplaceFind(t: Tree, n: nat, e: Entry)
    requires WellTree(t) && n < CAPACITY && Reaches(t, n) && DirectOk(e) && (n >= DIRECT ==> EntryOk(e))
    ensures var t' := Replace(t, n, e);
            && WellTree(t') && t'.cpu == t.cpu && t'.demand == t.demand
            && forall k :: 0 <= k < CAPACITY ==> Find(t', k) == if k == n then e else Find(t, k)
  {
    hide Span, HasPath, Set, WellNode, Lookup;
    var t' := Replace(t, n, e);
    if n >= DIRECT {
      var i := TreeOf(n, 0);
      SetLookup(t.indir[i], i, n - Base(i), e, n - Base(i));
      forall k | 0 <= k < CAPACITY ensures Find(t', k) == if k == n then e else Find(t, k) {
        if k >= DIRECT && TreeOf(k, 0) == i {
          SetLookup(t.indir[i], i, n - Base(i), e, k - Base(i));
        }
      }
    }
  }

  ghost function OfTree(t: Tree): Tally {
    Add(OfEntries(t.direct), OfNodes(t.indir))
  }

  /** Replacing one entry replaces its part of the tally. */
  lemma ReplaceTally(t: Tree, n: nat, e: Entry) returns (rest: Tally)
    requires WellTree(t) && n < CAPACITY && Reaches(t, n)
    ensures OfTree(t) == Add(OfEntry(Find(t, n)), rest)
    ensures OfTree(Replace(t, n, e)) == Add(OfEntry(e), rest)
    ensures Sub(rest)
  {
    hide Add, Sub, OfEntries, OfNodes, OfEntry, OfNode, Others, OtherKids, Span, Base, HasPath, Set, WellNode, Lookup;
    if n < DIRECT {
      SplitEntries(t.direct, n, e);
      SplitEntries(t.direct, n, t.direct[n]);
      assert t.direct[n := t.direct[n]] == t.direct;
      AddSwap(OfEntry(e), Others(t.direct, n), OfNodes(t.indir));
      AddSwap(OfEntry(t.direct[n]), Others(t.direct, n), OfNodes(t.indir));
      OthersSub(t.direct, n);
      NodesSub(t.indir);
      AddSub(Others(t.direct, n), OfNodes(t.indir));
      rest := Add(Others(t.direct, n), OfNodes(t.indir));
    } else {
      var i := TreeOf(n, 0);
      var node, n' := t.indir[i], n - Base(i);
      var below := SetTally(node, i, n', e);
      SplitNodes(t.indir, i, Set(node, i, n', e));
      SplitNodes(t.indir, i, node);
      assert t.indir[i := node] == t.indir;
      AddDeep(OfEntries(t.direct), OfEntry(e), below, OtherKids(t.indir, i));
      AddDeep(OfEntries(t.direct), OfEntry(Find(t, n)), below, OtherKids(t.indir, i));
      EntriesSub(t.direct);
      OtherKidsSub(t.indir, i);
      AddSub(OfEntries(t.direct), OtherKids(t.indir, i));
      AddSub(Add(OfEntries(t.direct), OtherKids(t.indir, i)), below);
      rest := Add(Add(OfEntries(t.direct), OtherKids(t.indir, i)), below);
    }
  }

  lemma FindIn(t: Tree, n: nat)
    requires WellTree(t) && n < CAPACITY
    ensures var e := Find(t, n); e.page.At? ==> e.page.p in OfTree(t).named
  {
    hide OfEntries, OfNodes, OfNode, Span, WellNode, Lookup;
    if n < DIRECT {
      if t.direct[n].page.At? { EntryIn(t.direct, n); }
    } else {
      var i := TreeOf(n, 0);
      LookupIn(t.indir[i], i, n - Base(i));
      NodeIn(t.indir, i);
    }
  }

  // The walk by slots and the flat map agree.

  function Follow(node: Node, level: nat, path: seq<nat>): Entry
    requires WellNode(node, level) && ValidPath(level, path)
    decreases level
  {
    match node
    case Absent => ZERO
    case Leaf(_, es) => es[path[0]]
    case Inner(_, kids) => Follow(kids[path[0]], level - 1, path[1..])
  }

  function EntryAt(t: Tree, pos: Pos): Entry
    requires WellTree(t) && ValidPos(pos)
  {
    match pos
    case Direct(i) => t.direct[i]
    case Under(i, path) => Follow(t.indir[i], i, path)
  }

  lemma {:induction false} FollowLookup(node: Node, level: nat, path: seq<nat>)
    requires WellNode(node, level) && ValidPath(level, path)
    ensures Unpath(level, path) < Span(level)
    ensures Lookup(node, level, Unpath(level, path)) == Follow(node, level, path)
    decreases level
  {
    UnpathBound(level, path);
    if node.Inner? {
      FollowLookup(node.kids[path[0]], level - 1, path[1..]);
      var w, r := Span(level - 1), Unpath(level - 1, path[1..]);
      Arith.DivModOf(path[0] * w + r, w, path[0], r);
    }
  }

  /** The position that the walk finds for a page number holds the entry of the flat map. */
  lemma FindAt(t: Tree, pos: Pos)
    requires WellTree(t) && ValidPos(pos)
    ensures PageNo(pos) < CAPACITY && Find(t, PageNo(pos)) == EntryAt(t, pos)
  {
    PageNoInjective(pos, pos);
    match pos
    case Direct(i) =>
    case Under(i, path) =>
      FollowLookup(t.indir[i], i, path);
      if i > 0 { BaseMonotone(0, i); }
      TreeOfUnique(PageNo(pos), i);
  }

  // Finding the entry, with the indirect pages it takes.

  ghost predicate SameFinds(t: Tree, t': Tree)
    requires WellTree(t) && WellTree(t')
  {
    forall n :: 0 <= n < CAPACITY ==> Find(t', n) == Find(t, n)
  }

  ghost function AroundIndir(base: Books, t: Tree, i: nat): Books
    requires i < |t.indir|
  {
    With(base, Add(OfEntries(t.direct), OtherKids(t.indir, i)))
  }

  lemma FocusIndir(base: Books, t: Tree, i: nat, node: Node)
    requires i < |t.indir|
    ensures With(base, OfTree(t.(indir := t.indir[i := node]))) == With(AroundIndir(base, t, i), OfNode(node))
    ensures BaseOk(base) ==> BaseOk(AroundIndir(base, t, i))
  {
    hide OfEntries, OfNodes, OfNode, OtherKids;
    SplitNodes(t.indir, i, node);
    EntriesSub(t.direct);
    OtherKidsSub(t.indir, i);
    AddSwap(OfEntries(t.direct), OfNode(node), OtherKids(t.indir, i));
    WithAdd(base, Add(OfEntries(t.direct), OtherKids(t.indir, i)), OfNode(node));
  }

  lemma GrownFinds(t: Tree, i: nat, node: Node)
    requires WellTree(t) && i < TREES && WellNode(node, i) && SameLookups(t.indir[i], node, i)
    ensures var t' := t.(indir := t.indir[i := node]); WellTree(t') && SameFinds(t, t')
  {
    hide Span, WellNode, Lookup;
    var t' := t.(indir := t.indir[i := node]);
    assert WellTree(t');
    forall n | 0 <= n < CAPACITY ensures Find(t', n) == Find(t, n) {
      if n >= DIRECT {
        var k := TreeOf(n, 0);
        assert k == i ==> Lookup(t.indir[i], i, n - Base(k)) == Lookup(node, i, n - Base(k));
      }
    }
  }

  // The indirect pages that are missing.

  /** An indirect page of a tree: which of its indirect trees, and the slots to it from the root. */
  datatype NodePos = NodePos(tree: nat, slots: seq<nat>)

  ghost function PathOf(n: nat): (path: seq<nat>)
    requires DIRECT <= n < CAPACITY
    ensures |path| == TreeOf(n, 0) && Slots(TreeOf(n, 0), path)
  {
    PathTo(TreeOf(n, 0), n - Base(TreeOf(n, 0)))
  }

  /** The indirect pages missing on the way to page number n. */
  ghost function LackOf(t: Tree, n: nat): set<NodePos>
    requires WellTree(t)
  {
    if DIRECT <= n < CAPACITY then
      var i := TreeOf(n, 0);
      set d: nat | d <= i && AbsentAt(t.indir[i], PathOf(n)[..d]) :: NodePos(i, PathOf(n)[..d])
    else {}
  }

  /** The last indirect pages on a path, from depth d on. */
  ghost function Tail(i: nat, path: seq<nat>, d: nat): set<NodePos>
    requires d <= |path| + 1
    decreases |path| + 1 - d
  {
    if d > |path| then {} else {NodePos(i, path[..d])} + Tail(i, path, d + 1)
  }

  lemma {:induction false} TailMember(i: nat, path: seq<nat>, d: nat, x: NodePos)
    requires d <= |path| + 1
    ensures x in Tail(i, path, d) <==> x.tree == i && d <= |x.slots| && x.slots <= path
    decreases |path| + 1 - d
  {
    if d <= |path| {
      TailMember(i, path, d + 1, x);
      if |x.slots| == d { assert x.slots <= path <==> x.slots == path[..d]; }
    }
  }

  lemma {:induction false} TailSize(i: nat, path: seq<nat>, d: nat)
    requires d <= |path| + 1
    ensures |Tail(i, path, d)| == |path| + 1 - d
    decreases |path| + 1 - d
  {
    if d <= |path| {
      TailSize(i, path, d + 1);
      TailMember(i, path, d + 1, NodePos(i, path[..d]));
    }
  }

  lemma LackMember(t: Tree, n: nat, x: NodePos)
    requires WellTree(t) && DIRECT <= n < CAPACITY
    ensures var i := TreeOf(n, 0);
            x in LackOf(t, n) <==> x.tree == i && x.slots <= PathOf(n) && AbsentAt(t.indir[i], x.slots)
  {
    hide Span, WellNode, AbsentAt, PathTo;
    var i, path := TreeOf(n, 0), PathOf(n);
    if x.tree == i && x.slots <= path && AbsentAt(t.indir[i], x.slots) {
      var d := |x.slots|;
      assert x.slots == path[..d] && d <= i;
    }
  }

  /** Their number is what the walk finds missing. */
  lemma LackSize(t: Tree, n: nat)
    requires WellTree(t) && DIRECT <= n < CAPACITY
    ensures var i := TreeOf(n, 0); |LackOf(t, n)| == Lack(t.indir[i], i, n - Base(i))
  {
    hide Span, WellNode, AbsentAt, LackOf, Lack, Tail;
    var i, path := TreeOf(n, 0), PathOf(n);
    var lack := Lack(t.indir[i], i, n - Base(i));
    TailSize(i, path, i + 1 - lack);
    forall x ensures x in LackOf(t, n) <==> x in Tail(i, path, i + 1 - lack) {
      LackMember(t, n, x);
      TailMember(i, path, i + 1 - lack, x);
      LackAt(t.indir[i], i, n - Base(i), x.slots);
    }
    assert LackOf(t, n) == Tail(i, path, i + 1 - lack);
  }

  lemma LackAt(node: Node, level: nat, n: nat, p: seq<nat>)
    requires WellNode(node, level) && n < Span(level)
    ensures p <= PathTo(level, n) ==> (AbsentAt(node, p) <==> |p| + Lack(node, level, n) > level)
  {
    if p <= PathTo(level, n) {
      assert p == PathTo(level, n)[..|p|];
      LackMeans(node, level, n, |p|);
    }
  }

  /** t' has the indirect pages of t and those on the way to n, and no others. */
  ghost predicate OpenedTo(t: Tree, t': Tree, n: nat)
    requires WellTree(t) && WellTree(t') && n < CAPACITY
  {
    forall i :: 0 <= i < TREES ==>
      if n >= DIRECT && i == TreeOf(n, 0) then Opened(t.indir[i], t'.indir[i], i, PathOf(n))
      else SameNodes(t.indir[i], t'.indir[i], i)
  }

  ghost predicate SameNodes(a: Node, b: Node, level: nat) {
    forall p :: Slots(level, p) ==> (AbsentAt(b, p) <==> AbsentAt(a, p))
  }

  /** So exactly those are no longer missing, on the way to any page. */
  lemma LackShrinks(t: Tree, t': Tree, n: nat, k: nat)
    requires WellTree(t) && WellTree(t') && n < CAPACITY && OpenedTo(t, t', n)
    ensures LackOf(t', k) == LackOf(t, k) - LackOf(t, n)
  {
    if DIRECT <= k < CAPACITY {
      forall x ensures x in LackOf(t', k) <==> x in LackOf(t, k) && x !in LackOf(t, n) {
        LackMember(t, k, x);
        LackMember(t', k, x);
        if n >= DIRECT {
          LackMember(t, n, x);
        }
        hide LackOf, Span, WellNode, AbsentAt, TreeOf, PathOf;
        assert x.slots <= PathOf(k) ==> Slots(TreeOf(k, 0), x.slots);
      }
    }
  }

  /** The indirect pages missing on the way to any of the pages from lo up to hi. */
  ghost function LackIn(t: Tree, lo: nat, hi: nat): set<NodePos>
    requires WellTree(t)
    decreases hi - lo
  {
    if lo >= hi then {} else LackOf(t, lo) + LackIn(t, lo + 1, hi)
  }

  lemma {:induction false} LackInShrinks(t: Tree, t': Tree, n: nat, lo: nat, hi: nat)
    requires WellTree(t) && WellTree(t') && n < CAPACITY && OpenedTo(t, t', n)
    ensures LackIn(t', lo, hi) == LackIn(t, lo, hi) - LackOf(t, n)
    decreases hi - lo
  {
    hide LackOf, OpenedTo, WellTree;
    if lo < hi {
      LackShrinks(t, t', n, lo);
      LackInShrinks(t, t', n, lo + 1, hi);
    }
  }

  /** What opening the way to the first page leaves to be opened for the others. */
  lemma LackInStep(t: Tree, t': Tree, lo: nat, hi: nat)
    requires WellTree(t) && WellTree(t') && lo < hi && lo < CAPACITY && OpenedTo(t, t', lo)
    ensures |LackIn(t, lo, hi)| == |LackOf(t, lo)| + |LackIn(t', lo + 1, hi)|
  {
    hide LackOf, OpenedTo, WellTree;
    LackInShrinks(t, t', lo, lo + 1, hi);
    var a, b := LackOf(t, lo), LackIn(t', lo + 1, hi);
    assert LackIn(t, lo, hi) == a + b && a !! b;
  }

  lemma ReplaceOpens(t: Tree, t1: Tree, n: nat, e: Entry)
    requires WellTree(t) && WellTree(t1) && n < CAPACITY && Reaches(t1, n) && OpenedTo(t, t1, n)
    requires WellTree(Replace(t1, n, e))
    ensures OpenedTo(t, Replace(t1, n, e), n)
  {
    hide Span, HasPath, WellNode, Set, AbsentAt;
    var t2 := Replace(t1, n, e);
    if n >= DIRECT {
      var j := TreeOf(n, 0);
      forall p ensures AbsentAt(t2.indir[j], p) <==> AbsentAt(t1.indir[j], p) {
        SetAbsent(t1.indir[j], j, n - Base(j), e, p);
      }
    }
  }

  /** pagetree_get_entp: the entry of every page number below the capacity can be reached, memory permitting. */
  method Locate(m: Mem, t: Tree, n: nat, ghost base: Books) returns (r: Outcome, m': Mem, t': Tree)
    requires MemOk(m, With(base, OfTree(t))) && BaseOk(base) && WellTree(t) && t.cpu < |m.free|
    ensures MemOk(m', With(base, OfTree(t'))) && Grew(m, m') && m'.bytes == m.bytes && m'.ref == m.ref
    ensures WellTree(t') && SameFinds(t, t') && t'.cpu == t.cpu && t'.demand == t.demand
    ensures r == NoSpace <==> n >= CAPACITY
    ensures r == Ok ==> Reaches(t', n) && OpenedTo(t, t', n) && Spare(m'.free) == Spare(m.free) - |LackOf(t, n)|
    ensures r == NoMem <==> n < CAPACITY && |LackOf(t, n)| > Spare(m.free)
    ensures r == NoMem ==> n >= DIRECT && Exhausted(m')
    ensures r == Ok || r == NoSpace || r == NoMem
    ensures n < DIRECT ==> r == Ok && m' == m && t' == t
    ensures r == NoSpace ==> m' == m && t' == t
    ensures With(base, OfTree(t')).named == With(base, OfTree(t)).named
  {
    hide MemOk, With, OfTree, WellNode, Span, HasPath, Spare, Opened, LackOf, Reaches, OpenedTo, Find;
    MemSized(m, With(base, OfTree(t)));
    m', t' := m, t;
    var found, pos := GetEntp(n);
    if !found {
      return NoSpace, m', t';
    }
    if pos.Direct? {
      NoWay(t, n);
      return Ok, m', t';
    }
    var i := pos.tree;
    WhichTree(n, pos);
    FocusIndir(base, t, i, t.indir[i]);
    assert t.indir[i := t.indir[i]] == t.indir;
    var ok, node;
    ok, m', node := Grow(m, t.indir[i], i, n - Base(i), t.cpu, AroundIndir(base, t, i));
    FocusIndir(base, t, i, node);
    GrownFinds(t, i, node);
    GrownOpens(t, i, node, n);
    LackSize(t, n);
    t' := t.(indir := t.indir[i := node]);
    r := if ok then Ok else NoMem;
  }

  /** A direct entry is always there. */
  lemma NoWay(t: Tree, n: nat)
    requires WellTree(t) && n < DIRECT && n < CAPACITY
    ensures LackOf(t, n) == {} && Reaches(t, n) && OpenedTo(t, t, n)
  {
  }

  lemma GrownOpens(t: Tree, i: nat, node: Node, n: nat)
    requires WellTree(t) && DIRECT <= n < CAPACITY && i == TreeOf(n, 0) && WellNode(node, i)
    ensures var t' := t.(indir := t.indir[i := node]);
            && WellTree(t') && (HasPath(node, i, n - Base(i)) ==> Reaches(t', n))
            && (Opened(t.indir[i], node, i, PathTo(i, n - Base(i))) ==> OpenedTo(t, t', n))
  {
    hide Span, WellNode, HasPath, Opened, AbsentAt;
  }

  lemma WhichTree(n: nat, pos: Pos)
    requires ValidPos(pos) && pos.Under? && PageNo(pos) == n
    ensures DIRECT <= n < CAPACITY && TreeOf(n, 0) == pos.tree && Base(pos.tree) <= n < Base(pos.tree) + Span(pos.tree)
  {
    PageNoInjective(pos, pos);
    UnpathBound(pos.tree, pos.path);
    if pos.tree > 0 { BaseMonotone(0, pos.tree); }
    TreeOfUnique(n, pos.tree);
  }

  lemma AddCancel(x: Tally, a: Tally, b: Tally)
    requires Add(x, a) == Add(x, b)
    ensures a == b
  {
    assert a.named == x.named + a.named - x.named && b.named == x.named + b.named - x.named;
    assert a.excl == x.excl + a.excl - x.excl && b.excl == x.excl + b.excl - x.excl;
    assert a.frames == x.frames + a.frames - x.frames && b.frames == x.frames + b.frames - x.frames;
  }

  /** The rest of the system, seen from the entry at n. */
  lemma FocusEntry(base: Books, t: Tree, n: nat) returns (base': Books)
    requires WellTree(t) && n < CAPACITY && Reaches(t, n) && BaseOk(base)
    ensures BaseOk(base') && base'.loose == base.loose
    ensures With(base, OfTree(t)) == With(base', OfEntry(Find(t, n)))
    ensures forall e, l :: With(base.(loose := l), OfTree(Replace(t, n, e))) == With(base'.(loose := l), OfEntry(e))
  {
    hide OfTree, OfEntry, Add, Reaches, WellTree, Replace, Find;
    var rest := ReplaceTally(t, n, ZERO);
    base' := With(base, rest);
    WithAdd(base, OfEntry(Find(t, n)), rest);
    WithAdd(base, rest, OfEntry(Find(t, n)));
    forall e, l ensures With(base.(loose := l), OfTree(Replace(t, n, e))) == With(base'.(loose := l), OfEntry(e)) {
      var rest' := ReplaceTally(t, n, e);
      AddCancel(OfEntry(Find(t, n)), rest, rest');
      WithAdd(base.(loose := l), OfEntry(e), rest);
      WithAdd(base.(loose := l), rest, OfEntry(e));
    }
  }

  // The public operations.

  /**
   How a fetch ends, for an entry to which so many indirect pages are missing, with so many
   pages free.  A missing indirect page and a copy that finds no page are errors; a demand
   page that finds none is a panic, as is asking for exclusive use of a shared page.
   */
  function Fetched(e: Entry, mode: Mode, demand: bool, lack: nat, spare: nat): (r: Outcome)
    ensures r == NoMem <==> lack > spare || (mode != Excl && Copies(e, mode) && lack == spare)
    ensures r == Fault <==> lack < spare && Stale(e, mode)
    ensures r == Panic <==> lack <= spare && ((Shared(e.mode) && mode == Excl)
                                              || (demand && e.page.Nil? && !Stale(e, mode) && lack == spare))
    ensures r == Ok || r == NoMem || r == Fault || r == Panic
  {
    if lack > spare then NoMem
    else if Shared(e.mode) && mode == Excl then Panic
    else if Copies(e, mode) && lack == spare then NoMem
    else if Stale(e, mode) then Fault
    else if demand && e.page.Nil? && lack == spare then Panic
    else Ok
  }

  /** How many pages are free after a fetch; last is one if the entry has the last reference to its page. */
  function FetchSpare(e: Entry, mode: Mode, demand: bool, lack: nat, spare: nat, last: nat): int {
    if lack > spare then 0
    else if Fetched(e, mode, demand, lack, spare) == Ok then spare - lack - Takes(e, mode, demand, last)
    else spare - lack
  }

  lemma FetchedEntry(r: Outcome, e: Entry, mode: Mode, demand: bool, lack: nat, spare: nat)
    requires lack <= spare && r != NoSpace && r != Inval
    requires r == Fault <==> Stale(e, mode) && lack != spare
    requires r == Panic <==>
             (Shared(e.mode) && mode == Excl) || (demand && e.page.Nil? && !Stale(e, mode) && lack == spare)
    requires r == NoMem <==> lack == spare && Copies(e, mode) && mode != Excl
    ensures r == Fetched(e, mode, demand, lack, spare)
  {
  }

  /** An entry in an indirect page, or one that has none yet, is never stale. */
  lemma NeverStale(e: Entry, mode: Mode)
    requires EntryOk(e)
    ensures !Stale(e, mode)
  {
  }

  /** pagetree_get_page. */
  method GetPage(m: Mem, t: Tree, n: nat, mode: Mode, ghost base: Books)
      returns (r: Outcome, m': Mem, t': Tree, page: PagePtr)
    requires MemOk(m, With(base, OfTree(t))) && BaseOk(base) && WellTree(t) && t.cpu < |m.free|
    ensures MemOk(m', With(base, OfTree(t'))) && KeepsBytes(m, m')
    ensures WellTree(t') && t'.cpu == t.cpu && t'.demand == t.demand
    ensures forall k :: 0 <= k < CAPACITY && k != n ==> Find(t', k) == Find(t, k)
    ensures r == NoSpace <==> n >= CAPACITY
    ensures r == Ok ==>
            page == Find(t', n).page && (Find(t, n).page.At? ==> View(m', Find(t', n)) == View(m, Find(t, n)))
    ensures r == Ok && mode == Cow && page.At? ==> Find(t', n).mode == Excl
    ensures r == Ok ==> EntryFetched(Find(t, n), Find(t', n), mode, t.demand)
    ensures n < CAPACITY && |LackOf(t, n)| <= Spare(m.free) ==> OpenedTo(t, t', n)
    ensures r != Ok ==> SameFinds(t, t') && m'.bytes == m.bytes
    ensures n < CAPACITY ==>
              Spare(m'.free) == FetchSpare(Find(t, n), mode, t.demand, |LackOf(t, n)|, Spare(m.free),
                                           LastRef(m.ref, Find(t, n).page))
    ensures n >= CAPACITY ==> m' == m && t' == t
    ensures n < CAPACITY ==> r == Fetched(Find(t, n), mode, t.demand, |LackOf(t, n)|, Spare(m.free))
    ensures n >= DIRECT ==> r != Fault
  {
    hide MemOk, With, OfTree, WellTree, Reaches, Replace, Find, LackOf, Spare, OpenedTo;
    hide Fetched, Copies, Stale, Takes, LastRef, EntryFetched;
    page := Nil;
    r, m', t' := Locate(m, t, n, base);
    if r != Ok {
      FreshMode(t, n);
      ExhaustedMeans(m');
      return;
    }
    var e := Find(t', n);
    ghost var base' := FocusEntry(base, t', n);
    FreshMode(t', n);
    if n >= DIRECT {
      NeverStale(e, mode);
    }
    ExhaustedMeans(m');
    var m1, e';
    r, m1, e' := GetEntry(m', e, mode, t.demand, t.cpu, base');
    FetchedEntry(r, e, mode, t.demand, |LackOf(t, n)|, Spare(m.free));
    if r == Ok {
      ReplaceFind(t', n, e');
      ReplaceOpens(t, t', n, e');
      KeepsTrans(m, m', m1);
      assert base.(loose := base.loose) == base && base'.(loose := base'.loose) == base';
      m', t', page := m1, Replace(t', n, e'), e'.page;
    }
  }

  lemma FreshMode(t: Tree, n: nat)
    requires WellTree(t)
    ensures n < CAPACITY ==> DirectOk(Find(t, n)) && (n >= DIRECT ==> EntryOk(Find(t, n)))
  {
    if DIRECT <= n < CAPACITY {
      var i := TreeOf(n, 0);
      LookupOk(t.indir[i], i, n - Base(i));
    }
  }

  lemma {:induction false} LookupOk(node: Node, level: nat, n: nat)
    requires WellNode(node, level) && n < Span(level)
    ensures EntryOk(Lookup(node, level, n))
    decreases level
  {
    if node.Inner? {
      LookupOk(node.kids[SlotAt(level, n)], level - 1, RestAt(level, n));
    }
  }

  lemma KeepsTrans(a: Mem, b: Mem, c: Mem)
    requires Grew(a, b) && KeepsBytes(b, c)
    ensures KeepsBytes(a, c)
  {
  }

  /** pagetree_put_page of nothing, of a page handed out, or of one that some entry names already. */
  method PutPage(m: Mem, t: Tree, n: nat, page: PagePtr, ghost base: Books) returns (r: Outcome, m': Mem, t': Tree)
    requires MemOk(m, With(base, OfTree(t))) && BaseOk(base) && WellTree(t) && t.cpu < |m.free|
    requires page.At? ==> page.p in base.loose || page.p in With(base, OfTree(t)).named
    ensures r == NoSpace <==> n >= CAPACITY
    ensures r != Ok ==> MemOk(m', With(base, OfTree(t')))
    ensures r == Ok ==>
              (MemOk(m', With(base.(loose := base.loose - if page.At? then {page.p} else {}), OfTree(t')))
              <==> Handed(base.loose, page) || PutsBack(m, With(base, OfTree(t)), Find(t, n), page))
    ensures m'.bytes == m.bytes && SameShape(m, m')
    ensures WellTree(t') && t'.cpu == t.cpu && t'.demand == t.demand
    ensures forall k :: 0 <= k < CAPACITY && k != n ==> Find(t', k) == Find(t, k)
    ensures r == Ok ==> Find(t', n) == Entry(page, Excl) && OpenedTo(t, t', n)
    ensures r == Ok ==> Spare(m'.free) == Spare(m.free) - |LackOf(t, n)| + LastRef(m.ref, Find(t, n).page)
    ensures r == Ok && page.Nil? ==> m'.ref == Unref(m.ref, Find(t, n).page)
    ensures r == NoMem <==> n < CAPACITY && |LackOf(t, n)| > Spare(m.free)
    ensures r == NoMem ==> Spare(m'.free) == 0 && Find(t', n) == Find(t, n)
    ensures r == NoSpace ==> m' == m && t' == t
    ensures r == Ok || r == NoSpace || r == NoMem
  {
    hide MemOk, With, OfTree, WellTree, Reaches, Replace, Find, LackOf, Spare, OpenedTo;
    r, m', t' := Locate(m, t, n, base);
    assert base.(loose := base.loose - {}) == base;
    if r != Ok {
      ExhaustedMeans(m');
      return;
    }
    ghost var base' := FocusEntry(base, t', n);
    var e';
    m', e' := PutEntry(m', Find(t', n), page, base');
    ReplaceFind(t', n, e');
    ReplaceOpens(t, t', n, e');
    t' := Replace(t', n, e');
  }

  /** Every entry is empty. */
  ghost predicate Blank(t: Tree) {
    && |t.direct| == DIRECT && (forall i :: 0 <= i < DIRECT ==> t.direct[i].page.Nil?)
    && |t.indir| == TREES && (forall i :: 0 <= i < TREES ==> t.indir[i].Absent?)
  }

  lemma BlankTree(t: Tree)
    requires Blank(t)
    ensures WellTree(t) && OfTree(t) == NONE
    ensures forall n :: 0 <= n < CAPACITY ==> Find(t, n).page == Nil
  {
    ZeroEntries(t.direct);
    AbsentNodes(t.indir);
    AddNone(NONE);
  }

  /** pagetree_free: gives back every page reference and every indirect page; the direct entries keep their modes. */
  method FreeTree(m: Mem, t: Tree, ghost base: Books) returns (m': Mem, t': Tree)
    requires MemOk(m, With(base, OfTree(t))) && BaseOk(base) && WellTree(t)
    ensures MemOk(m', base) && m'.bytes == m.bytes && SameShape(m, m')
    ensures Blank(t') && t'.cpu == t.cpu && t'.demand == t.demand
    ensures forall i :: 0 <= i < DIRECT ==> t'.direct[i].mode == t.direct[i].mode
    ensures Spare(m'.free) == |Unclaimed(m, base)| >= Spare(m.free) && (Blank(t) ==> m' == m)
  {
    hide MemOk, With, OfEntries, OfNodes, Add, Spare;
    SplitTree(base, t);
    m' := FreeEntries(m, t.direct, With(base, OfNodes(t.indir)));
    m' := FreeKids(m', t.indir, LEVELS, TREES, base);
    t' := t.(direct := seq(DIRECT, i requires 0 <= i < DIRECT => t.direct[i].(page := Nil)),
      indir := [Absent, Absent, Absent, Absent]);
    SpareUnclaimed(m', base);
    assert Unclaimed(m', base) == Unclaimed(m, base);
  }

  lemma SplitTree(base: Books, t: Tree)
    ensures With(base, OfTree(t)) == With(With(base, OfNodes(t.indir)), OfEntries(t.direct))
    ensures With(base, OfTree(t)) == With(With(base, OfEntries(t.direct)), OfNodes(t.indir))
    ensures BaseOk(base) ==> BaseOk(With(base, OfNodes(t.indir))) && BaseOk(With(base, OfEntries(t.direct)))
  {
    hide OfEntries, OfNodes;
    EntriesSub(t.direct);
    NodesSub(t.indir);
    WithAdd(base, OfNodes(t.indir), OfEntries(t.direct));
    WithAdd(base, OfEntries(t.direct), OfNodes(t.indir));
  }

  /** Every page number shows in t' and m' what it showed in t and m. */
  ghost predicate Shows(m: Mem, t: Tree, m': Mem, t': Tree)
    requires WellTree(t) && WellTree(t')
  {
    forall n :: 0 <= n < CAPACITY ==> View(m', Find(t', n)) == View(m, Find(t, n))
  }

  ghost predicate SameTreePages(t: Tree, t': Tree)
    requires WellTree(t) && WellTree(t')
  {
    forall n :: 0 <= n < CAPACITY ==> Find(t', n).page == Find(t, n).page
  }

  /** Every entry was copied as the mode says. */
  ghost predicate TreeCopiedAs(src: Tree, src': Tree, dst: Tree, mode: Mode)
    requires WellTree(src) && WellTree(src') && WellTree(dst)
  {
    forall n :: 0 <= n < CAPACITY ==> CopiedAs(Find(src, n), Find(src', n), Find(dst, n), mode)
  }

  /** The pages that a copy of the tree takes. */
  ghost function CopyCost(t: Tree, mode: Mode): nat {
    EntriesCost(t.direct, mode) + KidsCost(t.indir, mode)
  }

  /** The copying part of pagetree_copy, into a tree just freed. */
  method CopyInto(m: Mem, src: Tree, dst: Tree, mode: Mode, ghost base: Books)
      returns (ok: bool, m': Mem, src': Tree, dst': Tree)
    requires MemOk(m, With(base, OfTree(src))) && BaseOk(base) && WellTree(src) && Blank(dst)
    requires dst.cpu < |m.free| && mode != Unset
    ensures MemOk(m', With(base, Add(OfTree(src'), OfTree(dst')))) && Grew(m, m')
    ensures WellTree(src') && SameTreePages(src, src') && src'.cpu == src.cpu && src'.demand == src.demand
    ensures WellTree(dst') && dst'.cpu == dst.cpu && dst'.demand == dst.demand
    ensures ok ==> Shows(m, src, m', dst') && TreeCopiedAs(src, src', dst', mode)
    ensures !ok ==> Exhausted(m')
    ensures ok <==> CopyCost(src, mode) <= Spare(m.free)
    ensures ok ==> Spare(m'.free) == Spare(m.free) - CopyCost(src, mode)
    ensures SameUse(OfTree(src), OfTree(src'))
  {
    hide MemOk, With, OfEntries, OfNodes, Add, OfTree, Find, Grew, WellNode, Spare, EntriesCost, KidsCost;
    SplitTree(base, src);
    GrewRefl(m, With(base, OfTree(src)));
    ghost var base1 := With(base, OfNodes(src.indir));
    var es, d, ks, dk;
    ok, m', es, d := CopyEntries(m, src.direct, dst.direct, mode, dst.cpu, base1);
    src', dst' := src.(direct := es), dst.(direct := d);
    GrewShape(m, m');
    DirectPair(base, src, es, dst, d);
    DirectCopied(src, es, dst, d);
    TreeUse(src, src');
    if !ok {
      return;
    }
    ghost var base2, m1 := With(base, Add(OfEntries(es), OfEntries(d))), m';
    ok, m', ks, dk := CopyKids(m', src.indir, mode, LEVELS, TREES, dst.cpu, base2);
    GrewTrans(m, m1, m');
    src', dst' := src'.(indir := ks), dst'.(indir := dk);
    TreePair(base, src', dst');
    IndirSame(src, src');
    TreeUse(src, src');
    if ok {
      CopiedKept(m, src.direct, m1, m', d, DIRECT, With(base, OfNodes(src.indir)), OfEntries(es));
      IndirKept(m, m1, m', src, dk, base);
      TreeShows(m, src, m', dst');
      TreeModes(src, src', dst', mode);
    }
  }

  lemma TreeUse(t: Tree, t': Tree)
    requires SamePages(t.direct, t'.direct) && SameUse(OfNodes(t.indir), OfNodes(t'.indir))
    ensures SameUse(OfTree(t), OfTree(t'))
  {
    hide OfEntries, OfNodes;
    SameEntriesUse(t.direct, t'.direct);
  }

  lemma GrewRefl(m: Mem, b: Books)
    requires MemOk(m, b)
    ensures Grew(m, m)
  {
  }

  /** The books half way through a copy: the direct entries are done, the indirect trees are not. */
  lemma DirectPair(base: Books, src: Tree, es: seq<Entry>, dst: Tree, d: seq<Entry>)
    requires Blank(dst)
    ensures With(With(base, OfNodes(src.indir)), Add(OfEntries(es), OfEntries(d)))
            == With(With(base, Add(OfEntries(es), OfEntries(d))), OfNodes(src.indir))
            == With(base, Add(OfTree(src.(direct := es)), OfTree(dst.(direct := d))))
    ensures BaseOk(base) ==> BaseOk(With(base, Add(OfEntries(es), OfEntries(d))))
  {
    hide OfEntries, OfNodes;
    EntriesSub(es);
    EntriesSub(d);
    AbsentNodes(dst.indir);
    AddNone(OfNodes(src.indir));
    TreePair(base, src.(direct := es), dst.(direct := d));
    WithAdd(base, OfNodes(src.indir), Add(OfEntries(es), OfEntries(d)));
    WithAdd(base, Add(OfEntries(es), OfEntries(d)), OfNodes(src.indir));
  }

  lemma TreePair(base: Books, s: Tree, d: Tree)
    ensures With(base, Add(OfTree(s), OfTree(d)))
            == With(With(base, Add(OfEntries(s.direct), OfEntries(d.direct))), Add(OfNodes(s.indir), OfNodes(d.indir)))
  {
    hide With, Add, OfEntries, OfNodes;
    FramePair(base, OfEntries(s.direct), OfEntries(d.direct), OfNodes(s.indir), OfNodes(d.indir));
  }

  lemma DirectCopied(src: Tree, es: seq<Entry>, dst: Tree, d: seq<Entry>)
    requires WellTree(src) && SamePages(src.direct, es) && Blank(dst) && Filled(dst.direct, d)
    ensures WellTree(src.(direct := es)) && SameTreePages(src, src.(direct := es)) && WellTree(dst.(direct := d))
  {
    hide Lookup, Span, Base;
  }

  lemma IndirSame(src: Tree, src': Tree)
    requires WellTree(src) && SamePages(src.direct, src'.direct)
    requires KidsOk(src'.indir, LEVELS) && KidsSamePages(src.indir, src'.indir, LEVELS)
    ensures WellTree(src') && SameTreePages(src, src')
  {
    hide Lookup, Span, WellNode;
    forall n | 0 <= n < CAPACITY ensures Find(src', n).page == Find(src, n).page {
      if n >= DIRECT {
        var i := TreeOf(n, 0);
        assert SameNodePages(src.indir[i], src'.indir[i], LEVELS[i]);
      }
    }
  }

  lemma IndirKept(m: Mem, m1: Mem, m': Mem, src: Tree, dk: seq<Node>, base: Books)
    requires MemOk(m, With(base, OfTree(src))) && Grew(m, m1) && WellTree(src)
    requires KidsOk(dk, LEVELS) && KidsCopied(m1, src.indir, m', dk, TREES, LEVELS)
    ensures KidsCopied(m, src.indir, m', dk, TREES, LEVELS)
  {
    hide MemOk, Grew, NodeCopied, WellNode, OfTree;
    SplitTree(base, src);
    forall i | 0 <= i < TREES ensures NodeCopied(m, src.indir[i], m', dk[i], LEVELS[i]) {
      KidOriginalKept(m, m1, src.indir, i, LEVELS, With(base, OfEntries(src.direct)));
      CopiedTrans(m, src.indir[i], m1, src.indir[i], m', dk[i], LEVELS[i]);
    }
  }

  lemma TreeModes(src: Tree, src': Tree, dst: Tree, mode: Mode)
    requires WellTree(src) && WellTree(src') && WellTree(dst)
             && EntriesCopiedAs(src.direct, src'.direct, dst.direct, DIRECT, mode)
    requires KidsCopiedAs(src.indir, src'.indir, dst.indir, TREES, LEVELS, mode)
    ensures TreeCopiedAs(src, src', dst, mode)
  {
    hide Lookup, Span, WellNode, CopiedAs;
    forall n | 0 <= n < CAPACITY ensures CopiedAs(Find(src, n), Find(src', n), Find(dst, n), mode) {
      if n >= DIRECT {
        var i := TreeOf(n, 0);
        assert NodeCopiedAs(src.indir[i], src'.indir[i], dst.indir[i], LEVELS[i], mode);
      }
    }
  }

  lemma TreeShows(m: Mem, src: Tree, m': Mem, dst: Tree)
    requires WellTree(src) && WellTree(dst) && Copied(m, src.direct, m', dst.direct, DIRECT)
    requires KidsCopied(m, src.indir, m', dst.indir, TREES, LEVELS)
    ensures Shows(m, src, m', dst)
  {
    hide Lookup, Span, WellNode;
    forall n | 0 <= n < CAPACITY ensures View(m', Find(dst, n)) == View(m, Find(src, n)) {
      if n >= DIRECT {
        var i := TreeOf(n, 0);
        assert NodeCopied(m, src.indir[i], m', dst.indir[i], LEVELS[i]);
      }
    }
  }

  /** The pages named in the books keep their contents. */
  ghost predicate Stable(m: Mem, m': Mem, b: Books) {
    SameShape(m, m') && forall p :: p in b.named ==> p < |m.bytes| && m'.bytes[p] == m.bytes[p]
  }

  /**
   pagetree_copy: the copy shows what the original shows, and the original and everything
   else in the system keep what they show.  When memory runs out the copy is left empty.
   It succeeds exactly when it takes no more pages than are free or only the target has.
   */
  method CopyTree(m: Mem, src: Tree, dst: Tree, mode: Mode, ghost base: Books)
      returns (ok: bool, m': Mem, src': Tree, dst': Tree)
    requires MemOk(m, With(base, Add(OfTree(src), OfTree(dst)))) && BaseOk(base) && WellTree(src) && WellTree(dst)
    requires dst.cpu < |m.free| && mode != Unset
    ensures MemOk(m', With(base, Add(OfTree(src'), OfTree(dst')))) && Stable(m, m', With(base, OfTree(src)))
    ensures WellTree(src') && SameTreePages(src, src') && src'.cpu == src.cpu && src'.demand == src.demand
    ensures WellTree(dst') && dst'.cpu == dst.cpu && dst'.demand == src.demand
    ensures ok ==> Shows(m, src, m', dst') && TreeCopiedAs(src, src', dst', mode)
    ensures !ok ==> Blank(dst')
    ensures ok <==> CopyCost(src, mode) <= |Unclaimed(m, With(base, OfTree(src)))|
    ensures Spare(m'.free) ==
              |Unclaimed(m, With(base, OfTree(src)))| - if ok then CopyCost(src, mode) else 0
    ensures m'.hw == m.hw
  {
    hide MemOk, With, Add, OfTree, Find, WellTree, Grew, CopyCost, Spare;
    ghost var b := With(base, OfTree(src));
    WithAdd(base, OfTree(src), OfTree(dst));
    TreeSub(base, src);
    m', dst' := FreeTree(m, dst, b);
    BlankTree(dst');
    ghost var m1 := m';
    SpareUnclaimed(m1, b);
    assert Unclaimed(m1, b) == Unclaimed(m, b);
    ok, m', src', dst' := CopyInto(m', src, dst'.(demand := src.demand), mode, base);
    NamedKept(m, m1, m', b);
    SourceKept(m, m1, src, m', dst', b);
    if !ok {
      WithAdd(base, OfTree(src'), OfTree(dst'));
      TreeSub(base, src');
      ghost var m2 := m';
      m', dst' := FreeTree(m', dst', With(base, OfTree(src')));
      BlankTree(dst');
      AddNone(OfTree(src'));
      SameUnclaimed(m, m2, base, OfTree(src), OfTree(src'));
      NamedStill(m, m2, m', b);
    }
  }

  lemma TreeSub(base: Books, t: Tree)
    ensures BaseOk(base) ==> BaseOk(With(base, OfTree(t)))
    ensures Sub(OfTree(t))
  {
    hide OfEntries, OfNodes;
    EntriesSub(t.direct);
    NodesSub(t.indir);
  }

  lemma SameUnclaimed(m: Mem, m': Mem, base: Books, t: Tally, t': Tally)
    requires SameUse(t, t') && m'.nodeOf == m.nodeOf && m'.hw == m.hw
    ensures Unclaimed(m', With(base, t')) == Unclaimed(m, With(base, t))
  {
  }

  lemma NamedKept(m: Mem, m1: Mem, m2: Mem, b: Books)
    requires m1.bytes == m.bytes && SameShape(m, m1) && MemOk(m1, b) && Grew(m1, m2)
    ensures Stable(m, m2, b)
  {
    forall p | p in b.named ensures p < |m.bytes| && m2.bytes[p] == m.bytes[p] { NamedNotFree(m1, b, p); }
  }

  lemma NamedStill(m: Mem, m1: Mem, m2: Mem, b: Books)
    requires Stable(m, m1, b) && m2.bytes == m1.bytes && SameShape(m1, m2)
    ensures Stable(m, m2, b)
  {
  }

  lemma SourceKept(m: Mem, m1: Mem, src: Tree, m2: Mem, dst: Tree, b: Books)
    requires m1.bytes == m.bytes && WellTree(src) && WellTree(dst)
    ensures Shows(m1, src, m2, dst) ==> Shows(m, src, m2, dst)
  {
    hide WellTree, Find;
  }
}
