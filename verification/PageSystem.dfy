/**
 All page trees of the kernel over one memory.  Whatever the sharing, every tree behaves
 like a private array of pages: the system refines one flat image per tree.
 */
module PageSystem {
  import opened PageMemory
  import opened PageIndex
  import opened PageTree
  import opened PageEntries
  import opened PagePaths
  import opened PageNodes
  import opened PageForest
  import Arith

  /** What a tree shows, page number by page number. */
  type Image = seq<Contents>

  ghost function ImageOf(m: Mem, t: Tree): (im: Image)
    requires WellTree(t)
    ensures |im| == CAPACITY
  {
    seq(CAPACITY, n requires 0 <= n < CAPACITY => View(m, Find(t, n)))
  }

  ghost predicate Wells(ts: seq<Tree>) {
    forall j :: 0 <= j < |ts| ==> WellTree(ts[j])
  }

  predicate CpusOk(ts: seq<Tree>, cpus: nat) {
    forall j :: 0 <= j < |ts| ==> ts[j].cpu < cpus
  }

  ghost function Images(m: Mem, ts: seq<Tree>): (ims: seq<Image>)
    requires Wells(ts)
    ensures |ims| == |ts| && forall j :: 0 <= j < |ts| ==> |ims[j]| == CAPACITY
  {
    seq(|ts|, j requires 0 <= j < |ts| => ImageOf(m, ts[j]))
  }

  // The books of many trees.

  ghost function OfTrees(ts: seq<Tree>): Tally {
    if ts == [] then NONE else Add(OfTree(ts[0]), OfTrees(ts[1..]))
  }

  /** The books of some trees and of the pages handed out otherwise. */
  ghost function Ledger(ts: seq<Tree>, loose: set<Page>): Books {
    With(Books(multiset{}, multiset{}, multiset{}, loose), OfTrees(ts))
  }

  function Without<T>(ts: seq<T>, i: nat): seq<T>
    requires i < |ts|
  {
    ts[..i] + ts[i + 1..]
  }

  lemma {:induction false} SplitTrees(ts: seq<Tree>, i: nat, t: Tree)
    requires i < |ts|
    ensures OfTrees(ts[i := t]) == Add(OfTree(t), OfTrees(Without(ts, i)))
  {
    hide Add, OfTree;
    var rest := Without(ts, i);
    if i == 0 {
      assert ts[i := t][1..] == rest;
    } else {
      SplitTrees(ts[1..], i - 1, t);
      assert ts[i := t][1..] == ts[1..][i - 1 := t];
      assert rest[1..] == Without(ts[1..], i - 1);
      AddSwap(OfTree(ts[0]), OfTree(t), OfTrees(Without(ts[1..], i - 1)));
    }
  }

  lemma {:induction false} TreesSub(ts: seq<Tree>)
    ensures Sub(OfTrees(ts))
  {
    hide OfTree;
    if ts != [] {
      TreeSub(Books(multiset{}, multiset{}, multiset{}, {}), ts[0]);
      TreesSub(ts[1..]);
    }
  }

  /** The rest of the system, seen from tree i. */
  lemma FocusTree(ts: seq<Tree>, i: nat, t: Tree, loose: set<Page>)
    requires i < |ts|
    ensures Ledger(ts[i := t], loose) == With(Ledger(Without(ts, i), loose), OfTree(t))
    ensures Without(ts[i := t], i) == Without(ts, i)
    ensures BaseOk(Ledger(Without(ts, i), loose)) && Ledger(ts, loose).loose == loose
    ensures forall l :: Ledger(ts, loose).(loose := l) == Ledger(ts, l)
  {
    hide OfTree, OfTrees;
    SplitTrees(ts, i, t);
    TreesSub(Without(ts, i));
    assert forall l :: Ledger(ts, loose).(loose := l) == Ledger(ts, l);
  }

  /** The rest of the system, seen from two trees. */
  ghost function RestOfTwo(ts: seq<Tree>, i: nat, j: nat, loose: set<Page>): Books
    requires i < |ts| && j < |ts| && i != j
  {
    Ledger(Without(Without(ts, j), if i < j then i else i - 1), loose)
  }

  lemma FocusTwo(ts: seq<Tree>, i: nat, j: nat, s: Tree, d: Tree, loose: set<Page>)
    requires i < |ts| && j < |ts| && i != j
    ensures BaseOk(RestOfTwo(ts, i, j, loose))
    ensures Ledger(ts[i := s][j := d], loose) == With(RestOfTwo(ts, i, j, loose), Add(OfTree(s), OfTree(d)))
    ensures Ledger(Without(ts, j), loose) == With(RestOfTwo(ts, i, j, loose), OfTree(ts[i]))
  {
    hide OfTree, OfTrees;
    var i' := if i < j then i else i - 1;
    var us := Without(ts, j);
    FocusTree(us, i', us[i'], loose);
    assert us[i' := us[i']] == us && us[i'] == ts[i];
    FocusTree(ts[i := s], j, d, loose);
    assert Without(ts[i := s], j) == us[i' := s];
    FocusTree(us, i', s, loose);
    WithAdd(RestOfTwo(ts, i, j, loose), OfTree(s), OfTree(d));
  }

  lemma TreeNamed(ts: seq<Tree>, j: nat, loose: set<Page>)
    requires j < |ts|
    ensures OfTree(ts[j]).named <= Ledger(ts, loose).named
  {
    hide OfTree, OfTrees;
    SplitTrees(ts, j, ts[j]);
    assert ts[j := ts[j]] == ts;
  }

  // Images, when one tree changes.

  lemma ImageStable(m: Mem, m': Mem, t: Tree, b: Books)
    requires WellTree(t) && OfTree(t).named <= b.named && Stable(m, m', b)
    ensures ImageOf(m', t) == ImageOf(m, t)
  {
    hide WellTree, OfTree, Find;
    forall n | 0 <= n < CAPACITY ensures View(m', Find(t, n)) == View(m, Find(t, n)) {
      FindIn(t, n);
    }
  }

  lemma KeepsStable(m: Mem, m': Mem, b: Books, c: Books)
    requires MemOk(m, b) && KeepsBytes(m, m') && c.named <= b.named
    ensures Stable(m, m', c)
  {
    hide MemOk;
    forall p | p in c.named ensures p < |m.bytes| && m'.bytes[p] == m.bytes[p] {
      assert p in b.named;
      NamedNotFree(m, b, p);
    }
  }

  /** When all pages named elsewhere keep their contents, only the image of tree i may change. */
  lemma Lift(m: Mem, m': Mem, ts: seq<Tree>, i: nat, t': Tree, loose: set<Page>)
    requires i < |ts| && Wells(ts) && Wells(ts[i := t']) && WellTree(t')
    requires Stable(m, m', Ledger(Without(ts, i), loose))
    ensures Images(m', ts[i := t']) == Images(m, ts)[i := ImageOf(m', t')]
  {
    hide WellTree, OfTree, Ledger, Stable, ImageOf;
    forall j | 0 <= j < |ts| && j != i ensures ImageOf(m', ts[j]) == ImageOf(m, ts[j]) {
      var us := Without(ts, i);
      var j' := if j < i then j else j - 1;
      assert us[j'] == ts[j];
      TreeNamed(us, j', loose);
      ImageStable(m, m', ts[j], Ledger(us, loose));
    }
    assert Images(m', ts[i := t']) == Images(m, ts)[i := ImageOf(m', t')];
  }

  /** When only entry n of the tree may have changed, only page n of the image may have. */
  lemma OneChanged(m: Mem, t: Tree, m': Mem, t': Tree, n: nat, base: Books)
    requires MemOk(m, With(base, OfTree(t))) && KeepsBytes(m, m') && WellTree(t) && WellTree(t') && n < CAPACITY
    requires forall k :: 0 <= k < CAPACITY && k != n ==> Find(t', k) == Find(t, k)
    ensures ImageOf(m', t') == ImageOf(m, t)[n := View(m', Find(t', n))]
  {
    hide MemOk, WellTree, OfTree, Find, KeepsBytes;
    KeepsStable(m, m', With(base, OfTree(t)), With(base, OfTree(t)));
    ImageStable(m, m', t, With(base, OfTree(t)));
    forall k | 0 <= k < CAPACITY && k != n ensures View(m', Find(t', k)) == View(m, Find(t, k)) {
      assert ImageOf(m', t)[k] == ImageOf(m, t)[k];
    }
  }

  lemma ImageSame(m: Mem, t: Tree, m': Mem, t': Tree)
    requires WellTree(t) && WellTree(t') && Shows(m, t, m', t')
    ensures ImageOf(m', t') == ImageOf(m, t)
  {
    hide WellTree, Find;
    assert ImageOf(m', t') == ImageOf(m, t);
  }

  ghost function BlankImage(): Image {
    seq(CAPACITY, _ => Missing)
  }

  // Ownership and exact counts.

  lemma {:induction false} LookupReaches(node: Node, level: nat, n: nat)
    requires WellNode(node, level) && n < Span(level) && Lookup(node, level, n) != ZERO
    ensures HasPath(node, level, n)
    decreases level
  {
    if node.Inner? {
      LookupReaches(node.kids[SlotAt(level, n)], level - 1, RestAt(level, n));
    }
  }

  lemma FindReaches(t: Tree, n: nat)
    requires WellTree(t) && n < CAPACITY && Find(t, n) != ZERO
    ensures Reaches(t, n)
  {
    if n >= DIRECT {
      var i := TreeOf(n, 0);
      LookupReaches(t.indir[i], i, n - Base(i));
    }
  }

  /** An entry that owns its page is the only one in the system that names it. */
  lemma OnlyOwner(m: Mem, t: Tree, n: nat, base: Books)
    requires MemOk(m, With(base, OfTree(t))) && WellTree(t) && n < CAPACITY
    requires Find(t, n).page.At? && Find(t, n).mode == Excl
    ensures Find(t, n).page.p < |m.bytes| && Find(t, n).page.p !in base.named
    ensures forall k :: 0 <= k < CAPACITY && k != n ==> Find(t, k).page != Find(t, n).page
  {
    hide WellTree, OfTree, Find, Reaches, Replace, ListsOk;
    var p := Find(t, n).page.p;
    FindReaches(t, n);
    ReplaceFind(t, n, ZERO);
    var rest := ReplaceTally(t, n, ZERO);
    assert With(base, OfTree(t)).excl[p] > 0;
    assert PageOk(m, With(base, OfTree(t)), p);
    assert p !in rest.named;
    AddNone(rest);
    forall k | 0 <= k < CAPACITY && k != n ensures Find(t, k).page != Find(t, n).page {
      FindIn(Replace(t, n, ZERO), k);
    }
  }

  /** A page that two entries of the system name is exclusive in neither. */
  lemma SharedNotOwned(m: Mem, ts: seq<Tree>, loose: set<Page>, i: nat, n: nat, j: nat, k: nat)
    requires Wells(ts) && MemOk(m, Ledger(ts, loose)) && i < |ts| && j < |ts| && n < CAPACITY && k < CAPACITY
             && (i, n) != (j, k)
    requires Find(ts[i], n).page.At? && Find(ts[i], n).page == Find(ts[j], k).page
    ensures Find(ts[i], n).mode != Excl && Find(ts[j], k).mode != Excl
  {
    hide WellTree, OfTree, Find, MemOk, Ledger, With;
    NotOwnedTwice(m, ts, loose, i, n, j, k);
    NotOwnedTwice(m, ts, loose, j, k, i, n);
  }

  lemma NotOwnedTwice(m: Mem, ts: seq<Tree>, loose: set<Page>, i: nat, n: nat, j: nat, k: nat)
    requires Wells(ts) && MemOk(m, Ledger(ts, loose)) && i < |ts| && j < |ts| && n < CAPACITY && k < CAPACITY
             && (i, n) != (j, k)
    requires Find(ts[i], n).page.At? && Find(ts[i], n).page == Find(ts[j], k).page
    ensures Find(ts[i], n).mode != Excl
  {
    hide WellTree, OfTree, Find, MemOk, Ledger, With;
    if Find(ts[i], n).mode == Excl {
      var us := Without(ts, i);
      FocusTree(ts, i, ts[i], loose);
      assert ts[i := ts[i]] == ts;
      OnlyOwner(m, ts[i], n, Ledger(us, loose));
      FindIn(ts[j], k);
      if j != i {
        var j' := if j < i then j else j - 1;
        assert us[j'] == ts[j];
        TreeNamed(us, j', loose);
        assert false;
      }
    }
  }

  /** A store through an owning entry shows there and nowhere else. */
  lemma StoreLift(m: Mem, ts: seq<Tree>, t: nat, n: nat, d: Data, loose: set<Page>)
    requires Wells(ts) && MemOk(m, Ledger(ts, loose)) && t < |ts| && n < CAPACITY
    requires Find(ts[t], n).page.At? && Find(ts[t], n).mode == Excl
    ensures var p := Find(ts[t], n).page.p;
            && p < |m.bytes| && MemOk(Write(m, p, d), Ledger(ts, loose))
            && Images(Write(m, p, d), ts) == Images(m, ts)[t := Images(m, ts)[t][n := Bytes(d)]]
  {
    hide WellTree, OfTree, Find, MemOk, Ledger, With;
    var p, base := Find(ts[t], n).page.p, Ledger(Without(ts, t), loose);
    FocusTree(ts, t, ts[t], loose);
    assert ts[t := ts[t]] == ts;
    OnlyOwner(m, ts[t], n, base);
    WriteOk(m, p, d, Ledger(ts, loose));
    var m' := Write(m, p, d);
    BaseStable(m, p, d, base, OfTree(ts[t]));
    Lift(m, m', ts, t, ts[t], loose);
    forall k | 0 <= k < CAPACITY ensures ImageOf(m', ts[t])[k] == ImageOf(m, ts[t])[n := Bytes(d)][k] {
    }
    assert ImageOf(m', ts[t]) == ImageOf(m, ts[t])[n := Bytes(d)];
  }

  lemma BaseStable(m: Mem, p: Page, d: Data, base: Books, t: Tally)
    requires MemOk(m, With(base, t)) && p < |m.bytes| && p !in base.named
    ensures Stable(m, Write(m, p, d), base)
  {
    hide ListsOk;
    forall q | q in base.named ensures q < |m.bytes| { assert q in With(base, t).named; }
  }

  /** The page numbers of a tree whose entries name p. */
  ghost function Places(t: Tree, p: Page): set<nat>
    requires WellTree(t)
  {
    set n: nat | n < CAPACITY && Find(t, n).page == At(p)
  }

  /** The number of entries in the system that name p. */
  ghost function References(ts: seq<Tree>, p: Page): nat
    requires Wells(ts)
  {
    if ts == [] then 0 else |Places(ts[0], p)| + References(ts[1..], p)
  }

  lemma {:induction false} EntryFound(es: seq<Entry>, p: Page) returns (i: nat)
    requires p in OfEntries(es).named
    ensures i < |es| && es[i].page == At(p)
  {
    if es[0].page == At(p) {
      i := 0;
    } else {
      i := EntryFound(es[1..], p);
      i := i + 1;
    }
  }

  lemma {:induction false} KidFound(ns: seq<Node>, p: Page) returns (i: nat)
    requires p in OfNodes(ns).named
    ensures i < |ns| && p in OfNode(ns[i]).named
  {
    if p in OfNode(ns[0]).named {
      i := 0;
    } else {
      i := KidFound(ns[1..], p);
      i := i + 1;
    }
  }

  lemma {:induction false} LookupFound(node: Node, level: nat, p: Page) returns (n: nat)
    requires WellNode(node, level) && p in OfNode(node).named
    ensures n < Span(level) && Lookup(node, level, n).page == At(p)
    decreases level
  {
    hide OfEntries, OfNodes;
    match node
    case Leaf(f, es) => n := EntryFound(es, p);
    case Inner(f, kids) =>
      var i := KidFound(kids, p);
      var r := LookupFound(kids[i], level - 1, p);
      var w := Span(level - 1);
      PageIndex.Below(i, r, w, FANOUT);
      Arith.DivModOf(i * w + r, w, i, r);
      n := i * w + r;
  }

  lemma NamedFound(t: Tree, p: Page) returns (n: nat)
    requires WellTree(t) && p in OfTree(t).named
    ensures n < CAPACITY && Find(t, n).page == At(p)
  {
    hide OfEntries, OfNodes, Lookup, WellNode, Span;
    if p in OfEntries(t.direct).named {
      n := EntryFound(t.direct, p);
      BaseMonotone(0, TREES);
    } else {
      var i := KidFound(t.indir, p);
      var k := LookupFound(t.indir[i], i, p);
      n := Base(i) + k;
      BaseMonotone(i, TREES);
      if i > 0 { BaseMonotone(0, i); }
      TreeOfUnique(n, i);
    }
  }

  lemma PlaceRemoved(t: Tree, t': Tree, n: nat, p: Page)
    requires WellTree(t) && WellTree(t') && n < CAPACITY && Find(t, n).page == At(p)
    requires forall k :: 0 <= k < CAPACITY ==> Find(t', k) == if k == n then ZERO else Find(t, k)
    ensures n in Places(t, p) && Places(t', p) == Places(t, p) - {n}
  {
    hide Find, WellTree;
  }

  lemma NoPlaces(t: Tree, p: Page)
    requires WellTree(t) && p !in OfTree(t).named
    ensures Places(t, p) == {}
  {
    hide OfTree, Find, WellTree;
    forall n: nat | n < CAPACITY ensures Find(t, n).page != At(p) { FindIn(t, n); }
  }

  /** The tally of a tree counts the entries that name p. */
  lemma {:induction false} PlacesCounted(t: Tree, p: Page)
    requires WellTree(t)
    ensures |Places(t, p)| == OfTree(t).named[p]
    decreases OfTree(t).named[p]
  {
    hide OfTree, Find, WellTree, Reaches, Replace, Places;
    if p !in OfTree(t).named {
      NoPlaces(t, p);
    } else {
      var n := NamedFound(t, p);
      FindReaches(t, n);
      ReplaceFind(t, n, ZERO);
      var rest := ReplaceTally(t, n, ZERO);
      var t' := Replace(t, n, ZERO);
      PlaceRemoved(t, t', n, p);
      PlacesCounted(t', p);
    }
  }

  lemma {:induction false} ReferencesCounted(ts: seq<Tree>, p: Page)
    requires Wells(ts)
    ensures References(ts, p) == OfTrees(ts).named[p]
  {
    hide OfTree, WellTree, Places;
    if ts != [] {
      PlacesCounted(ts[0], p);
      ReferencesCounted(ts[1..], p);
    }
  }

  /**
   The count of a page is the number of entries that name it plus its pins, and a page is
   free exactly when that is zero and it is neither an indirect page nor handed out.
   */
  lemma CountsExact(m: Mem, ts: seq<Tree>, loose: set<Page>, p: Page)
    requires Wells(ts) && MemOk(m, Ledger(ts, loose)) && p < |m.nodeOf|
    ensures Sized(m) && m.ref[p] == References(ts, p) + m.hw[p]
    ensures m.freeFlag[p] <==> References(ts, p) == 0 && m.hw[p] == 0 && p !in OfTrees(ts).frames && p !in loose
    ensures m.freeFlag[p] <==> p in m.free[m.nodeOf[p]]
  {
    hide WellTree, OfTrees, References;
    ReferencesCounted(ts, p);
    assert PageOk(m, Ledger(ts, loose), p);
  }

  /** The settings of a tree that page operations leave alone. */
  function Settings(ts: seq<Tree>): seq<(bool, nat)> {
    seq(|ts|, i requires 0 <= i < |ts| => (ts[i].demand, ts[i].cpu))
  }

  ghost function PagesBelow(n: nat): (s: set<Page>)
    ensures forall p: Page :: p in s <==> p < n
  {
    if n == 0 then {} else PagesBelow(n - 1) + {n - 1}
  }

  /** The number of nodes and of pages. */
  function Shape(m: Mem): (nat, nat) {
    (|m.free|, |m.nodeOf|)
  }

  /** How many pages are free after page n of a tree is fetched. */
  ghost function SpareFetched(m: Mem, t: Tree, n: nat, mode: Mode): int
    requires WellTree(t)
  {
    if n >= CAPACITY then Spare(m.free)
    else
      FetchSpare(Find(t, n), mode, t.demand, |LackOf(t, n)|, Spare(m.free), LastRef(m.ref, Find(t, n).page))
  }

  class Kernel {
    var mem: Mem
    var trees: seq<Tree>
    ghost var loose: set<Page>

    /** Counts, sharing modes, free lists and indirect pages all agree. */
    ghost predicate Valid()
      reads this
    {
      Wells(trees) && CpusOk(trees, |mem.free|) && MemOk(mem, Ledger(trees, loose))
    }

    ghost function Shown(): (ims: seq<Image>)
      reads this
      requires Valid()
      ensures |ims| == |trees| && forall j :: 0 <= j < |trees| ==> |ims[j]| == CAPACITY
    {
      Images(mem, trees)
    }

    /** At boot every page belongs to the kernel; page_free hands pages to the allocator. */
    constructor (nodeOf: seq<nat>, cpus: nat, bytes: seq<Data>)
      requires |bytes| == |nodeOf| && forall p :: 0 <= p < |nodeOf| ==> nodeOf[p] < cpus
      ensures Valid() && trees == [] && mem.nodeOf == nodeOf && mem.bytes == bytes && |mem.free| == cpus
      ensures loose == PagesBelow(|nodeOf|) && Spare(mem.free) == 0
    {
      var n := |nodeOf|;
      mem := Mem(nodeOf, seq(cpus, _ => []), seq(n, _ => false), seq(n, _ => 0), seq(n, _ => 0), bytes);
      trees, loose := [], PagesBelow(n);
      new;
      SpareZero(mem.free);
    }

    /** pagetree_init. */
    method NewTree(demand: bool, cpu: nat) returns (t: nat)
      requires Valid() && cpu < |mem.free|
      modifies this`trees
      ensures Valid() && t == old(|trees|) && Settings(trees) == old(Settings(trees)) + [(demand, cpu)]
      ensures Shown() == old(Shown()) + [BlankImage()] && Blank(trees[t]) && old(trees) <= trees
    {
      hide MemOk, WellTree, Ledger, Find;
      t := |trees|;
      var blank := Tree([ZERO, ZERO, ZERO], [Absent, Absent, Absent, Absent], demand, cpu);
      BlankTree(blank);
      BlankShown(mem, blank);
      LedgerGrown(trees, blank, loose);
      trees := trees + [blank];
      assert Images(mem, trees) == old(Images(mem, trees)) + [BlankImage()];
    }

    /** page_alloc for any other part of the kernel. */
    method Alloc(cpu: nat) returns (ok: bool, p: Page)
      requires Valid() && cpu < |mem.free|
      modifies this
      ensures Valid() && trees == old(trees) && Shape(mem) == old(Shape(mem)) && mem.bytes == old(mem.bytes)
      ensures Shown() == old(Shown())
      ensures ok <==> old(Spare(mem.free)) > 0
      ensures ok ==> p !in old(loose) && loose == old(loose) + {p} && p < |mem.bytes|
      ensures ok ==> Spare(mem.free) == old(Spare(mem.free)) - 1
      ensures !ok ==> loose == old(loose) && mem == old(mem)
      ensures mem.hw == old(mem.hw) && mem.ref == old(mem.ref)
    {
      hide MemOk, WellTree, Ledger, Find, Spare;
      var m';
      LedgerLoose(trees, loose, loose);
      ok, p, m' := AllocPage(mem, cpu, Ledger(trees, loose));
      if ok {
        LedgerLoose(trees, loose, loose + {p});
        ImagesOfBytes(mem, m', trees);
        mem, loose := m', loose + {p};
      }
    }

    /** page_free by whoever was handed the page. */
    method FreePage(p: Page)
      requires Valid() && p in loose
      modifies this
      ensures Valid() && trees == old(trees) && Shape(mem) == old(Shape(mem)) && mem.bytes == old(mem.bytes)
      ensures Shown() == old(Shown()) && loose == old(loose) - {p} && Spare(mem.free) == old(Spare(mem.free)) + 1
      ensures mem.hw == old(mem.hw) && mem.ref == old(mem.ref)
    {
      hide MemOk, WellTree, Ledger, Find, Spare;
      LedgerLoose(trees, loose, loose - {p});
      FreeLooseOk(mem, p, Ledger(trees, loose));
      FreeSpare(mem, p);
      ImagesOfBytes(mem, PageMemory.PageFree(mem, p), trees);
      mem, loose := PageMemory.PageFree(mem, p), loose - {p};
    }

    /** page_zero, or any other store by the holder of a page that no tree has. */
    method Fill(p: Page, d: Data)
      requires Valid() && p in loose
      modifies this`mem
      ensures Valid() && Shape(mem) == old(Shape(mem)) && Shown() == old(Shown())
      ensures p < |old(mem).bytes| && mem.bytes == old(mem).bytes[p := d]
    {
      hide MemOk, WellTree, Ledger, Find;
      LooseNotNamed(mem, p, trees, loose);
      WriteOk(mem, p, d, Ledger(trees, loose));
      UnnamedStore(mem, p, d, trees, loose);
      mem := Write(mem, p, d);
    }

    /** pagetree_get_page. */
    method Get(t: nat, n: nat, mode: Mode) returns (r: Outcome, page: PagePtr)
      requires Valid() && t < |trees|
      modifies this
      ensures Valid() && loose == old(loose) && Shape(mem) == old(Shape(mem)) && |trees| == old(|trees|)
      ensures Settings(trees) == old(Settings(trees)) && trees == old(trees)[t := trees[t]]
      ensures r == NoSpace <==> n >= CAPACITY
      ensures r == Ok ==> Find(trees[t], n).page == page
      ensures r == Ok ==> Shown() == old(Shown())[t := old(Shown())[t][n := View(mem, Entry(page, Excl))]]
      ensures r == Ok && old(Shown())[t][n] != Missing ==> Shown() == old(Shown())
      ensures r == Ok && mode == Cow && page.At? ==> Find(trees[t], n) == Entry(page, Excl)
      ensures WellTree(trees[t]) && old(WellTree(trees[t])) && (r == Ok ==> OpenedTo(old(trees[t]), trees[t], n))
      ensures n < CAPACITY ==>
                if r == Ok then EntryFetched(old(Find(trees[t], n)), Find(trees[t], n), mode, old(trees[t].demand))
                else Find(trees[t], n) == old(Find(trees[t], n))
      ensures r == Ok ==> (page.At? <==> old(Shown()[t][n] != Missing || trees[t].demand))
      ensures r != Ok ==> Shown() == old(Shown())
      ensures Spare(mem.free) == old(SpareFetched(mem, trees[t], n, mode)) && mem.hw == old(mem.hw)
      ensures forall k :: 0 <= k < CAPACITY && k != n ==> Find(trees[t], k) == old(Find(trees[t], k))
      ensures n < CAPACITY ==> r == Fetched(old(Find(trees[t], n)), mode, old(trees[t].demand),
                                           old(|LackOf(trees[t], n)|), old(Spare(mem.free)))
      ensures n >= DIRECT ==> r != Fault
    {
      hide MemOk, WellTree, Ledger, OfTree, Find, With, Fetched, LackOf, Spare, Copies, FetchSpare, OpenedTo;
      ghost var base := Ledger(Without(trees, t), loose);
      FocusTree(trees, t, trees[t], loose);
      assert trees[t := trees[t]] == trees;
      var m', t';
      r, m', t', page := GetPage(mem, trees[t], n, mode, base);
      FocusTree(trees, t, t', loose);
      WithNamed(base, OfTree(trees[t]));
      KeepsStable(mem, m', With(base, OfTree(trees[t])), base);
      Lift(mem, m', trees, t, t', loose);
      if n < CAPACITY {
        assert Images(mem, trees)[t][n] == View(mem, Find(trees[t], n));
        ShownReaches(mem, trees, t, n, loose);
        SetSame(Shown(), t, n);
        OneChanged(mem, trees[t], m', t', n, base);
      }
      if r != Ok {
        FindsShow(mem, trees[t], m', t');
        ImageSame(mem, trees[t], m', t');
      }
      mem, trees := m', trees[t := t'];
    }

    /**
     pagetree_put_page of nothing, of a page handed out, or of one that some entry names
     already: that breaks the books unless the page goes back into its only entry while pinned.
     */
    method Put(t: nat, n: nat, page: PagePtr) returns (r: Outcome)
      requires Valid() && t < |trees|
      requires page.At? ==> page.p in loose || page.p in Ledger(trees, loose).named
      modifies this
      ensures Wells(trees) && CpusOk(trees, |mem.free|) && Shape(mem) == old(Shape(mem))
      ensures |trees| == old(|trees|) && Settings(trees) == old(Settings(trees))
      ensures mem.bytes == old(mem.bytes) && trees == old(trees)[t := trees[t]]
      ensures loose == old(loose) - if r == Ok && page.At? then {page.p} else {}
      ensures r == NoSpace <==> n >= CAPACITY
      ensures Valid() <==> (r == Ok ==> Handed(old(loose), page)
                                        || PutsBack(old(mem), old(Ledger(trees, loose)), old(Find(trees[t], n)), page))
      ensures r == Ok ==> Find(trees[t], n) == Entry(page, Excl)
      ensures r == NoMem ==> Find(trees[t], n) == old(Find(trees[t], n))
      ensures r == Ok && Valid() ==> Shown() == old(Shown())[t := old(Shown())[t][n := View(mem, Entry(page, Excl))]]
      ensures r == NoMem <==> n < CAPACITY && old(|LackOf(trees[t], n)| > Spare(mem.free))
      ensures r == Ok || r == NoSpace || r == NoMem
      ensures r == Ok ==> WellTree(old(trees[t])) && WellTree(trees[t]) && OpenedTo(old(trees[t]), trees[t], n)
      ensures r == Ok ==> Spare(mem.free) ==
                          old(Spare(mem.free) - |LackOf(trees[t], n)| + LastRef(mem.ref, Find(trees[t], n).page))
      ensures r == Ok && page.Nil? ==> mem.ref == old(Unref(mem.ref, Find(trees[t], n).page))
      ensures mem.hw == old(mem.hw) && (r == NoMem ==> Spare(mem.free) == 0) && (r == NoSpace ==> mem == old(mem))
      ensures forall k :: 0 <= k < CAPACITY && k != n ==> Find(trees[t], k) == old(Find(trees[t], k))
      ensures n < CAPACITY && old(Shown())[t][n] != Missing ==> r == Ok
      ensures r != Ok ==> Shown() == old(Shown())
    {
      hide MemOk, WellTree, Ledger, OfTree, Find, With, Reaches, LackOf, Spare, OpenedTo;
      ghost var base := Ledger(Without(trees, t), loose);
      FocusTree(trees, t, trees[t], loose);
      assert trees[t := trees[t]] == trees;
      LedgerLoose(Without(trees, t), loose, loose);
      if n < CAPACITY {
        ShownReaches(mem, trees, t, n, loose);
      }
      var m', t';
      r, m', t' := PutPage(mem, trees[t], n, page, base);
      ghost var loose' := loose - if r == Ok && page.At? then {page.p} else {};
      FocusTree(trees, t, t', loose');
      WithNamed(base, OfTree(trees[t]));
      SameBytes(mem, m', Ledger(trees, loose));
      KeepsStable(mem, m', With(base, OfTree(trees[t])), base);
      Lift(mem, m', trees, t, t', loose);
      if n < CAPACITY {
        OneChanged(mem, trees[t], m', t', n, base);
      }
      if r != Ok {
        FindsShow(mem, trees[t], m', t');
        ImageSame(mem, trees[t], m', t');
      }
      LedgerLoose(Without(trees, t), loose, loose');
      assert r != Ok ==> loose' == loose;
      assert r == Ok ==> base.(loose := loose - if page.At? then {page.p} else {}) == Ledger(Without(trees, t), loose');
      mem, trees, loose := m', trees[t := t'], loose';
    }

    /** A store through a tree: the page is first fetched in copy-on-write mode. */
    method Store(t: nat, n: nat, d: Data) returns (r: Outcome, done: bool)
      requires Valid() && t < |trees|
      modifies this
      ensures Valid() && loose == old(loose) && Shape(mem) == old(Shape(mem)) && |trees| == old(|trees|)
      ensures Settings(trees) == old(Settings(trees)) && trees == old(trees)[t := trees[t]]
      ensures r == NoSpace <==> n >= CAPACITY
      ensures n < CAPACITY ==> r == Fetched(old(Find(trees[t], n)), Cow, old(trees[t].demand),
                                           old(|LackOf(trees[t], n)|), old(Spare(mem.free)))
      ensures done <==> r == Ok && old(Shown()[t][n] != Missing || trees[t].demand)
      ensures Spare(mem.free) == old(SpareFetched(mem, trees[t], n, Cow)) && mem.hw == old(mem.hw)
      ensures WellTree(trees[t]) && old(WellTree(trees[t])) && (r == Ok ==> OpenedTo(old(trees[t]), trees[t], n))
      ensures n < CAPACITY ==>
                if r == Ok then EntryFetched(old(Find(trees[t], n)), Find(trees[t], n), Cow, old(trees[t].demand))
                else Find(trees[t], n) == old(Find(trees[t], n))
      ensures forall k :: 0 <= k < CAPACITY && k != n ==> Find(trees[t], k) == old(Find(trees[t], k))
      ensures done ==> r == Ok && Shown() == old(Shown())[t := old(Shown())[t][n := Bytes(d)]]
      ensures !done ==> Shown() == old(Shown())
    {
      hide MemOk, WellTree, Ledger, Find, Fetched, SpareFetched, LackOf, Spare, OpenedTo, EntryFetched;
      var page;
      r, page := Get(t, n, Cow);
      done := r == Ok && page.At?;
      if done {
        ghost var a := Shown();
        StoreLift(mem, trees, t, n, d, loose);
        SetTwice(old(Shown()), t, n, View(mem, Entry(page, Excl)), Bytes(d));
        mem := Write(mem, page.p, d);
      } else if r == Ok {
        SetSame(old(Shown()), t, n);
      }
    }

    /** page_zero, or any other store, to a page just put. */
    method Overwrite(t: nat, n: nat, d: Data)
      requires Valid() && t < |trees| && n < CAPACITY && Find(trees[t], n).page.At? && Find(trees[t], n).mode == Excl
      modifies this`mem
      ensures Valid() && Shape(mem) == old(Shape(mem)) && mem.free == old(mem.free)
      ensures Shown() == old(Shown())[t := old(Shown())[t][n := Bytes(d)]]
    {
      hide MemOk, WellTree, Ledger, Find;
      StoreLift(mem, trees, t, n, d, loose);
      mem := Write(mem, Find(trees[t], n).page.p, d);
    }

    /** pagetree_incref_hw: panics exactly when nobody has the page. */
    method Pin(p: Page) returns (r: Outcome)
      requires Valid() && p < |mem.nodeOf|
      modifies this`mem
      ensures Valid() && Shown() == old(Shown()) && Shape(mem) == old(Shape(mem)) && p < |old(mem).hw|
              && p < |old(mem).ref|
      ensures r == Panic <==> old(mem).ref[p] == 0
      ensures r != Panic ==> r == Ok && mem.hw == old(mem).hw[p := old(mem).hw[p] + 1]
      ensures r == Panic ==> mem == old(mem)
      ensures Spare(mem.free) == old(Spare(mem.free))
    {
      hide MemOk, WellTree, Ledger, Find;
      MemSized(mem, Ledger(trees, loose));
      if mem.ref[p] == 0 {
        return Panic;
      }
      PinOk(mem, p, Ledger(trees, loose));
      ImagesOfBytes(mem, IncrefHw(mem, p), trees);
      mem := IncrefHw(mem, p);
      return Ok;
    }

    /** pagetree_decref_hw: panics exactly when the page is not pinned; the last holder frees it. */
    method Unpin(p: Page) returns (r: Outcome)
      requires Valid() && p < |mem.nodeOf|
      modifies this`mem
      ensures Valid() && Shown() == old(Shown()) && Shape(mem) == old(Shape(mem)) && p < |old(mem).hw|
      ensures r == Panic <==> old(mem).hw[p] == 0
      ensures r != Panic ==> r == Ok && mem.hw == old(mem).hw[p := old(mem).hw[p] - 1]
      ensures r == Panic ==> mem == old(mem)
      ensures r == Ok ==> Spare(mem.free) == old(Spare(mem.free) + LastRef(mem.ref, At(p)))
    {
      hide MemOk, WellTree, Ledger, Find, Spare;
      MemSized(mem, Ledger(trees, loose));
      if mem.hw[p] == 0 {
        return Panic;
      }
      UnpinOk(mem, p, Ledger(trees, loose));
      DecrefSpare(mem.(hw := mem.hw[p := mem.hw[p] - 1]), p);
      ImagesOfBytes(mem, DecrefHw(mem, p), trees);
      mem := DecrefHw(mem, p);
      return Ok;
    }

    /** pagetree_free. */
    method Free(t: nat)
      requires Valid() && t < |trees|
      modifies this
      ensures Valid() && loose == old(loose) && Shape(mem) == old(Shape(mem)) && |trees| == old(|trees|)
      ensures Settings(trees) == old(Settings(trees)) && mem.hw == old(mem.hw)
      ensures Spare(mem.free) == old(|Unclaimed(mem, Ledger(Without(trees, t), loose))|) >= old(Spare(mem.free))
      ensures Shown() == old(Shown())[t := BlankImage()] && trees == old(trees)[t := trees[t]]
      ensures Blank(trees[t]) && forall i :: 0 <= i < DIRECT ==> trees[t].direct[i].mode == old(trees[t]).direct[i].mode
    {
      hide MemOk, Ledger, OfTree, Find, With, Spare, Unclaimed;
      ghost var base := Ledger(Without(trees, t), loose);
      FocusTree(trees, t, trees[t], loose);
      assert trees[t := trees[t]] == trees;
      var m', t' := FreeTree(mem, trees[t], base);
      FocusTree(trees, t, t', loose);
      BlankTree(t');
      BlankShown(m', t');
      WithNone(base);
      WithNamed(base, OfTree(trees[t]));
      SameBytes(mem, m', Ledger(trees, loose));
      KeepsStable(mem, m', With(base, OfTree(trees[t])), base);
      Lift(mem, m', trees, t, t', loose);
      mem, trees := m', trees[t := t'];
    }

    /** pagetree_copy between two trees: the copy shows what the original shows, and nothing else changes. */
    method Copy(src: nat, dst: nat, mode: Mode) returns (ok: bool)
      requires Valid() && src < |trees| && dst < |trees| && src != dst && mode != Unset
      modifies this
      ensures Valid() && loose == old(loose) && Shape(mem) == old(Shape(mem)) && |trees| == old(|trees|)
      ensures Settings(trees) == old(Settings(trees))[dst := (old(trees[src]).demand, old(trees[dst]).cpu)]
      ensures Shown() == old(Shown())[dst := if ok then old(Shown())[src] else BlankImage()]
      ensures ok ==> WellTree(old(trees[src])) && WellTree(trees[src]) && WellTree(trees[dst])
      ensures ok ==> TreeCopiedAs(old(trees[src]), trees[src], trees[dst], mode)
      ensures ok <==> old(CopyCost(trees[src], mode) <= |Unclaimed(mem, Ledger(Without(trees, dst), loose))|)
      ensures old(Blank(trees[dst])) ==> (ok <==> old(CopyCost(trees[src], mode) <= Spare(mem.free)))
      ensures Spare(mem.free) == old(|Unclaimed(mem, Ledger(Without(trees, dst), loose))|)
                                 - if ok then old(CopyCost(trees[src], mode)) else 0
      ensures mem.hw == old(mem.hw) && trees == old(trees)[src := trees[src]][dst := trees[dst]]
      ensures WellTree(old(trees[src])) && WellTree(trees[src]) && SameTreePages(old(trees[src]), trees[src])
      ensures !ok ==> Blank(trees[dst])
    {
      hide MemOk, WellTree, Ledger, OfTree, Find, With, Add, CopyCost, Spare, Blank, Unclaimed, SameTreePages;
      WellAt(trees, src, |mem.free|);
      WellAt(trees, dst, |mem.free|);
      hide Wells, CpusOk, Settings, Images, ImageOf, TreeCopiedAs, Shows;
      hide RestOfTwo;
      ghost var base := RestOfTwo(trees, src, dst, loose);
      FocusTwo(trees, src, dst, trees[src], trees[dst], loose);
      assert trees[src := trees[src]][dst := trees[dst]] == trees;
      if Blank(trees[dst]) {
        BlankTree(trees[dst]);
        AddNone(OfTree(trees[src]));
        SpareUnclaimed(mem, With(base, OfTree(trees[src])));
      }
      var m', s, d;
      ok, m', s, d := CopyTree(mem, trees[src], trees[dst], mode, base);
      FocusTwo(trees, src, dst, s, d, loose);
      TwoReplaced(trees, src, dst, s, d, |mem.free|);
      StableShape(mem, m', With(base, OfTree(trees[src])));
      CopyLift(mem, m', trees, src, dst, s, d, loose, base);
      if ok {
        ImageSame(mem, trees[src], m', d);
      } else {
        BlankShown(m', d);
      }
      mem, trees := m', trees[src := s][dst := d];
    }
  }

  lemma WellAt(ts: seq<Tree>, i: nat, cpus: nat)
    requires Wells(ts) && CpusOk(ts, cpus) && i < |ts|
    ensures WellTree(ts[i]) && ts[i].cpu < cpus
  {
  }

  lemma TwoReplaced(ts: seq<Tree>, i: nat, j: nat, s: Tree, d: Tree, cpus: nat)
    requires Wells(ts) && CpusOk(ts, cpus) && i < |ts| && j < |ts| && i != j && WellTree(s) && WellTree(d)
    requires s.cpu == ts[i].cpu && s.demand == ts[i].demand && d.cpu == ts[j].cpu && d.demand == ts[i].demand
    ensures Wells(ts[i := s][j := d]) && CpusOk(ts[i := s][j := d], cpus)
    ensures Settings(ts[i := s][j := d]) == Settings(ts)[j := (ts[i].demand, ts[j].cpu)]
  {
    hide WellTree;
    assert Settings(ts[i := s][j := d]) == Settings(ts)[j := (ts[i].demand, ts[j].cpu)];
  }

  lemma StableShape(m: Mem, m': Mem, b: Books)
    requires Stable(m, m', b)
    ensures Shape(m') == Shape(m)
  {
  }

  lemma SameBytes(m: Mem, m': Mem, b: Books)
    requires MemOk(m, b) && m'.bytes == m.bytes && SameShape(m, m')
    ensures KeepsBytes(m, m')
  {
  }

  lemma LedgerLoose(ts: seq<Tree>, loose: set<Page>, loose': set<Page>)
    ensures Ledger(ts, loose).(loose := loose') == Ledger(ts, loose')
    ensures Ledger(ts, loose).loose == loose
  {
  }

  lemma BlankShown(m: Mem, t: Tree)
    requires Blank(t)
    ensures WellTree(t) && ImageOf(m, t) == BlankImage()
  {
    hide WellTree, Find;
    BlankTree(t);
    assert ImageOf(m, t) == BlankImage();
  }

  /** After a copy, images of all but the target are as before. */
  lemma CopyLift(m: Mem, m': Mem, ts: seq<Tree>, src: nat, dst: nat, s: Tree, d: Tree, loose: set<Page>, base: Books)
    requires src < |ts| && dst < |ts| && src != dst && Wells(ts) && Wells(ts[src := s][dst := d])
             && WellTree(ts[src]) && WellTree(s) && WellTree(d)
    requires Ledger(ts, loose) == With(base, Add(OfTree(ts[src]), OfTree(ts[dst])))
    requires Stable(m, m', With(base, OfTree(ts[src]))) && SameTreePages(ts[src], s)
    ensures Images(m', ts[src := s][dst := d]) == Images(m, ts)[dst := ImageOf(m', d)]
  {
    hide WellTree, OfTree, Ledger, Find, With, Add;
    var b := With(base, OfTree(ts[src]));
    RestOf(ts, src, dst, loose, base);
    Lift(m, m', ts, dst, d, loose);
    SourceShown(m, m', ts[src], s, b);
    assert ts[src := s][dst := d] == ts[dst := d][src := s];
    assert Images(m', ts[dst := d][src := s]) == Images(m', ts[dst := d])[src := ImageOf(m', s)];
    TreeNamed(Without(ts, dst), if src < dst then src else src - 1, loose);
    ImageStable(m, m', ts[src], Ledger(Without(ts, dst), loose));
  }

  lemma RestOf(ts: seq<Tree>, src: nat, dst: nat, loose: set<Page>, base: Books)
    requires src < |ts| && dst < |ts| && src != dst
    requires Ledger(ts, loose) == With(base, Add(OfTree(ts[src]), OfTree(ts[dst])))
    ensures Ledger(Without(ts, dst), loose).named == With(base, OfTree(ts[src])).named
  {
    hide OfTree, OfTrees;
    FocusTree(ts, dst, ts[dst], loose);
    assert ts[dst := ts[dst]] == ts;
    WithAdd(base, OfTree(ts[src]), OfTree(ts[dst]));
    WithCancel(Ledger(Without(ts, dst), loose), With(base, OfTree(ts[src])), OfTree(ts[dst]));
  }

  lemma WithCancel(a: Books, b: Books, t: Tally)
    requires With(a, t) == With(b, t)
    ensures a.named == b.named
  {
    assert a.named == a.named + t.named - t.named && b.named == b.named + t.named - t.named;
  }

  lemma SourceShown(m: Mem, m': Mem, t: Tree, t': Tree, b: Books)
    requires WellTree(t) && WellTree(t') && SameTreePages(t, t')
    ensures ImageOf(m', t') == ImageOf(m', t)
  {
    hide WellTree, Find;
    assert ImageOf(m', t') == ImageOf(m', t);
  }

  lemma LedgerGrown(ts: seq<Tree>, t: Tree, loose: set<Page>)
    requires OfTree(t) == NONE
    ensures Ledger(ts + [t], loose) == Ledger(ts, loose)
  {
    hide OfTree, OfTrees;
    var us := ts + [t];
    SplitTrees(us, |ts|, t);
    assert us[|ts| := t] == us && Without(us, |ts|) == ts;
    AddNone(OfTrees(ts));
  }

  lemma ImagesOfBytes(m: Mem, m': Mem, ts: seq<Tree>)
    requires Wells(ts) && m'.bytes == m.bytes
    ensures Images(m', ts) == Images(m, ts)
  {
    hide WellTree, Find;
    forall j | 0 <= j < |ts| ensures ImageOf(m', ts[j]) == ImageOf(m, ts[j]) {
      ImageSame(m, ts[j], m', ts[j]);
    }
  }

  lemma LooseNotNamed(m: Mem, p: Page, ts: seq<Tree>, loose: set<Page>)
    requires MemOk(m, Ledger(ts, loose)) && p in loose
    ensures Sized(m) && p < |m.bytes| && p !in Ledger(ts, loose).named
  {
    hide ListsOk, OfTrees;
    assert PageOk(m, Ledger(ts, loose), p);
  }

  lemma UnnamedStore(m: Mem, p: Page, d: Data, ts: seq<Tree>, loose: set<Page>)
    requires Wells(ts) && p < |m.bytes| && p !in Ledger(ts, loose).named
    ensures Images(Write(m, p, d), ts) == Images(m, ts)
  {
    hide WellTree, Find, Ledger;
    var m' := Write(m, p, d);
    forall j | 0 <= j < |ts| ensures ImageOf(m', ts[j]) == ImageOf(m, ts[j]) {
      TreeNamed(ts, j, loose);
      ImageUnnamed(m, p, d, ts[j]);
    }
  }

  lemma ImageUnnamed(m: Mem, p: Page, d: Data, t: Tree)
    requires WellTree(t) && p < |m.bytes| && p !in OfTree(t).named
    ensures ImageOf(Write(m, p, d), t) == ImageOf(m, t)
  {
    hide WellTree, Find, OfTree;
    forall n | 0 <= n < CAPACITY ensures View(Write(m, p, d), Find(t, n)) == View(m, Find(t, n)) { FindIn(t, n); }
  }

  /** A page that is shown can be reached; one that is not shown is not named. */
  lemma ShownReaches(m: Mem, ts: seq<Tree>, t: nat, n: nat, loose: set<Page>)
    requires Wells(ts) && t < |ts| && n < CAPACITY && MemOk(m, Ledger(ts, loose))
    ensures Images(m, ts)[t][n] != Missing ==> LackOf(ts[t], n) == {}
    ensures Images(m, ts)[t][n] == Missing ==> Find(ts[t], n).page.Nil?
  {
    hide WellTree, Find, Reaches, LackOf, MemOk, Ledger;
    if Find(ts[t], n) != ZERO {
      FindReaches(ts[t], n);
      ReachesLack(ts[t], n);
    }
    if Find(ts[t], n).page.At? {
      FindIn(ts[t], n);
      TreeNamed(ts, t, loose);
      NamedNotFree(m, Ledger(ts, loose), Find(ts[t], n).page.p);
    }
  }

  lemma ReachesLack(t: Tree, n: nat)
    requires WellTree(t) && n < CAPACITY && Reaches(t, n)
    ensures LackOf(t, n) == {}
  {
    hide Span, WellNode, HasPath, Lack, LackOf;
    if n >= DIRECT {
      var i := TreeOf(n, 0);
      LackSize(t, n);
      LackZero(t.indir[i], i, n - Base(i));
    } else {
      DirectReached(t, n);
    }
  }

  lemma DirectReached(t: Tree, n: nat)
    requires WellTree(t) && n < DIRECT
    ensures LackOf(t, n) == {}
  {
  }

  lemma SetSame(a: seq<Image>, t: nat, n: nat)
    requires t < |a| && n < |a[t]|
    ensures a[t := a[t][n := a[t][n]]] == a
  {
    assert a[t][n := a[t][n]] == a[t];
  }

  lemma SetTwice(a: seq<Image>, t: nat, n: nat, c: Contents, d: Contents)
    requires t < |a| && n < |a[t]|
    ensures var b := a[t := a[t][n := c]]; b[t := b[t][n := d]] == a[t := a[t][n := d]]
  {
    assert a[t][n := c][n := d] == a[t][n := d];
  }

  lemma WithNamed(base: Books, t: Tally)
    ensures base.named <= With(base, t).named
  {
  }

  lemma FindsShow(m: Mem, t: Tree, m': Mem, t': Tree)
    requires WellTree(t) && WellTree(t') && SameFinds(t, t') && m'.bytes == m.bytes
    ensures Shows(m, t, m', t')
  {
    hide WellTree, Find;
  }
}
