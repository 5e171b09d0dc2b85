/**
 kern/kern/pagetree.c: a page tree maps page numbers to entries, each naming a page with a
 sharing mode.  Copies share pages copy-on-write.  Nodes are values here; the pages they
 live in are accounted for as frames.
 */
module PageTree {
  import opened PageMemory
  import opened PageIndex

  datatype Mode = Unset | Cow | Cor | Excl

  datatype PagePtr = Nil | At(p: Page)

  datatype Entry = Entry(page: PagePtr, mode: Mode)

  const ZERO: Entry := Entry(Nil, Unset)

  datatype Node = Absent | Leaf(frame: Page, ents: seq<Entry>) | Inner(frame: Page, kids: seq<Node>)

  predicate Shared(mode: Mode) {
    mode == Cow || mode == Cor
  }

  /** An entry that names a page has a mode. */
  predicate DirectOk(e: Entry) {
    e.page.At? ==> e.mode != Unset
  }

  /** In an indirect page, moreover, an empty entry never has a sharing mode. */
  predicate EntryOk(e: Entry) {
    DirectOk(e) && (e.page.Nil? ==> !Shared(e.mode))
  }

  // Counting what nodes name.

  datatype Tally = Tally(named: multiset<Page>, excl: multiset<Page>, frames: multiset<Page>)

  const NONE: Tally := Tally(multiset{}, multiset{}, multiset{})

  ghost function Add(s: Tally, t: Tally): Tally {
    Tally(s.named + t.named, s.excl + t.excl, s.frames + t.frames)
  }

  ghost function OfEntry(e: Entry): Tally {
    match e.page
    case Nil => NONE
    case At(p) => Tally(multiset{p}, if e.mode == Excl then multiset{p} else multiset{}, multiset{})
  }

  ghost function OfEntries(es: seq<Entry>): Tally {
    if es == [] then NONE else Add(OfEntry(es[0]), OfEntries(es[1..]))
  }

  ghost function OfNode(n: Node): Tally {
    match n
    case Absent => NONE
    case Leaf(f, es) => Add(OfFrame(f), OfEntries(es))
    case Inner(f, kids) => Add(OfFrame(f), OfNodes(kids))
  }

  ghost function OfNodes(ns: seq<Node>): Tally {
    if ns == [] then NONE else Add(OfNode(ns[0]), OfNodes(ns[1..]))
  }

  /** The books with a tally added. */
  ghost function With(b: Books, t: Tally): Books {
    Books(b.named + t.named, b.excl + t.excl, b.frames + t.frames, b.loose)
  }

  lemma WithAdd(b: Books, s: Tally, t: Tally)
    ensures With(b, Add(s, t)) == With(With(b, s), t)
    ensures Add(s, t) == Add(t, s)
  {
  }

  lemma AddSwap(r: Tally, s: Tally, t: Tally)
    ensures Add(r, Add(s, t)) == Add(s, Add(r, t))
    ensures Add(Add(r, s), t) == Add(r, Add(s, t))
  {
  }

  lemma AddDeep(f: Tally, e: Tally, below: Tally, others: Tally)
    ensures Add(f, Add(Add(e, below), others)) == Add(e, Add(Add(f, others), below))
  {
  }

  lemma AddSub(s: Tally, t: Tally)
    requires Sub(s) && Sub(t)
    ensures Sub(Add(s, t))
  {
  }

  ghost function OfFrame(f: Page): Tally {
    Tally(multiset{}, multiset{}, multiset{f})
  }

  /** The tally of all but the entry at i. */
  ghost function Others(es: seq<Entry>, i: nat): Tally
    requires i < |es|
  {
    OfEntries(es[..i] + es[i + 1..])
  }

  lemma {:induction false} SplitEntries(es: seq<Entry>, i: nat, e: Entry)
    requires i < |es|
    ensures OfEntries(es[i := e]) == Add(OfEntry(e), Others(es, i))
    ensures Others(es[i := e], i) == Others(es, i)
  {
    hide Add;
    var rest := es[..i] + es[i + 1..];
    assert es[i := e][..i] + es[i := e][i + 1..] == rest;
    if i == 0 {
      assert es[i := e][1..] == rest;
    } else {
      SplitEntries(es[1..], i - 1, e);
      assert es[i := e][1..] == es[1..][i - 1 := e];
      assert rest[1..] == es[1..][..i - 1] + es[1..][i..];
      AddSwap(OfEntry(es[0]), OfEntry(e), Others(es[1..], i - 1));
    }
  }

  ghost function OtherKids(ns: seq<Node>, i: nat): Tally
    requires i < |ns|
  {
    OfNodes(ns[..i] + ns[i + 1..])
  }

  lemma {:induction false} SplitNodes(ns: seq<Node>, i: nat, n: Node)
    requires i < |ns|
    ensures OfNodes(ns[i := n]) == Add(OfNode(n), OtherKids(ns, i))
    ensures OtherKids(ns[i := n], i) == OtherKids(ns, i)
  {
    hide Add;
    var rest := ns[..i] + ns[i + 1..];
    assert ns[i := n][..i] + ns[i := n][i + 1..] == rest;
    if i == 0 {
      assert ns[i := n][1..] == rest;
    } else {
      SplitNodes(ns[1..], i - 1, n);
      assert ns[i := n][1..] == ns[1..][i - 1 := n];
      assert rest[1..] == ns[1..][..i - 1] + ns[1..][i..];
      AddSwap(OfNode(ns[0]), OfNode(n), OtherKids(ns[1..], i - 1));
    }
  }

  ghost predicate Sub(t: Tally) {
    t.excl <= t.named
  }

  lemma {:induction false} EntriesSub(es: seq<Entry>)
    ensures Sub(OfEntries(es))
  {
    if es != [] { EntriesSub(es[1..]); }
  }

  lemma {:induction false} NodeSub(n: Node)
    ensures Sub(OfNode(n))
    decreases n, 0
  {
    match n
    case Absent =>
    case Leaf(f, es) => EntriesSub(es);
    case Inner(f, kids) => NodesSub(kids);
  }

  lemma {:induction false} NodesSub(ns: seq<Node>)
    ensures Sub(OfNodes(ns))
    decreases ns
  {
    if ns != [] {
      NodeSub(ns[0]);
      NodesSub(ns[1..]);
    }
  }

  // Reading the tree as a flat map.

  ghost predicate WellNode(n: Node, level: nat) {
    match n
    case Absent => true
    case Leaf(_, es) => level == 0 && |es| == ENTS && forall i :: 0 <= i < ENTS ==> EntryOk(es[i])
    case Inner(_, kids) => level > 0 && |kids| == FANOUT && forall k :: 0 <= k < FANOUT ==> WellNode(kids[k], level - 1)
  }

  /** The slot at this level on the way to entry n, and what is left of n below it. */
  function SlotAt(level: nat, n: nat): (k: nat)
    requires level > 0 && n < Span(level)
    ensures k < FANOUT
  {
    SlotBelow(level, n);
    n / Span(level - 1)
  }

  function RestAt(level: nat, n: nat): (r: nat)
    requires level > 0
    ensures r < Span(level - 1)
  {
    n % Span(level - 1)
  }

  lemma SlotBelow(level: nat, n: nat)
    requires level > 0 && n < Span(level)
    ensures n / Span(level - 1) < FANOUT
  {
    var w := Span(level - 1);
    var q := n / w;
    assert n == w * q + n % w;
    assert q >= FANOUT ==> w * q >= w * FANOUT;
  }

  /** Different entries part ways at this level or below the same slot. */
  lemma SlotsApart(level: nat, n: nat, k: nat)
    requires level > 0 && n < Span(level) && k < Span(level)
    ensures SlotAt(level, n) == SlotAt(level, k) && RestAt(level, n) == RestAt(level, k) ==> n == k
  {
    var w := Span(level - 1);
    assert n == w * (n / w) + n % w && k == w * (k / w) + k % w;
  }

  function Lookup(node: Node, level: nat, n: nat): Entry
    requires WellNode(node, level) && n < Span(level)
    decreases level
  {
    match node
    case Absent => ZERO
    case Leaf(_, es) => es[n]
    case Inner(_, kids) => Lookup(kids[SlotAt(level, n)], level - 1, RestAt(level, n))
  }

  ghost predicate HasPath(node: Node, level: nat, n: nat)
    requires WellNode(node, level) && n < Span(level)
    decreases level
  {
    match node
    case Absent => false
    case Leaf(_, _) => true
    case Inner(_, kids) => HasPath(kids[SlotAt(level, n)], level - 1, RestAt(level, n))
  }

  function Set(node: Node, level: nat, n: nat, e: Entry): Node
    requires WellNode(node, level) && n < Span(level) && HasPath(node, level, n)
    decreases level
  {
    match node
    case Leaf(f, es) => Leaf(f, es[n := e])
    case Inner(f, kids) =>
      var k := SlotAt(level, n);
      Inner(f, kids[k := Set(kids[k], level - 1, RestAt(level, n), e)])
  }

  /** The walk refines a flat map: setting one entry changes that entry and no other. */
  lemma {:induction false} SetLookup(node: Node, level: nat, n: nat, e: Entry, k: nat)
    requires WellNode(node, level) && n < Span(level) && k < Span(level) && HasPath(node, level, n) && EntryOk(e)
    ensures WellNode(Set(node, level, n, e), level)
    ensures HasPath(Set(node, level, n, e), level, n)
    ensures Lookup(Set(node, level, n, e), level, k) == if k == n then e else Lookup(node, level, k)
    decreases level
  {
    if node.Inner? {
      var i := SlotAt(level, n);
      SetLookup(node.kids[i], level - 1, RestAt(level, n), e, RestAt(level, n));
      SetLookup(node.kids[i], level - 1, RestAt(level, n), e, RestAt(level, k));
      SlotsApart(level, n, k);
    }
  }

  /** Replacing one entry replaces its part of the tally. */
  lemma {:induction false} SetTally(node: Node, level: nat, n: nat, e: Entry) returns (rest: Tally)
    requires WellNode(node, level) && n < Span(level) && HasPath(node, level, n)
    ensures OfNode(node) == Add(OfEntry(Lookup(node, level, n)), rest)
    ensures OfNode(Set(node, level, n, e)) == Add(OfEntry(e), rest)
    ensures Sub(rest)
    decreases level
  {
    hide Add, Sub, Others, OtherKids, OfEntry;
    match node
    case Leaf(f, es) =>
      SplitEntries(es, n, e);
      SplitEntries(es, n, es[n]);
      assert es[n := es[n]] == es;
      OthersSub(es, n);
      AddSub(OfFrame(f), Others(es, n));
      AddSwap(OfFrame(f), OfEntry(e), Others(es, n));
      AddSwap(OfFrame(f), OfEntry(es[n]), Others(es, n));
      rest := Add(OfFrame(f), Others(es, n));
    case Inner(f, kids) =>
      var i, r := SlotAt(level, n), RestAt(level, n);
      var below := SetTally(kids[i], level - 1, r, e);
      SplitNodes(kids, i, Set(kids[i], level - 1, r, e));
      SplitNodes(kids, i, kids[i]);
      assert kids[i := kids[i]] == kids;
      OtherKidsSub(kids, i);
      AddSub(OfFrame(f), OtherKids(kids, i));
      AddSub(Add(OfFrame(f), OtherKids(kids, i)), below);
      AddDeep(OfFrame(f), OfEntry(e), below, OtherKids(kids, i));
      AddDeep(OfFrame(f), OfEntry(Lookup(node, level, n)), below, OtherKids(kids, i));
      rest := Add(Add(OfFrame(f), OtherKids(kids, i)), below);
  }

  lemma OthersSub(es: seq<Entry>, i: nat)
    requires i < |es|
    ensures Sub(Others(es, i)) && forall f :: Sub(OfFrame(f))
  {
    EntriesSub(es[..i] + es[i + 1..]);
  }

  lemma OtherKidsSub(ns: seq<Node>, i: nat)
    requires i < |ns|
    ensures Sub(OtherKids(ns, i)) && forall f :: Sub(OfFrame(f))
  {
    NodesSub(ns[..i] + ns[i + 1..]);
  }
}
