/**
 kern/kern/pagetree.c, node by node: growing the path to an entry, copying a subtree entry
 by entry, and freeing one.  As for entries, the rest of the system is an arbitrary base.
 */
module PageNodes {
  import opened PageMemory
  import opened PageIndex
  import opened PageTree
  import opened PageEntries
  import opened PagePaths

  /** A page just cleared, as a node. */
  function Fresh(level: nat, p: Page): Node {
    if level == 0 then Leaf(p, seq(ENTS, _ => ZERO)) else Inner(p, seq(FANOUT, _ => Absent))
  }

  lemma {:induction false} ZeroEntries(es: seq<Entry>)
    requires forall i :: 0 <= i < |es| ==> es[i].page == Nil
    ensures OfEntries(es) == NONE
  {
    if es != [] {
      ZeroEntries(es[1..]);
      AddNone(NONE);
    }
  }

  lemma {:induction false} AbsentNodes(ns: seq<Node>)
    requires forall i :: 0 <= i < |ns| ==> ns[i] == Absent
    ensures OfNodes(ns) == NONE
  {
    if ns != [] {
      AbsentNodes(ns[1..]);
      AddNone(NONE);
    }
  }

  lemma FreshNode(level: nat, p: Page, base: Books)
    ensures WellNode(Fresh(level, p), level) && OfNode(Fresh(level, p)) == OfFrame(p)
    ensures forall n :: 0 <= n < Span(level) ==> Lookup(Fresh(level, p), level, n) == ZERO
    ensures p !in base.loose ==>
              base.(loose := base.loose + {p}).(frames := base.frames + multiset{p}, loose := base.loose) ==
              With(base, OfFrame(p))
  {
    if level == 0 {
      ZeroEntries(seq(ENTS, _ => ZERO));
    } else {
      AbsentNodes(seq(FANOUT, _ => Absent));
    }
    AddNone(OfFrame(p));
  }

  /** The rest of the system, seen from child k of a node. */
  ghost function Around(base: Books, f: Page, kids: seq<Node>, k: nat): Books
    requires k < |kids|
  {
    With(base, Add(OfFrame(f), OtherKids(kids, k)))
  }

  lemma FocusKid(base: Books, f: Page, kids: seq<Node>, k: nat, kid: Node)
    requires k < |kids|
    ensures With(base, OfNode(Inner(f, kids[k := kid]))) == With(Around(base, f, kids, k), OfNode(kid))
    ensures BaseOk(base) ==> BaseOk(Around(base, f, kids, k))
  {
    SplitNodes(kids, k, kid);
    OtherKidsSub(kids, k);
    AddSwap(OfFrame(f), OfNode(kid), OtherKids(kids, k));
    WithAdd(base, Add(OfFrame(f), OtherKids(kids, k)), OfNode(kid));
  }

  ghost predicate SameLookups(a: Node, b: Node, level: nat)
    requires WellNode(a, level) && WellNode(b, level)
  {
    forall n :: 0 <= n < Span(level) ==> Lookup(a, level, n) == Lookup(b, level, n)
  }

  /** A missing node is replaced by a cleared page. */
  method Present(m: Mem, node: Node, level: nat, cpu: nat, ghost base: Books) returns (ok: bool, m': Mem, node': Node)
    requires MemOk(m, With(base, OfNode(node))) && cpu < |m.free| && WellNode(node, level)
    ensures MemOk(m', With(base, OfNode(node'))) && Grew(m, m') && m'.bytes == m.bytes
    ensures WellNode(node', level) && SameLookups(node, node', level)
    ensures ok <==> !node.Absent? || Spare(m.free) > 0
    ensures ok ==> !node'.Absent? && Opened(node, node', level, [])
    ensures ok ==> Spare(m'.free) == Spare(m.free) - if node.Absent? then 1 else 0
    ensures m'.ref == m.ref
    ensures ok && node.Absent? && level > 0 ==> forall k :: 0 <= k < FANOUT ==> node'.kids[k].Absent?
    ensures !ok ==> Exhausted(m') && Spare(m'.free) == 0 && node' == node
    ensures !node.Absent? ==> ok && m' == m && node' == node
    ensures With(base, OfNode(node')).named == With(base, OfNode(node)).named
  {
    hide MemOk, With, OfNode, Span, Spare;
    MemSized(m, With(base, OfNode(node)));
    m', node', ok := m, node, true;
    if node.Absent? {
      var p;
      AbsentNone(base);
      ok, p, m' := AllocPage(m, cpu, base);
      if !ok {
        return;
      }
      FrameInOk(m', p, base.(loose := base.loose + {p}));
      node' := Fresh(level, p);
      FreshNode(level, p, base);
      FreshOpened(level, p);
      FrameNamesNone(base, p);
      assert base.loose + {p} - {p} == base.loose;
    } else {
      OpenedNothing(node, level);
    }
  }

  lemma FrameNamesNone(base: Books, p: Page)
    ensures With(base, OfFrame(p)).named == base.named == With(base, NONE).named && OfNode(Absent) == NONE
  {
  }

  lemma FreshOpened(level: nat, p: Page)
    ensures Opened(Absent, Fresh(level, p), level, [])
  {
    forall q | Slots(level, q) ensures AbsentAt(Fresh(level, p), q) <==> AbsentAt(Absent, q) && !(q <= []) {
      assert q <= [] <==> q == [];
    }
  }

  /** The walk allocates the indirect pages it finds missing; no entry changes. */
  method Grow(m: Mem, node: Node, level: nat, n: nat, cpu: nat, ghost base: Books)
      returns (ok: bool, m': Mem, node': Node)
    requires MemOk(m, With(base, OfNode(node))) && BaseOk(base) && cpu < |m.free|
    requires WellNode(node, level) && n < Span(level)
    ensures MemOk(m', With(base, OfNode(node'))) && Grew(m, m') && m'.bytes == m.bytes
    ensures WellNode(node', level) && SameLookups(node, node', level)
    ensures ok ==> HasPath(node', level, n) && Opened(node, node', level, PathTo(level, n))
    ensures ok <==> Lack(node, level, n) <= Spare(m.free)
    ensures Spare(m'.free) == if ok then Spare(m.free) - Lack(node, level, n) else 0
    ensures m'.ref == m.ref && With(base, OfNode(node')).named == With(base, OfNode(node)).named
    ensures !ok ==> Exhausted(m')
    decreases level
  {
    hide MemOk, With, OfNode, Span, SameLookups, Grew, Spare, Opened, WellNode, HasPath, Lack, PathTo;
    AbsentLack(node, level, n);
    ok, m', node' := Present(m, node, level, cpu, base);
    GrewShape(m, m');
    if !ok {
      return;
    }
    PresentPath(node, node', level, n);
    if level == 0 {
      return;
    }
    var k, r := SlotAt(level, n), RestAt(level, n);
    var kids := node'.kids;
    FocusKid(base, node'.frame, kids, k, kids[k]);
    assert kids[k := kids[k]] == kids;
    var kid, m1;
    ok, m1, kid := Grow(m', kids[k], level - 1, r, cpu, Around(base, node'.frame, kids, k));
    FocusKid(base, node'.frame, kids, k, kid);
    KidReplaced(node', level, k, kid);
    GrewTrans(m, m', m1);
    SameTrans(node, node', Inner(node'.frame, kids[k := kid]), level);
    PathThrough(node', level, n, kid);
    if ok {
      OpenedKid(node, node', level, k, kid, PathTo(level - 1, r));
    }
    m', node' := m1, Inner(node'.frame, kids[k := kid]);
  }

  lemma AbsentLack(node: Node, level: nat, n: nat)
    requires WellNode(node, level) && n < Span(level)
    ensures node.Absent? ==> Lack(node, level, n) > 0
  {
  }

  /** The way to entry n from a node that is there now. */
  lemma PresentPath(node: Node, node': Node, level: nat, n: nat)
    requires WellNode(node, level) && WellNode(node', level) && !node'.Absent? && n < Span(level)
    requires if node.Absent? then level > 0 ==> forall k :: 0 <= k < FANOUT ==> node'.kids[k].Absent? else node' == node
    ensures level == 0 ==>
              Lack(node, 0, n) == (if node.Absent? then 1 else 0) && HasPath(node', 0, n) && PathTo(0, n) == []
    ensures level > 0 ==> node'.Inner? && |node'.kids| == FANOUT
    ensures level > 0 ==>
              var k, r := SlotAt(level, n), RestAt(level, n);
              && WellNode(node'.kids[k], level - 1) && PathTo(level, n) == [k] + PathTo(level - 1, r)
              && Lack(node, level, n) == Lack(node'.kids[k], level - 1, r) + if node.Absent? then 1 else 0
  {
  }

  lemma PathThrough(node: Node, level: nat, n: nat, kid: Node)
    requires WellNode(node, level) && level > 0 && node.Inner? && n < Span(level) && WellNode(kid, level - 1)
    ensures var k := SlotAt(level, n);
            var node' := Inner(node.frame, node.kids[k := kid]);
            WellNode(node', level) && (HasPath(node', level, n) <==> HasPath(kid, level - 1, RestAt(level, n)))
  {
  }

  lemma GrewShape(m: Mem, m': Mem)
    requires Grew(m, m')
    ensures |m'.free| == |m.free|
  {
  }

  lemma SameTrans(a: Node, b: Node, c: Node, level: nat)
    requires WellNode(a, level) && WellNode(b, level) && WellNode(c, level)
    requires SameLookups(a, b, level) && SameLookups(b, c, level)
    ensures SameLookups(a, c, level)
  {
  }

  lemma AbsentNone(base: Books)
    ensures With(base, OfNode(Absent)) == base
  {
    WithNone(base);
  }

  lemma KidReplaced(node: Node, level: nat, k: nat, kid: Node)
    requires WellNode(node, level) && level > 0 && node.Inner? && k < FANOUT
    requires WellNode(kid, level - 1) && SameLookups(node.kids[k], kid, level - 1)
    ensures var node' := Inner(node.frame, node.kids[k := kid]);
            WellNode(node', level) && SameLookups(node, node', level)
  {
    var node' := Inner(node.frame, node.kids[k := kid]);
    forall n | 0 <= n < Span(level) ensures Lookup(node, level, n) == Lookup(node', level, n) {
      assert RestAt(level, n) < Span(level - 1);
    }
  }

  // Copying.

  ghost predicate SamePages(es: seq<Entry>, es': seq<Entry>) {
    |es'| == |es| && forall k :: 0 <= k < |es| ==>
      es'[k].page == es[k].page && DirectOk(es'[k]) && (EntryOk(es[k]) ==> EntryOk(es'[k]))
  }

  /** The first `upto` entries of the copy show what the originals showed. */
  ghost predicate Copied(m: Mem, es: seq<Entry>, m': Mem, dst: seq<Entry>, upto: nat) {
    && |dst| == |es| && upto <= |es|
    && (forall k :: 0 <= k < upto ==> View(m', dst[k]) == View(m, es[k]))
    && (forall k :: upto <= k < |dst| ==> dst[k].page == Nil)
  }

  lemma EntryIn(es: seq<Entry>, i: nat)
    requires i < |es| && es[i].page.At?
    ensures es[i].page.p in OfEntries(es).named
  {
    hide OfEntries, Others;
    SplitEntries(es, i, es[i]);
    assert es[i := es[i]] == es;
  }

  /** The rest of the system, seen from entry i of an original and its copy. */
  ghost function AroundPair(base: Books, es: seq<Entry>, dst: seq<Entry>, i: nat): Books
    requires i < |es| && i < |dst|
  {
    With(base, Add(Others(es, i), Others(dst, i)))
  }

  lemma FocusPair(base: Books, es: seq<Entry>, dst: seq<Entry>, i: nat, s: Entry, d: Entry)
    requires i < |es| && i < |dst|
    ensures With(base, Add(OfEntries(es[i := s]), OfEntries(dst[i := d])))
            == With(AroundPair(base, es, dst, i), Add(OfEntry(s), OfEntry(d)))
    ensures BaseOk(base) ==> BaseOk(AroundPair(base, es, dst, i))
  {
    SplitEntries(es, i, s);
    SplitEntries(dst, i, d);
    OthersSub(es, i);
    OthersSub(dst, i);
    AddSub(Others(es, i), Others(dst, i));
    AddPairs(OfEntry(s), Others(es, i), OfEntry(d), Others(dst, i));
    WithAdd(base, Add(Others(es, i), Others(dst, i)), Add(OfEntry(s), OfEntry(d)));
  }

  lemma AddPairs(a: Tally, b: Tally, c: Tally, d: Tally)
    ensures Add(Add(a, b), Add(c, d)) == Add(Add(b, d), Add(a, c))
  {
  }

  /** What is named keeps what it shows while memory only grows. */
  lemma ViewKept(m: Mem, m': Mem, b: Books, e: Entry)
    requires MemOk(m, b) && Grew(m, m') && (e.page.At? ==> e.page.p in b.named)
    ensures View(m', e) == View(m, e)
  {
    if e.page.At? { NamedNotFree(m, b, e.page.p); }
  }

  lemma CopiedKept(m: Mem, es: seq<Entry>, m1: Mem, m2: Mem, dst: seq<Entry>, upto: nat, base: Books, s: Tally)
    requires Copied(m, es, m1, dst, upto) && MemOk(m1, With(base, Add(s, OfEntries(dst)))) && Grew(m1, m2)
    ensures Copied(m, es, m2, dst, upto)
  {
    hide MemOk;
    forall k | 0 <= k < upto ensures View(m2, dst[k]) == View(m, es[k]) {
      if dst[k].page.At? { EntryIn(dst, k); }
      ViewKept(m1, m2, With(base, Add(s, OfEntries(dst))), dst[k]);
    }
  }

  lemma GrewTrans(a: Mem, b: Mem, c: Mem)
    requires Grew(a, b) && Grew(b, c)
    ensures Grew(a, c)
  {
  }

  /**
   What copying in a mode does to an entry and makes of the copy: sharing leaves both with
   one page, the original copy-on-write; an exclusive copy has its own page and leaves the
   original alone; nothing is copied as nothing.
   */
  predicate CopiedAs(src: Entry, src': Entry, dst: Entry, mode: Mode) {
    if src.page.Nil? then src' == src && dst.page.Nil?
    else
      && dst.page.At? && dst.mode == mode
      && if mode == Excl then src' == src && dst.page != src.page
         else src' == Entry(src.page, Cow) && dst.page == src.page
  }

  ghost predicate EntriesCopiedAs(es: seq<Entry>, es': seq<Entry>, dst: seq<Entry>, upto: nat, mode: Mode) {
    |es'| == |es| && |dst| == |es| && upto <= |es| && forall k :: 0 <= k < upto ==>
      CopiedAs(es[k], es'[k], dst[k], mode)
  }

  ghost predicate NodeCopiedAs(src: Node, src': Node, dst: Node, level: nat, mode: Mode)
    requires WellNode(src, level) && WellNode(src', level) && WellNode(dst, level)
  {
    forall n :: 0 <= n < Span(level) ==>
        CopiedAs(Lookup(src, level, n), Lookup(src', level, n), Lookup(dst, level, n), mode)
  }

  ghost predicate KidsCopiedAs(kids: seq<Node>, kids': seq<Node>, dst: seq<Node>, upto: nat, levels: seq<nat>,
      mode: Mode)
    requires KidsOk(kids, levels) && KidsOk(kids', levels) && KidsOk(dst, levels)
  {
    upto <= |kids| && forall k :: 0 <= k < upto ==> NodeCopiedAs(kids[k], kids'[k], dst[k], levels[k], mode)
  }

  /** The copy's entries are as well-formed as the empty ones they replace. */
  ghost predicate Filled(into: seq<Entry>, dst: seq<Entry>) {
    |dst| == |into| && forall k :: 0 <= k < |dst| ==> DirectOk(dst[k]) && (EntryOk(into[k]) ==> EntryOk(dst[k]))
  }

  // What a copy takes: a page for every indirect page, and in exclusive mode one for every page.

  ghost function EntriesCost(es: seq<Entry>, mode: Mode): nat {
    if es == [] then 0 else EntriesCost(es[1..], mode) + if mode == Excl && es[0].page.At? then 1 else 0
  }

  ghost function NodeCost(node: Node, mode: Mode): nat {
    match node
    case Absent => 0
    case Leaf(_, es) => 1 + EntriesCost(es, mode)
    case Inner(_, kids) => 1 + KidsCost(kids, mode)
  }

  ghost function KidsCost(kids: seq<Node>, mode: Mode): nat {
    if kids == [] then 0 else KidsCost(kids[1..], mode) + NodeCost(kids[0], mode)
  }

  lemma EntriesCostFrom(es: seq<Entry>, i: nat, mode: Mode)
    requires i < |es|
    ensures EntriesCost(es[i..], mode) ==
            EntriesCost(es[i + 1..], mode) + if mode == Excl && es[i].page.At? then 1 else 0
  {
    assert es[i..][1..] == es[i + 1..];
  }

  lemma KidsCostFrom(kids: seq<Node>, i: nat, mode: Mode)
    requires i < |kids|
    ensures KidsCost(kids[i..], mode) == KidsCost(kids[i + 1..], mode) + NodeCost(kids[i], mode)
  {
    assert kids[i..][1..] == kids[i + 1..];
  }

  /** The same pages are named and the same frames used. */
  ghost predicate SameUse(t: Tally, t': Tally) {
    t'.named == t.named && t'.frames == t.frames
  }

  lemma {:induction false} SameEntriesUse(es: seq<Entry>, es': seq<Entry>)
    requires SamePages(es, es')
    ensures SameUse(OfEntries(es), OfEntries(es'))
  {
    if es != [] { SameEntriesUse(es[1..], es'[1..]); }
  }

  lemma SameUseAdd(s: Tally, t: Tally, t': Tally)
    requires SameUse(t, t')
    ensures SameUse(Add(s, t), Add(s, t')) && SameUse(Add(t, s), Add(t', s))
  {
  }

  lemma SameKidUse(kids: seq<Node>, i: nat, s: Node)
    requires i < |kids| && SameUse(OfNode(kids[i]), OfNode(s))
    ensures SameUse(OfNodes(kids), OfNodes(kids[i := s]))
  {
    hide OfNode, OfNodes, OtherKids, Add, SameUse;
    SplitNodes(kids, i, s);
    SplitNodes(kids, i, kids[i]);
    assert kids[i := kids[i]] == kids;
    SameUseAdd(OtherKids(kids, i), OfNode(kids[i]), OfNode(s));
  }

  /** The loops over the entries of a leaf and over the direct entries. */
  method CopyEntries(m: Mem, es: seq<Entry>, into: seq<Entry>, mode: Mode, cpu: nat, ghost base: Books)
    returns (ok: bool, m': Mem, es': seq<Entry>, dst: seq<Entry>)
    requires MemOk(m, With(base, OfEntries(es))) && BaseOk(base) && cpu < |m.free| && mode != Unset
    requires |into| == |es| && forall k :: 0 <= k < |es| ==> DirectOk(es[k]) && into[k].page.Nil?
    ensures MemOk(m', With(base, Add(OfEntries(es'), OfEntries(dst)))) && Grew(m, m')
    ensures SamePages(es, es') && Filled(into, dst)
    ensures ok ==> Copied(m, es, m', dst, |es|) && EntriesCopiedAs(es, es', dst, |es|, mode)
    ensures !ok ==> mode == Excl && Exhausted(m')
    ensures ok <==> EntriesCost(es, mode) <= Spare(m.free)
    ensures ok ==> Spare(m'.free) == Spare(m.free) - EntriesCost(es, mode)
  {
    hide MemOk, With, OfEntries, Add, Others, CopiedAs, View, AroundPair, OfEntry, EntriesCost, Spare;
    MemSized(m, With(base, OfEntries(es)));
    m', es', dst := m, es, into;
    ZeroEntries(dst);
    AddNone(OfEntries(es));
    assert es[0..] == es;
    var i := 0;
    while i < |es|
      invariant 0 <= i <= |es| && SamePages(es, es') && |m'.free| == |m.free|
      invariant Spare(m'.free) - EntriesCost(es[i..], mode) == Spare(m.free) - EntriesCost(es, mode)
      invariant MemOk(m', With(base, Add(OfEntries(es'), OfEntries(dst)))) && Grew(m, m')
      invariant Copied(m, es, m', dst, i) && Filled(into, dst) && EntriesCopiedAs(es, es', dst, i, mode)
      invariant forall k :: i <= k < |es| ==> es'[k] == es[k]
    {
      EntriesCostFrom(es, i, mode);
      if es'[i].page.At? {
        FocusPair(base, es', dst, i, es'[i], dst[i]);
        assert es'[i := es'[i]] == es' && dst[i := dst[i]] == dst;
        NoneSub(dst[i]);
        AddNone(OfEntry(es'[i]));
        var m1, s, d;
        ok, m1, s, d := CopyEnt(m', es'[i], dst[i], mode, cpu, AroundPair(base, es', dst, i));
        EntCopied(es[i], s, d, mode, ok);
        FocusPair(base, es', dst, i, s, d);
        CopiedKept(m, es, m', m1, dst, i, base, OfEntries(es'));
        OriginalKept(m, m', With(base, OfEntries(es)), es, i, base);
        GrewTrans(m, m', m1);
        m', es', dst := m1, es'[i := s], dst[i := d];
        if !ok {
          return;
        }
      } else {
        NothingCopied(m, m', es'[i], dst[i], mode);
      }
      i := i + 1;
    }
    NoEntriesCost(es[i..], mode);
    ok := true;
  }

  lemma NoEntriesCost(es: seq<Entry>, mode: Mode)
    requires es == []
    ensures EntriesCost(es, mode) == 0
  {
  }

  lemma NoKidsCost(kids: seq<Node>, mode: Mode)
    requires kids == []
    ensures KidsCost(kids, mode) == 0
  {
  }

  lemma EntCopied(src: Entry, src': Entry, dst: Entry, mode: Mode, ok: bool)
    requires src.page.At? && src'.page == src.page && mode != Unset && (ok ==> dst.page.At? && dst.mode == mode)
    requires ok && mode != Excl ==> src'.mode == Cow && dst.page == src.page
    requires ok && mode == Excl ==> src' == src && dst.page != src.page
    ensures ok ==> CopiedAs(src, src', dst, mode)
  {
  }

  lemma NothingCopied(m: Mem, m': Mem, src: Entry, dst: Entry, mode: Mode)
    requires src.page.Nil? && dst.page.Nil?
    ensures CopiedAs(src, src, dst, mode) && View(m', dst) == View(m, src)
  {
  }

  lemma OriginalKept(m: Mem, m': Mem, b: Books, es: seq<Entry>, i: nat, base: Books)
    requires MemOk(m, b) && b == With(base, OfEntries(es)) && Grew(m, m') && i < |es|
    ensures View(m', es[i]) == View(m, es[i])
  {
    hide MemOk;
    if es[i].page.At? { EntryIn(es, i); }
    ViewKept(m, m', b, es[i]);
  }

  ghost predicate SameNodePages(a: Node, b: Node, level: nat)
    requires WellNode(a, level) && WellNode(b, level)
  {
    forall n :: 0 <= n < Span(level) ==> Lookup(b, level, n).page == Lookup(a, level, n).page
  }

  /** Every entry of dst shows in m' what the same entry of src showed in m. */
  ghost predicate NodeCopied(m: Mem, src: Node, m': Mem, dst: Node, level: nat)
    requires WellNode(src, level) && WellNode(dst, level)
  {
    forall n :: 0 <= n < Span(level) ==> View(m', Lookup(dst, level, n)) == View(m, Lookup(src, level, n))
  }

  lemma NodeIn(ns: seq<Node>, i: nat)
    requires i < |ns|
    ensures OfNode(ns[i]).named <= OfNodes(ns).named
  {
    hide OfNode, OfNodes, OtherKids;
    SplitNodes(ns, i, ns[i]);
    assert ns[i := ns[i]] == ns;
  }

  /** A page that some entry of the node shows is counted by the node. */
  lemma {:induction false} LookupIn(node: Node, level: nat, n: nat)
    requires WellNode(node, level) && n < Span(level)
    ensures var e := Lookup(node, level, n); e.page.At? ==> e.page.p in OfNode(node).named
    decreases level
  {
    match node
    case Absent =>
    case Leaf(f, es) =>
      if es[n].page.At? { EntryIn(es, n); }
    case Inner(f, kids) =>
      var k := SlotAt(level, n);
      LookupIn(kids[k], level - 1, RestAt(level, n));
      NodeIn(kids, k);
  }

  lemma NodeViewKept(m: Mem, m': Mem, b: Books, node: Node, level: nat)
    requires MemOk(m, b) && Grew(m, m') && WellNode(node, level) && OfNode(node).named <= b.named
    ensures NodeCopied(m, node, m', node, level)
  {
    hide MemOk, Span, OfNode;
    forall n | 0 <= n < Span(level) ensures View(m', Lookup(node, level, n)) == View(m, Lookup(node, level, n)) {
      LookupIn(node, level, n);
      ViewKept(m, m', b, Lookup(node, level, n));
    }
  }

  lemma CopiedTrans(a: Mem, x: Node, b: Mem, y: Node, c: Mem, z: Node, level: nat)
    requires WellNode(x, level) && WellNode(y, level) && WellNode(z, level)
    requires NodeCopied(a, x, b, y, level) && NodeCopied(b, y, c, z, level)
    ensures NodeCopied(a, x, c, z, level)
  {
  }

  ghost predicate KidsOk(kids: seq<Node>, levels: seq<nat>) {
    |kids| == |levels| && forall k :: 0 <= k < |kids| ==> WellNode(kids[k], levels[k])
  }

  ghost predicate KidsSamePages(kids: seq<Node>, kids': seq<Node>, levels: seq<nat>)
    requires KidsOk(kids, levels) && KidsOk(kids', levels)
  {
    |kids'| == |kids| && forall k :: 0 <= k < |kids| ==> SameNodePages(kids[k], kids'[k], levels[k])
  }

  ghost predicate KidsCopied(m: Mem, kids: seq<Node>, m': Mem, dst: seq<Node>, upto: nat, levels: seq<nat>)
    requires KidsOk(kids, levels) && KidsOk(dst, levels)
  {
    && |dst| == |kids| && upto <= |kids|
    && (forall k :: 0 <= k < upto ==> NodeCopied(m, kids[k], m', dst[k], levels[k]))
    && (forall k :: upto <= k < |dst| ==> dst[k] == Absent)
  }

  ghost function AroundKids(base: Books, kids: seq<Node>, dst: seq<Node>, i: nat): Books
    requires i < |kids| && i < |dst|
  {
    With(base, Add(OtherKids(kids, i), OtherKids(dst, i)))
  }

  lemma FocusKids(base: Books, kids: seq<Node>, dst: seq<Node>, i: nat, s: Node, d: Node)
    requires i < |kids| && i < |dst|
    ensures With(base, Add(OfNodes(kids[i := s]), OfNodes(dst[i := d])))
            == With(AroundKids(base, kids, dst, i), Add(OfNode(s), OfNode(d)))
    ensures BaseOk(base) ==> BaseOk(AroundKids(base, kids, dst, i))
  {
    SplitNodes(kids, i, s);
    SplitNodes(dst, i, d);
    OtherKidsSub(kids, i);
    OtherKidsSub(dst, i);
    AddSub(OtherKids(kids, i), OtherKids(dst, i));
    AddPairs(OfNode(s), OtherKids(kids, i), OfNode(d), OtherKids(dst, i));
    WithAdd(base, Add(OtherKids(kids, i), OtherKids(dst, i)), Add(OfNode(s), OfNode(d)));
  }

  lemma KidsKept(m: Mem, kids: seq<Node>, m1: Mem, m2: Mem, dst: seq<Node>, upto: nat, levels: seq<nat>, base: Books,
      s: Tally)
    requires KidsOk(kids, levels) && KidsOk(dst, levels) && KidsCopied(m, kids, m1, dst, upto, levels)
    requires MemOk(m1, With(base, Add(s, OfNodes(dst)))) && Grew(m1, m2)
    ensures KidsCopied(m, kids, m2, dst, upto, levels)
  {
    hide MemOk, NodeCopied, Grew;
    forall k | 0 <= k < upto ensures NodeCopied(m, kids[k], m2, dst[k], levels[k]) {
      NodeIn(dst, k);
      NodeViewKept(m1, m2, With(base, Add(s, OfNodes(dst))), dst[k], levels[k]);
      CopiedTrans(m, kids[k], m1, dst[k], m2, dst[k], levels[k]);
    }
  }

  lemma KidOriginalKept(m: Mem, m': Mem, kids: seq<Node>, i: nat, levels: seq<nat>, base: Books)
    requires MemOk(m, With(base, OfNodes(kids))) && Grew(m, m') && i < |kids| && KidsOk(kids, levels)
    ensures NodeCopied(m, kids[i], m', kids[i], levels[i])
  {
    NodeIn(kids, i);
    NodeViewKept(m, m', With(base, OfNodes(kids)), kids[i], levels[i]);
  }

  /** The loop over the children of an inner node. */
  method CopyKids(m: Mem, kids: seq<Node>, mode: Mode, levels: seq<nat>, ghost top: nat, cpu: nat, ghost base: Books)
    returns (ok: bool, m': Mem, kids': seq<Node>, dst: seq<Node>)
    requires MemOk(m, With(base, OfNodes(kids))) && BaseOk(base) && cpu < |m.free| && mode != Unset
             && KidsOk(kids, levels)
    requires forall k :: 0 <= k < |levels| ==> levels[k] <= top
    ensures MemOk(m', With(base, Add(OfNodes(kids'), OfNodes(dst)))) && Grew(m, m')
    ensures KidsOk(kids', levels) && KidsOk(dst, levels) && KidsSamePages(kids, kids', levels) && |dst| == |kids|
    ensures ok ==> KidsCopied(m, kids, m', dst, |kids|, levels) && KidsCopiedAs(kids, kids', dst, |kids|, levels, mode)
    ensures !ok ==> Exhausted(m')
    ensures ok <==> KidsCost(kids, mode) <= Spare(m.free)
    ensures SameUse(OfNodes(kids), OfNodes(kids'))
    ensures ok ==> Spare(m'.free) == Spare(m.free) - KidsCost(kids, mode)
    decreases top, 1
  {
    hide MemOk, With, OfNodes, Add, OtherKids, OfNode, NodeCopied, NodeCopiedAs, Span, WellNode, SameNodePages;
    hide KidsCost, Spare, SameUse;
    MemSized(m, With(base, OfNodes(kids)));
    SameUseRefl(OfNodes(kids));
    m', kids', dst := m, kids, seq(|kids|, _ => Absent);
    NothingYet(kids, levels);
    AbsentNodes(dst);
    AddNone(OfNodes(kids));
    assert kids[0..] == kids;
    var i := 0;
    while i < |kids|
      invariant 0 <= i <= |kids| && |m'.free| == |m.free|
      invariant Spare(m'.free) - KidsCost(kids[i..], mode) == Spare(m.free) - KidsCost(kids, mode)
      invariant KidsOk(kids', levels) && KidsOk(dst, levels) && KidsSamePages(kids, kids', levels)
      invariant MemOk(m', With(base, Add(OfNodes(kids'), OfNodes(dst)))) && Grew(m, m')
      invariant SameUse(OfNodes(kids), OfNodes(kids'))
      invariant KidsCopied(m, kids, m', dst, i, levels) && KidsCopiedAs(kids, kids', dst, i, levels, mode)
      invariant forall k :: i <= k < |kids| ==> kids'[k] == kids[k]
    {
      FocusKids(base, kids', dst, i, kids'[i], dst[i]);
      assert kids'[i := kids'[i]] == kids' && dst[i := dst[i]] == dst;
      OfAbsent(kids[i]);
      KidsCostFrom(kids, i, mode);
      var m1, s, d;
      ok, m1, s, d := CopyNode(m', kids'[i], mode, levels[i], cpu, AroundKids(base, kids', dst, i));
      FocusKids(base, kids', dst, i, s, d);
      KidsKept(m, kids, m', m1, dst, i, levels, base, OfNodes(kids'));
      KidOriginalKept(m, m', kids, i, levels, base);
      GrewTrans(m, m', m1);
      if ok {
        CopiedTrans(m, kids[i], m', kids[i], m1, d, levels[i]);
      }
      SameKidUse(kids', i, s);
      SameUseTrans(OfNodes(kids), OfNodes(kids'), OfNodes(kids'[i := s]));
      m', kids', dst := m1, kids'[i := s], dst[i := d];
      if !ok {
        return;
      }
      i := i + 1;
    }
    NoKidsCost(kids[i..], mode);
    ok := true;
  }

  lemma NothingYet(kids: seq<Node>, levels: seq<nat>)
    requires KidsOk(kids, levels)
    ensures KidsSamePages(kids, kids, levels) && forall k: nat :: WellNode(Absent, k)
  {
  }

  lemma OfAbsent(n: Node)
    ensures OfNode(Absent) == NONE && Add(OfNode(n), NONE) == OfNode(n) && Add(NONE, NONE) == NONE
  {
    AddNone(OfNode(n));
    AddNone(NONE);
  }

  /** The levels of the children of an inner node. */
  function KidLevels(level: nat): seq<nat>
    requires level > 0
  {
    seq(FANOUT, _ => level - 1)
  }

  /** pagetree_copy_indirect. */
  method CopyNode(m: Mem, src: Node, mode: Mode, level: nat, cpu: nat, ghost base: Books)
    returns (ok: bool, m': Mem, src': Node, dst: Node)
    requires MemOk(m, With(base, OfNode(src))) && BaseOk(base) && cpu < |m.free| && mode != Unset
             && WellNode(src, level)
    ensures MemOk(m', With(base, Add(OfNode(src'), OfNode(dst)))) && Grew(m, m')
    ensures WellNode(src', level) && WellNode(dst, level) && SameNodePages(src, src', level)
    ensures ok ==> NodeCopied(m, src, m', dst, level) && NodeCopiedAs(src, src', dst, level, mode)
    ensures !ok ==> Exhausted(m')
    ensures ok <==> NodeCost(src, mode) <= Spare(m.free)
    ensures SameUse(OfNode(src), OfNode(src'))
    ensures ok ==> Spare(m'.free) == Spare(m.free) - NodeCost(src, mode)
    decreases level, 0
  {
    hide MemOk, With, OfNodes, OfEntries, Add, OfNode, Span, Spare, EntriesCost, KidsCost;
    hide SameUse;
    MemSized(m, With(base, OfNode(src)));
    OfAbsent(src);
    SameUseRefl(OfNode(src));
    m', src', dst := m, src, Absent;
    if src.Absent? {
      return true, m', src', dst;
    }
    var p;
    ok, p, m' := AllocPage(m, cpu, With(base, OfNode(src)));
    if !ok {
      return;
    }
    WithLoose(base, OfNode(src));
    FrameBooks(base, OfNode(src), p);
    FrameInOk(m', p, With(base, OfNode(src)).(loose := base.loose + {p}));
    ghost var base' := With(base, Add(OfFrame(src.frame), OfFrame(p)));
    if level == 0 {
      LeafPair(base, src.frame, p, src.ents, []);
      var m1, es, d;
      ok, m1, es, d := CopyEntries(m', src.ents, seq(ENTS, _ => ZERO), mode, cpu, base');
      GrewTrans(m, m', m1);
      m', src', dst := m1, Leaf(src.frame, es), Leaf(p, d);
      LeafPair(base, src.frame, p, es, d);
      LeafCopied(m, src, m1, es, p, d, mode);
      LeafUse(src.frame, src.ents, es);
    } else {
      InnerPair(base, src.frame, p, src.kids, []);
      var m1, ks, d;
      ok, m1, ks, d := CopyKids(m', src.kids, mode, KidLevels(level), level - 1, cpu, base');
      GrewTrans(m, m', m1);
      m', src', dst := m1, Inner(src.frame, ks), Inner(p, d);
      InnerPair(base, src.frame, p, ks, d);
      InnerCopied(m, src, m1, ks, p, d, level, mode);
      InnerUse(src.frame, src.kids, ks);
    }
  }

  lemma SameUseRefl(t: Tally)
    ensures SameUse(t, t)
  {
  }

  lemma SameUseTrans(s: Tally, t: Tally, u: Tally)
    requires SameUse(s, t) && SameUse(t, u)
    ensures SameUse(s, u)
  {
  }

  lemma LeafUse(f: Page, es: seq<Entry>, es': seq<Entry>)
    requires SamePages(es, es')
    ensures SameUse(OfNode(Leaf(f, es)), OfNode(Leaf(f, es')))
  {
    hide OfEntries;
    SameEntriesUse(es, es');
  }

  lemma InnerUse(f: Page, kids: seq<Node>, kids': seq<Node>)
    requires SameUse(OfNodes(kids), OfNodes(kids'))
    ensures SameUse(OfNode(Inner(f, kids)), OfNode(Inner(f, kids')))
  {
    hide OfNodes;
  }

  lemma FrameBooks(base: Books, t: Tally, p: Page)
    requires p !in base.loose
    ensures With(base, t).loose == base.loose
    ensures var b := With(base, t);
            b.(loose := base.loose + {p}).(frames := b.frames + multiset{p}, loose := base.loose + {p} - {p})
            == With(base, Add(t, OfFrame(p)))
    ensures BaseOk(base) ==> forall f :: BaseOk(With(base, Add(OfFrame(f), OfFrame(p))))
  {
    assert base.loose + {p} - {p} == base.loose;
  }

  lemma LeafPair(base: Books, f: Page, p: Page, es: seq<Entry>, d: seq<Entry>)
    ensures With(base, Add(OfNode(Leaf(f, es)), OfNode(Leaf(p, d))))
            == With(With(base, Add(OfFrame(f), OfFrame(p))), Add(OfEntries(es), OfEntries(d)))
    ensures With(base, Add(OfNode(Leaf(f, es)), OfFrame(p))) ==
            With(With(base, Add(OfFrame(f), OfFrame(p))), OfEntries(es))
  {
    hide With, Add, OfEntries, OfFrame;
    FramePair(base, OfFrame(f), OfFrame(p), OfEntries(es), OfEntries(d));
  }

  lemma InnerPair(base: Books, f: Page, p: Page, ks: seq<Node>, d: seq<Node>)
    ensures With(base, Add(OfNode(Inner(f, ks)), OfNode(Inner(p, d))))
            == With(With(base, Add(OfFrame(f), OfFrame(p))), Add(OfNodes(ks), OfNodes(d)))
    ensures With(base, Add(OfNode(Inner(f, ks)), OfFrame(p))) ==
            With(With(base, Add(OfFrame(f), OfFrame(p))), OfNodes(ks))
  {
    hide With, Add, OfNodes, OfFrame;
    FramePair(base, OfFrame(f), OfFrame(p), OfNodes(ks), OfNodes(d));
  }

  lemma FramePair(base: Books, f: Tally, p: Tally, s: Tally, d: Tally)
    ensures With(base, Add(Add(f, s), Add(p, d))) == With(With(base, Add(f, p)), Add(s, d))
    ensures With(base, Add(Add(f, s), p)) == With(With(base, Add(f, p)), s)
  {
    hide With, Add;
    AddPairs(f, s, p, d);
    WithAdd(base, Add(f, p), Add(s, d));
    AddSwap(f, s, p);
    AddSwap(f, p, s);
    WithAdd(base, s, p);
    WithAdd(base, Add(f, p), s);
  }

  lemma LeafCopied(m: Mem, src: Node, m': Mem, es: seq<Entry>, p: Page, d: seq<Entry>, mode: Mode)
    requires src.Leaf? && WellNode(src, 0) && |es| == |d| == ENTS
    requires forall k :: 0 <= k < ENTS ==> EntryOk(es[k]) && EntryOk(d[k])
    ensures WellNode(Leaf(src.frame, es), 0) && WellNode(Leaf(p, d), 0)
    ensures SamePages(src.ents, es) ==> SameNodePages(src, Leaf(src.frame, es), 0)
    ensures Copied(m, src.ents, m', d, ENTS) ==> NodeCopied(m, src, m', Leaf(p, d), 0)
    ensures EntriesCopiedAs(src.ents, es, d, ENTS, mode) ==> NodeCopiedAs(src, Leaf(src.frame, es), Leaf(p, d), 0, mode)
  {
  }

  lemma InnerCopied(m: Mem, src: Node, m': Mem, ks: seq<Node>, p: Page, d: seq<Node>, level: nat, mode: Mode)
    requires level > 0 && src.Inner? && WellNode(src, level) && |ks| == |d| == FANOUT && KidsOk(ks, KidLevels(level))
             && KidsOk(d, KidLevels(level))
    requires KidsSamePages(src.kids, ks, KidLevels(level))
    ensures WellNode(Inner(src.frame, ks), level) && WellNode(Inner(p, d), level)
    ensures SameNodePages(src, Inner(src.frame, ks), level)
    ensures KidsCopied(m, src.kids, m', d, FANOUT, KidLevels(level)) ==> NodeCopied(m, src, m', Inner(p, d), level)
    ensures KidsCopiedAs(src.kids, ks, d, FANOUT, KidLevels(level), mode) ==>
            NodeCopiedAs(src, Inner(src.frame, ks), Inner(p, d), level, mode)
  {
    hide Span, CopiedAs;
    var a, c := Inner(src.frame, ks), Inner(p, d);
    forall n | 0 <= n < Span(level)
      ensures Lookup(a, level, n).page == Lookup(src, level, n).page
      ensures KidsCopied(m, src.kids, m', d, FANOUT, KidLevels(level)) ==>
              View(m', Lookup(c, level, n)) == View(m, Lookup(src, level, n))
    {
      var k := SlotAt(level, n);
      assert SameNodePages(src.kids[k], ks[k], level - 1);
    }
    if KidsCopiedAs(src.kids, ks, d, FANOUT, KidLevels(level), mode) {
      forall n | 0 <= n < Span(level)
          ensures CopiedAs(Lookup(src, level, n), Lookup(a, level, n), Lookup(c, level, n), mode) {
        var k := SlotAt(level, n);
        assert NodeCopiedAs(src.kids[k], ks[k], d[k], level - 1, mode);
      }
    }
  }

  // Freeing.

  /** The loop over the entries of a node that is going away. */
  method FreeEntries(m: Mem, es: seq<Entry>, ghost base: Books) returns (m': Mem)
    requires MemOk(m, With(base, OfEntries(es))) && BaseOk(base)
    ensures MemOk(m', base) && m'.bytes == m.bytes && SameShape(m, m')
    ensures Spare(m'.free) >= Spare(m.free) && ((forall i :: 0 <= i < |es| ==> es[i].page.Nil?) ==> m' == m)
  {
    hide MemOk, With, OfEntries, OfEntry, Add, Spare;
    m' := m;
    var i := 0;
    assert es[0..] == es;
    while i < |es|
      invariant 0 <= i <= |es| && m'.bytes == m.bytes && SameShape(m, m')
      invariant MemOk(m', With(base, OfEntries(es[i..])))
      invariant Spare(m'.free) >= Spare(m.free) && ((forall k :: 0 <= k < i ==> es[k].page.Nil?) ==> m' == m)
    {
      DropEntry(base, es[i..]);
      assert es[i..][0] == es[i] && es[i..][1..] == es[i + 1..];
      if es[i].page.At? {
        DecrefOk(m', es[i].page.p, With(base, OfEntries(es[i..])), With(base, OfEntries(es[i + 1..])).excl);
        DecrefSpare(m', es[i].page.p);
        m' := Decref(m', es[i].page.p);
      }
      i := i + 1;
    }
    DropNone(base, es[i..]);
  }

  lemma DropEntry(base: Books, es: seq<Entry>)
    requires es != [] && BaseOk(base)
    ensures var b, b' := With(base, OfEntries(es)), With(base, OfEntries(es[1..]));
            if es[0].page.Nil? then b' == b
            else
              && es[0].page.p in b.named && b'.excl <= b.excl && b'.excl <= b.named - multiset{es[0].page.p}
              && b.(named := b.named - multiset{es[0].page.p}, excl := b'.excl) == b'
  {
    EntriesSub(es[1..]);
    if es[0].page.At? {
      BooksUnnamed(base, es[0], OfEntries(es[1..]));
    } else {
      AddNone(OfEntries(es[1..]));
    }
  }

  lemma DropNone(base: Books, es: seq<Entry>)
    requires es == []
    ensures With(base, OfEntries(es)) == base
  {
    WithNone(base);
  }

  /** pagetree_free_indirect: every page below loses one reference, every indirect page is freed. */
  method FreeNode(m: Mem, node: Node, level: nat, ghost base: Books) returns (m': Mem)
    requires MemOk(m, With(base, OfNode(node))) && BaseOk(base) && WellNode(node, level)
    ensures MemOk(m', base) && m'.bytes == m.bytes && SameShape(m, m')
    ensures Spare(m'.free) >= Spare(m.free) && (node.Absent? ==> m' == m)
    decreases level, 0
  {
    hide MemOk, With, OfEntries, OfNodes, Add, OfNode, Spare;
    if node.Absent? {
      AbsentNone(base);
      return m;
    }
    ghost var base' := With(base, OfFrame(node.frame));
    NodeFrame(base, node);
    if level == 0 {
      m' := FreeEntries(m, node.ents, base');
    } else {
      m' := FreeKids(m, node.kids, KidLevels(level), level - 1, base');
    }
    FrameOutOk(m', node.frame, base');
    FreeSpare(m', node.frame);
    m' := PageFree(m', node.frame);
  }

  lemma NodeFrame(base: Books, node: Node)
    requires !node.Absent? && BaseOk(base)
    ensures var base' := With(base, OfFrame(node.frame));
            && BaseOk(base') && node.frame in base'.frames
            && base'.(frames := base'.frames - multiset{node.frame}) == base
    ensures node.Leaf? ==> With(base, OfNode(node)) == With(With(base, OfFrame(node.frame)), OfEntries(node.ents))
    ensures node.Inner? ==> With(base, OfNode(node)) == With(With(base, OfFrame(node.frame)), OfNodes(node.kids))
  {
    hide OfEntries, OfNodes, Add;
    match node {
      case Leaf(f, es) => WithAdd(base, OfFrame(f), OfEntries(es));
      case Inner(f, kids) => WithAdd(base, OfFrame(f), OfNodes(kids));
    }
    assert base.frames + multiset{node.frame} - multiset{node.frame} == base.frames;
  }

  method FreeKids(m: Mem, kids: seq<Node>, levels: seq<nat>, ghost top: nat, ghost base: Books) returns (m': Mem)
    requires MemOk(m, With(base, OfNodes(kids))) && BaseOk(base) && KidsOk(kids, levels)
    requires forall k :: 0 <= k < |levels| ==> levels[k] <= top
    ensures MemOk(m', base) && m'.bytes == m.bytes && SameShape(m, m')
    ensures Spare(m'.free) >= Spare(m.free) && ((forall i :: 0 <= i < |kids| ==> kids[i].Absent?) ==> m' == m)
    decreases top, 1
  {
    hide MemOk, With, OfNodes, OfNode, Add, WellNode, Spare;
    m' := m;
    var i := 0;
    assert kids[0..] == kids;
    while i < |kids|
      invariant 0 <= i <= |kids| && m'.bytes == m.bytes && SameShape(m, m')
      invariant MemOk(m', With(base, OfNodes(kids[i..])))
      invariant Spare(m'.free) >= Spare(m.free) && ((forall k :: 0 <= k < i ==> kids[k].Absent?) ==> m' == m)
    {
      DropKid(base, kids[i..]);
      assert kids[i..][0] == kids[i] && kids[i..][1..] == kids[i + 1..];
      m' := FreeNode(m', kids[i], levels[i], With(base, OfNodes(kids[i + 1..])));
      i := i + 1;
    }
    DropNoKids(base, kids[i..]);
  }

  lemma DropKid(base: Books, kids: seq<Node>)
    requires kids != [] && BaseOk(base)
    ensures With(base, OfNodes(kids)) == With(With(base, OfNodes(kids[1..])), OfNode(kids[0]))
    ensures BaseOk(With(base, OfNodes(kids[1..])))
  {
    NodesSub(kids[1..]);
    WithAdd(base, OfNodes(kids[1..]), OfNode(kids[0]));
    WithAdd(base, OfNode(kids[0]), OfNodes(kids[1..]));
  }

  lemma DropNoKids(base: Books, kids: seq<Node>)
    requires kids == []
    ensures With(base, OfNodes(kids)) == base
  {
    WithNone(base);
  }
}
