/**
 kern/kern/pagealloc.c and the reference counts of kern/kern/pagetree.c: per-node lists of
 free pages, the free flag, the software and hardware counts, and the page contents.
 A failed kernel assertion is a precondition that callers must establish.
 */
module PageMemory {
  import Arith

  type Page = nat
  type Data = seq<int>

  datatype Mem = Mem(
    nodeOf: seq<nat>,        // arch_node_by_addr of each page
    free: seq<seq<Page>>,    // page_free_list of each node
    freeFlag: seq<bool>,     // pi_freepage
    ref: seq<int>,           // pi_ref
    hw: seq<int>,            // pi_hw_ref
    bytes: seq<Data>)

  ghost predicate Sized(m: Mem) {
    |m.freeFlag| == |m.ref| == |m.hw| == |m.bytes| == |m.nodeOf|
    && forall p :: 0 <= p < |m.nodeOf| ==> m.nodeOf[p] < |m.free|
  }

  /** Every page on the list of node k is a page of that node, flagged free, and there once. */
  ghost predicate ListFine(l: seq<Page>, k: nat, nodeOf: seq<nat>, flag: seq<bool>) {
    && |flag| == |nodeOf|
    && (forall i :: 0 <= i < |l| ==> l[i] < |nodeOf| && flag[l[i]] && nodeOf[l[i]] == k)
    && (forall i, j :: 0 <= i < j < |l| ==> l[i] != l[j])
  }

  /** A page is on the list of its node, once, exactly when it is flagged free. */
  ghost predicate ListsOk(m: Mem)
    requires Sized(m)
  {
    && (forall k :: 0 <= k < |m.free| ==> ListFine(m.free[k], k, m.nodeOf, m.freeFlag))
    && (forall p :: 0 <= p < |m.nodeOf| && m.freeFlag[p] ==> p in m.free[m.nodeOf[p]])
  }

  // Operations.

  function PageFree(m: Mem, p: Page): Mem
    requires p < |m.nodeOf| && p < |m.freeFlag| && m.nodeOf[p] < |m.free|
    requires !m.freeFlag[p]
  {
    m.(freeFlag := m.freeFlag[p := true], free := m.free[m.nodeOf[p] := [p] + m.free[m.nodeOf[p]]])
  }

  function Incref(m: Mem, p: Page): Mem
    requires p < |m.ref|
  {
    m.(ref := m.ref[p := m.ref[p] + 1])
  }

  function Decref(m: Mem, p: Page): Mem
    requires p < |m.ref| && p < |m.hw| && p < |m.nodeOf| && p < |m.freeFlag| && m.nodeOf[p] < |m.free|
    requires m.ref[p] == 1 ==> m.hw[p] == 0 && !m.freeFlag[p]
  {
    var m' := m.(ref := m.ref[p := m.ref[p] - 1]);
    if m'.ref[p] == 0 then PageFree(m', p) else m'
  }

  function IncrefHw(m: Mem, p: Page): Mem
    requires p < |m.ref| && p < |m.hw|
    requires m.ref[p] != 0 && m.hw[p] <= m.ref[p]
  {
    m.(ref := m.ref[p := m.ref[p] + 1], hw := m.hw[p := m.hw[p] + 1])
  }

  function DecrefHw(m: Mem, p: Page): Mem
    requires p < |m.ref| && p < |m.hw| && p < |m.nodeOf| && p < |m.freeFlag| && m.nodeOf[p] < |m.free|
    requires m.hw[p] != 0 && m.hw[p] <= m.ref[p]
    requires m.ref[p] == 1 ==> m.hw[p] == 1 && !m.freeFlag[p]
  {
    Decref(m.(hw := m.hw[p := m.hw[p] - 1]), p)
  }

  function Write(m: Mem, p: Page, d: Data): Mem
    requires p < |m.bytes|
  {
    m.(bytes := m.bytes[p := d])
  }

  /** What page_alloc takes: the first page of list k. */
  function Taken(m: Mem, k: nat): Mem
    requires k < |m.free| && m.free[k] != [] && m.free[k][0] < |m.freeFlag|
  {
    m.(free := m.free[k := m.free[k][1..]], freeFlag := m.freeFlag[m.free[k][0] := false])
  }

  /** The d-th node after this one, going round. */
  function After(node: nat, d: nat, nodes: nat): (k: nat)
    requires nodes > 0
    ensures k < nodes
  {
    (node + d) % nodes
  }

  function NextNode(k: nat, nodes: nat): (r: nat)
    requires nodes > 0
    ensures r < nodes
  {
    (k + 1) % nodes
  }

  lemma AfterSteps(node: nat, d: nat, nodes: nat)
    requires node < nodes
    ensures After(node, 0, nodes) == After(node, nodes, nodes) == node
    ensures After(node, d + 1, nodes) == NextNode(After(node, d, nodes), nodes)
  {
    Arith.DivModOf(node, nodes, 0, node);
    Arith.ModPeriod(node, nodes);
    Arith.ModNext(node + d, nodes);
  }

  /** page_alloc: the first page of the first non-empty list from node on; fails only when all are empty. */
  method PageAlloc(m: Mem, node: nat) returns (ok: bool, p: Page, m': Mem, k: nat, ghost d: nat)
    requires Sized(m) && ListsOk(m) && node < |m.free|
    ensures !ok ==> m' == m && forall j :: 0 <= j < |m.free| ==> m.free[j] == []
    ensures ok ==> k < |m.free| && m.free[k] != [] && p == m.free[k][0]
    ensures ok ==> p < |m.nodeOf| && m.freeFlag[p] && m' == Taken(m, k)
    ensures ok ==> k == After(node, d, |m.free|) && forall j :: 0 <= j < d ==> m.free[After(node, j, |m.free|)] == []
  {
    hide After;
    k, d, m', p := node, 0, m, 0;
    AfterSteps(node, 0, |m.free|);
    if m.free[node] == [] {
      k, d := NextNode(node, |m.free|), 1;
      while k != node
        invariant 1 <= d <= |m.free| && k < |m.free| && k == After(node, d, |m.free|)
        invariant forall j :: 0 <= j < d ==> m.free[After(node, j, |m.free|)] == []
        decreases |m.free| - d
      {
        if m.free[k] != [] {
          break;
        }
        AfterSteps(node, d, |m.free|);
        k, d := NextNode(k, |m.free|), d + 1;
      }
    }
    if m.free[k] == [] {
      AllVisited(m, node, d);
      return false, p, m', k, d;
    }
    assert ListFine(m.free[k], k, m.nodeOf, m.freeFlag);
    p := m.free[k][0];
    return true, p, Taken(m, k), k, d;
  }

  lemma AllVisited(m: Mem, node: nat, d: nat)
    requires node < |m.free| && (d >= 1 ==> After(node, d, |m.free|) == node) && 1 <= d <= |m.free|
    requires forall j :: 0 <= j < d ==> m.free[After(node, j, |m.free|)] == []
    ensures forall j :: 0 <= j < |m.free| ==> m.free[j] == []
  {
    var n := |m.free|;
    if d < n {
      Arith.ModDistinct(node, node + d, n);
      Arith.DivModOf(node, n, 0, node);
    }
    forall j | 0 <= j < n ensures m.free[j] == [] {
      var i := if node <= j then j - node else j - node + n;
      if node <= j {
        Arith.DivModOf(j, n, 0, j);
      } else {
        Arith.DivModOf(j + n, n, 1, j);
      }
      assert After(node, i, n) == j;
    }
  }

  // Counting free pages.

  /** The number of free pages. */
  ghost function Spare(free: seq<seq<Page>>): nat {
    if free == [] then 0 else |free[0]| + Spare(free[1..])
  }

  lemma {:induction false} SpareUpdate(free: seq<seq<Page>>, k: nat, l: seq<Page>)
    requires k < |free|
    ensures Spare(free[k := l]) == Spare(free) - |free[k]| + |l|
  {
    if k > 0 {
      SpareUpdate(free[1..], k - 1, l);
      assert free[k := l][1..] == free[1..][k - 1 := l];
    } else {
      assert free[k := l][1..] == free[1..];
    }
  }

  lemma {:induction false} SpareZero(free: seq<seq<Page>>)
    ensures Spare(free) == 0 <==> forall k :: 0 <= k < |free| ==> free[k] == []
  {
    if free != [] {
      SpareZero(free[1..]);
      assert forall k :: 0 < k < |free| ==> free[k] == free[1..][k - 1];
    }
  }

  lemma TakenSpare(m: Mem, k: nat)
    requires k < |m.free| && m.free[k] != [] && m.free[k][0] < |m.freeFlag|
    ensures Spare(Taken(m, k).free) == Spare(m.free) - 1
  {
    SpareUpdate(m.free, k, m.free[k][1..]);
  }

  lemma FreeSpare(m: Mem, p: Page)
    requires p < |m.nodeOf| && p < |m.freeFlag| && m.nodeOf[p] < |m.free| && !m.freeFlag[p]
    ensures Spare(PageFree(m, p).free) == Spare(m.free) + 1
  {
    SpareUpdate(m.free, m.nodeOf[p], [p] + m.free[m.nodeOf[p]]);
  }

  /** A page whose last reference goes becomes a free page. */
  lemma DecrefSpare(m: Mem, p: Page)
    requires p < |m.ref| && p < |m.hw| && p < |m.nodeOf| && p < |m.freeFlag| && m.nodeOf[p] < |m.free|
    requires m.ref[p] == 1 ==> m.hw[p] == 0 && !m.freeFlag[p]
    ensures Spare(Decref(m, p).free) == Spare(m.free) + if m.ref[p] == 1 then 1 else 0
  {
    SpareUpdate(m.free, m.nodeOf[p], [p] + m.free[m.nodeOf[p]]);
  }

  // The accounting invariant.

  /**
   The books kept about the pages: named counts the entries that name each page, excl those
   that own it exclusively, frames the indirect pages; loose are pages handed out otherwise.
   */
  datatype Books = Books(named: multiset<Page>, excl: multiset<Page>, frames: multiset<Page>, loose: set<Page>)

  /**
   Who has a page: nobody, a tree as one of its indirect pages, some entry or pin, or some
   other part of the kernel.
   */
  ghost predicate PageOk(m: Mem, b: Books, p: Page)
    requires Sized(m) && p < |m.nodeOf|
  {
    && m.ref[p] == b.named[p] + m.hw[p] && m.hw[p] >= 0
    && (b.excl[p] > 0 ==> b.named[p] == 1 && b.excl[p] == 1)
    && b.frames[p] <= 1
    && (m.freeFlag[p] <==> m.ref[p] == 0 && b.frames[p] == 0 && p !in b.loose)
    && (b.frames[p] == 1 ==> m.ref[p] == 0 && p !in b.loose)
    && (p in b.loose ==> m.ref[p] == 0)
  }

  /** The memory agrees with the books. */
  ghost predicate MemOk(m: Mem, b: Books) {
    && Sized(m) && ListsOk(m)
    && (forall p :: p in b.named || p in b.excl || p in b.frames || p in b.loose ==> p < |m.nodeOf|)
    && (forall p :: 0 <= p < |m.nodeOf| ==> PageOk(m, b, p))
  }

  // The free pages as a set.

  ghost function OnList(l: seq<Page>): set<Page> {
    set i | 0 <= i < |l| :: l[i]
  }

  ghost function OnLists(free: seq<seq<Page>>): set<Page> {
    if free == [] then {} else OnList(free[0]) + OnLists(free[1..])
  }

  lemma {:induction false} PagesSize(l: seq<Page>)
    requires forall i, j :: 0 <= i < j < |l| ==> l[i] != l[j]
    ensures |OnList(l)| == |l|
  {
    if l == [] {
      assert OnList(l) == {};
    } else {
      PagesSize(l[1..]);
      assert OnList(l) == {l[0]} + OnList(l[1..]) by {
        assert l == [l[0]] + l[1..];
      }
    }
  }

  lemma {:induction false} OnListsMember(free: seq<seq<Page>>, p: Page)
    ensures p in OnLists(free) <==> exists i :: 0 <= i < |free| && p in free[i]
  {
    if free != [] {
      OnListsMember(free[1..], p);
      if p in OnLists(free[1..]) {
        var i :| 0 <= i < |free[1..]| && p in free[1..][i];
        assert p in free[i + 1];
      }
      if i :| 0 <= i < |free| && p in free[i] {
        assert i > 0 ==> p in free[1..][i - 1];
      }
    }
  }

  /** The pages on the lists of the nodes from k on are pages of those nodes. */
  lemma ListsAbove(free: seq<seq<Page>>, k: nat, nodeOf: seq<nat>, flag: seq<bool>, p: Page)
    requires (forall i :: 0 <= i < |free| ==> ListFine(free[i], k + i, nodeOf, flag)) && p in OnLists(free)
    ensures p < |nodeOf| && nodeOf[p] >= k
  {
    OnListsMember(free, p);
    var i :| 0 <= i < |free| && p in free[i];
    assert ListFine(free[i], k + i, nodeOf, flag);
  }

  lemma OneList(l: seq<Page>, k: nat, nodeOf: seq<nat>, flag: seq<bool>)
    requires ListFine(l, k, nodeOf, flag)
    ensures |OnList(l)| == |l| && forall p :: p in OnList(l) ==> p < |nodeOf| && nodeOf[p] == k
  {
    PagesSize(l);
  }

  /** So the lists hold every page at most once. */
  lemma {:induction false} ListsSize(free: seq<seq<Page>>, k: nat, nodeOf: seq<nat>, flag: seq<bool>)
    requires forall i :: 0 <= i < |free| ==> ListFine(free[i], k + i, nodeOf, flag)
    ensures Spare(free) == |OnLists(free)|
  {
    hide ListFine, OnList;
    if free != [] {
      forall i | 0 <= i < |free| - 1 ensures ListFine(free[1..][i], k + 1 + i, nodeOf, flag) {
        assert ListFine(free[i + 1], k + (i + 1), nodeOf, flag);
      }
      ListsSize(free[1..], k + 1, nodeOf, flag);
      assert ListFine(free[0], k + 0, nodeOf, flag);
      OneList(free[0], k, nodeOf, flag);
      forall p | p in OnLists(free[1..]) ensures p < |nodeOf| && nodeOf[p] >= k + 1 {
        ListsAbove(free[1..], k + 1, nodeOf, flag, p);
      }
      assert OnList(free[0]) !! OnLists(free[1..]);
    }
  }

  /** The pages that nobody has according to the books. */
  ghost function Unclaimed(m: Mem, b: Books): set<Page> {
    set p: Page | p < |m.nodeOf| && p < |m.hw| && b.named[p] + m.hw[p] == 0 && b.frames[p] == 0 && p !in b.loose
  }

  /** They are the free pages. */
  lemma SpareUnclaimed(m: Mem, b: Books)
    requires MemOk(m, b)
    ensures Spare(m.free) == |Unclaimed(m, b)|
  {
    forall i | 0 <= i < |m.free| ensures ListFine(m.free[i], 0 + i, m.nodeOf, m.freeFlag) {}
    ListsSize(m.free, 0, m.nodeOf, m.freeFlag);
    hide ListFine, OnLists, Spare;
    forall p: Page ensures p in OnLists(m.free) <==> p in Unclaimed(m, b) {
      OnListsMember(m.free, p);
      if p in OnLists(m.free) {
        var i :| 0 <= i < |m.free| && p in m.free[i];
        Flagged(m, i, p);
        assert PageOk(m, b, p);
      }
      if p in Unclaimed(m, b) {
        assert PageOk(m, b, p);
        assert p in m.free[m.nodeOf[p]];
      }
    }
    assert OnLists(m.free) == Unclaimed(m, b);
  }

  lemma Flagged(m: Mem, i: nat, p: Page)
    requires Sized(m) && ListsOk(m) && i < |m.free| && p in m.free[i]
    ensures p < |m.nodeOf| && m.freeFlag[p]
  {
    assert ListFine(m.free[i], i, m.nodeOf, m.freeFlag);
  }

  lemma ListPush(l: seq<Page>, k: nat, nodeOf: seq<nat>, flag: seq<bool>, p: Page)
    requires ListFine(l, k, nodeOf, flag) && p < |nodeOf| && !flag[p]
    ensures ListFine(l, k, nodeOf, flag[p := true])
    ensures nodeOf[p] == k ==> ListFine([p] + l, k, nodeOf, flag[p := true])
  {
  }

  lemma ListPop(l: seq<Page>, k: nat, nodeOf: seq<nat>, flag: seq<bool>, p: Page)
    requires ListFine(l, k, nodeOf, flag) && p < |nodeOf| && flag[p]
    ensures p !in l ==> ListFine(l, k, nodeOf, flag[p := false])
    ensures l != [] && l[0] == p ==> ListFine(l[1..], k, nodeOf, flag[p := false])
  {
  }

  lemma ListsFree(m: Mem, p: Page)
    requires Sized(m) && ListsOk(m) && p < |m.nodeOf| && !m.freeFlag[p]
    ensures Sized(PageFree(m, p)) && ListsOk(PageFree(m, p))
  {
    hide ListFine;
    var m' := PageFree(m, p);
    forall k | 0 <= k < |m.free| ensures ListFine(m'.free[k], k, m'.nodeOf, m'.freeFlag) {
      ListPush(m.free[k], k, m.nodeOf, m.freeFlag, p);
    }
    forall q | 0 <= q < |m.nodeOf| && m'.freeFlag[q] ensures q in m'.free[m'.nodeOf[q]] {
      assert q != p ==> q in m.free[m.nodeOf[q]];
    }
  }

  lemma ListsTaken(m: Mem, k: nat)
    requires Sized(m) && ListsOk(m) && k < |m.free| && m.free[k] != []
    ensures m.free[k][0] < |m.nodeOf| && m.freeFlag[m.free[k][0]]
    ensures Sized(Taken(m, k)) && ListsOk(Taken(m, k))
  {
    assert ListFine(m.free[k], k, m.nodeOf, m.freeFlag);
    var p, m' := m.free[k][0], Taken(m, k);
    forall j | 0 <= j < |m.free| ensures ListFine(m'.free[j], j, m'.nodeOf, m'.freeFlag) {
      assert ListFine(m.free[j], j, m.nodeOf, m.freeFlag);
      assert j != k ==> p !in m.free[j];
      ListPop(m.free[j], j, m.nodeOf, m.freeFlag, p);
    }
    assert m.free[k] == [p] + m.free[k][1..];
    forall q | 0 <= q < |m.nodeOf| && m'.freeFlag[q] ensures q in m'.free[m'.nodeOf[q]] {
      assert q in m.free[m.nodeOf[q]];
    }
  }

  /** A page from page_alloc was nobody's and is now loose; the allocator's own assertion holds. */
  lemma AllocOk(m: Mem, k: nat, b: Books)
    requires MemOk(m, b) && k < |m.free| && m.free[k] != []
    ensures var p := m.free[k][0];
            && p < |m.nodeOf| && m.freeFlag[p] && p !in b.named && p !in b.excl && p !in b.frames && p !in b.loose
            && MemOk(Taken(m, k), b.(loose := b.loose + {p}))
  {
    ListsTaken(m, k);
    hide ListsOk;
    var p, m' := m.free[k][0], Taken(m, k);
    assert PageOk(m, b, p);
    forall q | 0 <= q < |m.nodeOf| ensures PageOk(m', b.(loose := b.loose + {p}), q) {
      assert PageOk(m, b, q);
    }
  }

  /** page_free of a page that only the caller has. */
  lemma FreeLooseOk(m: Mem, p: Page, b: Books)
    requires MemOk(m, b) && p in b.loose
    ensures Sized(m) && p < |m.nodeOf| && !m.freeFlag[p] && MemOk(PageFree(m, p), b.(loose := b.loose - {p}))
  {
    assert PageOk(m, b, p);
    ListsFree(m, p);
    hide ListsOk;
    forall q | 0 <= q < |m.nodeOf| ensures PageOk(PageFree(m, p), b.(loose := b.loose - {p}), q) {
      assert PageOk(m, b, q);
    }
  }

  /** A loose page becomes an indirect page of a tree. */
  lemma FrameInOk(m: Mem, p: Page, b: Books)
    requires MemOk(m, b) && p in b.loose
    ensures MemOk(m, b.(frames := b.frames + multiset{p}, loose := b.loose - {p}))
  {
    hide ListsOk;
    forall q | 0 <= q < |m.nodeOf| ensures PageOk(m, b.(frames := b.frames + multiset{p}, loose := b.loose - {p}), q) {
      assert PageOk(m, b, q) && PageOk(m, b, p);
    }
  }

  /** page_free of an indirect page. */
  lemma FrameOutOk(m: Mem, p: Page, b: Books)
    requires MemOk(m, b) && p in b.frames
    ensures Sized(m) && p < |m.nodeOf| && !m.freeFlag[p] && MemOk(PageFree(m, p), b.(frames := b.frames - multiset{p}))
  {
    assert PageOk(m, b, p);
    ListsFree(m, p);
    hide ListsOk;
    forall q | 0 <= q < |m.nodeOf| ensures PageOk(PageFree(m, p), b.(frames := b.frames - multiset{p}), q) {
      assert PageOk(m, b, q);
    }
  }

  /** A loose page gets its first entry, which owns it. */
  lemma NameLooseOk(m: Mem, p: Page, b: Books)
    requires MemOk(m, b) && p in b.loose
    ensures Sized(m) && p < |m.nodeOf|
    ensures var b' := b.(named := b.named + multiset{p}, excl := b.excl + multiset{p}, loose := b.loose - {p});
            MemOk(Incref(m, p), b')
  {
    hide ListsOk;
    assert PageOk(m, b, p);
    var m' := Incref(m, p);
    assert ListsOk(m') by { ListsSame(m, m'); }
    var b' := b.(named := b.named + multiset{p}, excl := b.excl + multiset{p}, loose := b.loose - {p});
    forall q | 0 <= q < |m.nodeOf| ensures PageOk(m', b', q) {
      assert PageOk(m, b, q);
    }
  }

  lemma ListsSame(m: Mem, m': Mem)
    requires Sized(m) && ListsOk(m)
    requires m'.nodeOf == m.nodeOf && m'.free == m.free && m'.freeFlag == m.freeFlag && Sized(m')
    ensures ListsOk(m')
  {
  }

  /** One more entry names a page that no entry owns any more. */
  lemma ShareOk(m: Mem, p: Page, b: Books, excl': multiset<Page>)
    requires MemOk(m, b) && p in b.named && excl' <= b.excl && excl'[p] == 0
    ensures Sized(m) && p < |m.nodeOf| && MemOk(Incref(m, p), b.(named := b.named + multiset{p}, excl := excl'))
  {
    hide ListsOk;
    assert PageOk(m, b, p);
    var m' := Incref(m, p);
    assert ListsOk(m') by { ListsSame(m, m'); }
    forall q | 0 <= q < |m.nodeOf| ensures PageOk(m', b.(named := b.named + multiset{p}, excl := excl'), q) {
      assert PageOk(m, b, q);
    }
  }

  /** One entry fewer names p: it is freed exactly when no entry and no pin is left. */
  lemma DecrefOk(m: Mem, p: Page, b: Books, excl': multiset<Page>)
    requires MemOk(m, b) && p in b.named
    requires excl' <= b.excl && excl' <= b.named - multiset{p}
    ensures Sized(m) && p < |m.nodeOf| && m.ref[p] > 0 && !m.freeFlag[p] && (m.ref[p] == 1 ==> m.hw[p] == 0)
    ensures MemOk(Decref(m, p), b.(named := b.named - multiset{p}, excl := excl'))
    ensures Decref(m, p).freeFlag[p] <==> b.named[p] == 1 && m.hw[p] == 0
  {
    assert PageOk(m, b, p);
    var m1 := m.(ref := m.ref[p := m.ref[p] - 1]);
    ListsSame(m, m1);
    if m1.ref[p] == 0 { ListsFree(m1, p); }
    hide ListsOk;
    forall q | 0 <= q < |m.nodeOf| ensures PageOk(Decref(m, p), b.(named := b.named - multiset{p}, excl := excl'), q) {
      assert PageOk(m, b, q);
    }
  }

  /** pagetree_incref_hw: both panics are about pages nobody has. */
  lemma PinOk(m: Mem, p: Page, b: Books)
    requires MemOk(m, b) && p < |m.nodeOf| && m.ref[p] != 0
    ensures m.hw[p] <= m.ref[p] && MemOk(IncrefHw(m, p), b)
  {
    hide ListsOk;
    assert PageOk(m, b, p);
    var m' := IncrefHw(m, p);
    assert ListsOk(m') by { ListsSame(m, m'); }
    forall q | 0 <= q < |m.nodeOf| ensures PageOk(m', b, q) {
      assert PageOk(m, b, q);
    }
  }

  lemma UnpinOk(m: Mem, p: Page, b: Books)
    requires MemOk(m, b) && p < |m.nodeOf| && m.hw[p] != 0
    ensures m.hw[p] <= m.ref[p] && !m.freeFlag[p] && (m.ref[p] == 1 ==> m.hw[p] == 1)
    ensures MemOk(DecrefHw(m, p), b)
    ensures DecrefHw(m, p).freeFlag[p] <==> b.named[p] == 0 && m.hw[p] == 1
  {
    assert PageOk(m, b, p);
    UnpinLists(m, p);
    hide ListsOk;
    forall q | 0 <= q < |m.nodeOf| ensures PageOk(DecrefHw(m, p), b, q) {
      assert PageOk(m, b, q);
    }
  }

  lemma UnpinLists(m: Mem, p: Page)
    requires Sized(m) && ListsOk(m) && p < |m.nodeOf| && 0 < m.hw[p] <= m.ref[p] && !m.freeFlag[p]
             && (m.ref[p] == 1 ==> m.hw[p] == 1)
    ensures Sized(DecrefHw(m, p)) && ListsOk(DecrefHw(m, p))
  {
    hide ListsOk;
    var m1 := m.(hw := m.hw[p := m.hw[p] - 1], ref := m.ref[p := m.ref[p] - 1]);
    ListsSame(m, m1);
    if m1.ref[p] == 0 { ListsFree(m1, p); }
  }

  lemma WriteOk(m: Mem, p: Page, d: Data, b: Books)
    requires MemOk(m, b) && p < |m.bytes|
    ensures MemOk(Write(m, p, d), b)
  {
    ListsSame(m, Write(m, p, d));
    hide ListsOk;
    forall q | 0 <= q < |m.nodeOf| ensures PageOk(Write(m, p, d), b, q) {
      assert PageOk(m, b, q);
    }
  }
}
