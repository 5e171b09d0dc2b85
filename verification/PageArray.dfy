/**
 kern/kern/darray.c and kern/kern/segment.c: arrays of fixed-size elements packed into the
 pages of a page tree, with growing, shrinking, rollback and copying.
 */
module PageArray {
  import opened PageMemory
  import opened PageIndex
  import opened PageTree
  import opened PageEntries
  import opened PagePaths
  import opened PageForest
  import opened PageSystem
  import Arith

  const PGSIZE: nat := 4096
  const U64: nat := 0x1_0000_0000_0000_0000

  // Elements and pages.

  /** Elements per page. */
  function PerPage(esz: nat): (pp: nat)
    requires 1 <= esz <= PGSIZE
    ensures 1 <= pp && pp * esz <= PGSIZE
  {
    assert PGSIZE == esz * (PGSIZE / esz) + PGSIZE % esz;
    PGSIZE / esz
  }

  /** The page of element i. */
  function PageOf(i: nat, esz: nat): nat
    requires 1 <= esz <= PGSIZE
  {
    i / PerPage(esz)
  }

  /** Where element i starts in its page. */
  function Offset(i: nat, esz: nat): nat
    requires 1 <= esz <= PGSIZE
  {
    (i % PerPage(esz)) * esz
  }

  /** Every element lies inside one page, and no two elements share a byte. */
  lemma ElementsApart(i: nat, j: nat, esz: nat)
    requires 1 <= esz <= PGSIZE
    ensures Offset(i, esz) + esz <= PGSIZE
    ensures i != j && PageOf(i, esz) == PageOf(j, esz) ==>
              Offset(i, esz) + esz <= Offset(j, esz) || Offset(j, esz) + esz <= Offset(i, esz)
  {
    var pp := PerPage(esz);
    assert i == pp * (i / pp) + i % pp && j == pp * (j / pp) + j % pp;
    Scaled(i % pp + 1, pp, esz);
    if i % pp < j % pp {
      Scaled(i % pp + 1, j % pp, esz);
    } else if j % pp < i % pp {
      Scaled(j % pp + 1, i % pp, esz);
    }
  }

  lemma Scaled(a: nat, b: nat, k: nat)
    requires a <= b
    ensures a * k <= b * k && (a >= 1 ==> a * k == (a - 1) * k + k)
  {
  }

  function RoundDown(a: nat, n: nat): nat
    requires n > 0
  {
    a - a % n
  }

  /** ROUNDUP in 64-bit arithmetic. */
  function RoundUp(a: nat, n: nat): nat
    requires n > 0
  {
    RoundDown((a + n - 1) % U64, n)
  }

  /** The number of pages for n elements, as the code computes it. */
  function Pages(n: nat, pp: nat): nat
    requires pp > 0
  {
    RoundUp(n, pp) / pp
  }

  predicate Fits(n: nat, pp: nat) {
    n + pp <= U64
  }

  lemma RoundedDiv(a: nat, n: nat)
    requires n > 0
    ensures RoundDown(a, n) / n == a / n
  {
    RoundedBy(a, n, a / n, a % n);
  }

  lemma RoundedBy(a: int, n: int, q: int, r: int)
    requires n > 0 && a == n * q + r && 0 <= r < n
    ensures (a - r) / n == q
  {
    Arith.DivModOf(a - r, n, q, 0);
  }

  /** The pages hold all n elements, with less than a page to spare, exactly when the rounding does not wrap. */
  lemma PagesExact(n: nat, pp: nat)
    requires 0 < pp <= PGSIZE && 0 < n < U64
    ensures Pages(n, pp) * pp >= n <==> Fits(n, pp)
    ensures Fits(n, pp) ==> Pages(n, pp) * pp < n + pp
    ensures !Fits(n, pp) ==> Pages(n, pp) == 0
  {
    hide RoundDown;
    var a := n + pp - 1;
    RoundedDiv(a % U64, pp);
    if Fits(n, pp) {
      Arith.DivModOf(a, U64, 0, a);
      CeilDiv(n, pp, a / pp, a % pp);
    } else {
      Arith.DivModOf(a, U64, 1, a - U64);
      Arith.DivModOf(a - U64, pp, 0, a - U64);
    }
  }

  lemma CeilDiv(n: int, pp: int, q: int, r: int)
    requires n + pp - 1 == pp * q + r && 0 <= r < pp
    ensures n <= q * pp < n + pp
  {
    assert q * pp == pp * q;
  }

  /** An element within the array lies in one of its pages. */
  lemma ElementInside(i: nat, n: nat, pp: nat)
    requires i < n < U64 && 0 < pp <= PGSIZE && Fits(n, pp)
    ensures i / pp < Pages(n, pp)
  {
    hide Pages;
    PagesExact(n, pp);
    var q, w := i / pp, Pages(n, pp);
    assert i == q * pp + i % pp;
    if w <= q { Scaled(w, q, pp); }
  }

  // Changing the number of elements.

  ghost function Zeroes(): Data {
    seq(PGSIZE, _ => 0)
  }

  /** Only tree t differs. */
  ghost predicate Within(a: seq<Image>, b: seq<Image>, t: nat) {
    t < |a| && |b| == |a| && |a[t]| == CAPACITY && |b[t]| == CAPACITY && b == a[t := b[t]]
  }

  /** The pages from lo to hi are gone, and nothing else changed. */
  ghost predicate Emptied(a: seq<Image>, b: seq<Image>, t: nat, lo: nat, hi: nat) {
    Within(a, b, t) && forall p :: 0 <= p < CAPACITY ==> b[t][p] == if lo <= p < hi then Missing else a[t][p]
  }

  /** The pages from lo to hi are there, cleared if so asked, and nothing else changed. */
  ghost predicate Provided(a: seq<Image>, b: seq<Image>, t: nat, lo: nat, hi: nat, clear: bool) {
    && Within(a, b, t) && (lo < hi ==> hi <= CAPACITY)
    && (forall p :: 0 <= p < CAPACITY && !(lo <= p < hi) ==> b[t][p] == a[t][p])
    && (forall p :: lo <= p < hi && p < CAPACITY ==> b[t][p] != Missing && (clear ==> b[t][p] == Bytes(Zeroes())))
  }

  lemma EmptiedStep(a: seq<Image>, b: seq<Image>, c: seq<Image>, t: nat, lo: nat, i: nat)
    requires Emptied(a, b, t, lo, i) && lo <= i < CAPACITY && c == b[t := b[t][i := Missing]]
    ensures Emptied(a, c, t, lo, i + 1)
  {
  }

  lemma ProvidedStep(a: seq<Image>, b: seq<Image>, c: seq<Image>, t: nat, lo: nat, i: nat, d: Contents, clear: bool)
    requires Provided(a, b, t, lo, i, clear) && lo <= i < CAPACITY && c == b[t := b[t][i := d]]
    requires d != Missing && (clear ==> d == Bytes(Zeroes()))
    ensures Provided(a, c, t, lo, i + 1, clear)
  {
  }

  lemma ProvidedThenEmptied(a: seq<Image>, b: seq<Image>, c: seq<Image>, t: nat, lo: nat, i: nat, clear: bool)
    requires Provided(a, b, t, lo, i, clear) && Emptied(b, c, t, lo, i)
    ensures Emptied(a, c, t, lo, i)
  {
  }

  ghost predicate TailEmpty(im: Image, from: nat) {
    forall p :: from <= p < |im| ==> im[p] == Missing
  }

  /** The pages after a successful change from cur pages to npg. */
  ghost predicate Resized(a: seq<Image>, b: seq<Image>, t: nat, cur: nat, npg: nat, demand: bool, clear: bool) {
    if npg <= cur then Emptied(a, b, t, npg, cur)
    else if demand then b == a
    else Provided(a, b, t, cur, npg, clear)
  }

  lemma ResizedBy(a: seq<Image>, b: seq<Image>, c: seq<Image>, t: nat, cur: nat, npg: nat, demand: bool, clear: bool)
    requires Emptied(a, b, t, npg, cur) && if demand then c == b else Provided(b, c, t, cur, npg, clear)
    ensures Resized(a, c, t, cur, npg, demand, clear)
    ensures TailEmpty(a[t], cur) ==> TailEmpty(c[t], npg)
  {
    if npg <= cur {
      assert c[t] == b[t];
      assert c == b;
    } else {
      assert b[t] == a[t];
      assert b == a;
    }
  }

  lemma RolledBack(a: seq<Image>, b: seq<Image>, c: seq<Image>, t: nat, cur: nat, npg: nat, upto: nat)
    requires Emptied(a, b, t, npg, cur) && cur <= upto < npg && Emptied(b, c, t, cur, upto)
    ensures TailEmpty(a[t], cur) ==> c == a
  {
    assert TailEmpty(a[t], cur) ==> c[t] == a[t];
  }

  // Dropping pages one by one.

  /** How many of the pages lo to hi of a tree name page p. */
  ghost function Names(t: Tree, lo: nat, hi: nat, p: Page): nat
    requires WellTree(t) && hi <= CAPACITY
  {
    if lo >= hi then 0 else Names(t, lo, hi - 1, p) + if Find(t, hi - 1).page == At(p) then 1 else 0
  }

  /** How many pages are freed when pages lo to hi are dropped: those whose last reference goes with one of them. */
  ghost function Freed(ref: seq<int>, t: Tree, lo: nat, hi: nat): nat
    requires WellTree(t) && hi <= CAPACITY
  {
    if lo >= hi then 0
    else
      var page := Find(t, hi - 1).page;
      Freed(ref, t, lo, hi - 1)
      + if page.At? && page.p < |ref| && ref[page.p] == Names(t, lo, hi, page.p) then 1 else 0
  }

  /** The entries from i on are as they were. */
  ghost predicate FromOn(t0: Tree, t: Tree, i: nat)
    requires WellTree(t0) && WellTree(t)
  {
    forall n :: i <= n < CAPACITY ==> Find(t, n) == Find(t0, n)
  }

  /** Each page has lost the references of the pages dropped. */
  ghost predicate RefsLess(ref0: seq<int>, ref: seq<int>, t0: Tree, lo: nat, i: nat)
    requires WellTree(t0) && i <= CAPACITY
  {
    |ref| == |ref0| && forall p :: 0 <= p < |ref0| ==> ref[p] == ref0[p] - Names(t0, lo, i, p)
  }

  /** The indirect pages that were missing so far are there. */
  ghost predicate LackLess(t0: Tree, t: Tree, lo: nat, i: nat)
    requires WellTree(t0) && WellTree(t)
  {
    forall n :: LackOf(t, n) == LackOf(t0, n) - LackIn(t0, lo, i)
  }

  /** Pages lo to i of tree t0 over memory m0 have been dropped, which leaves t and m. */
  ghost predicate Dropping(t0: Tree, m0: Mem, t: Tree, m: Mem, lo: nat, i: nat) {
    && WellTree(t0) && WellTree(t) && lo <= i && FromOn(t0, t, i) && LackLess(t0, t, lo, i)
    && (i <= CAPACITY ==> RefsLess(m0.ref, m.ref, t0, lo, i))
    && (i <= CAPACITY ==> Spare(m.free) + |LackIn(t0, lo, i)| == Spare(m0.free) + Freed(m0.ref, t0, lo, i))
  }

  lemma DroppingNone(t: Tree, m: Mem, lo: nat)
    requires WellTree(t)
    ensures Dropping(t, m, t, m, lo, lo)
  {
  }

  lemma {:induction false} LackInLast(t: Tree, lo: nat, i: nat)
    requires WellTree(t) && lo <= i
    ensures LackIn(t, lo, i + 1) == LackIn(t, lo, i) + LackOf(t, i)
    decreases i - lo
  {
    hide LackOf, WellTree;
    if lo < i { LackInLast(t, lo + 1, i); }
  }

  /** What the next page needs, on top of what has been needed so far. */
  lemma DroppingNext(t0: Tree, m0: Mem, t: Tree, m: Mem, lo: nat, i: nat)
    requires Dropping(t0, m0, t, m, lo, i) && i < CAPACITY
    ensures |LackIn(t0, lo, i + 1)| == |LackIn(t0, lo, i)| + |LackOf(t, i)|
    ensures |LackOf(t, i)| <= Spare(m.free) <==> |LackIn(t0, lo, i + 1)| <= Spare(m0.free) + Freed(m0.ref, t0, lo, i)
  {
    hide LackIn, WellTree, Freed, Spare, FromOn, RefsLess, LackOf;
    assert LackOf(t, i) == LackOf(t0, i) - LackIn(t0, lo, i);
    LackInLast(t0, lo, i);
    var a, b := LackIn(t0, lo, i), LackOf(t, i);
    assert LackIn(t0, lo, i + 1) == a + b && a !! b;
  }

  lemma DroppingStep(t0: Tree, m0: Mem, t: Tree, m: Mem, t': Tree, m': Mem, lo: nat, i: nat)
    requires Dropping(t0, m0, t, m, lo, i) && i < CAPACITY && WellTree(t') && OpenedTo(t, t', i)
    requires forall n :: 0 <= n < CAPACITY && n != i ==> Find(t', n) == Find(t, n)
    requires Spare(m'.free) == Spare(m.free) - |LackOf(t, i)| + LastRef(m.ref, Find(t, i).page)
    requires m'.ref == Unref(m.ref, Find(t, i).page)
    ensures Dropping(t0, m0, t', m', lo, i + 1)
  {
    hide WellTree, Find, LackOf, LackIn, OpenedTo, Spare, Freed, Names, LackLess, RefsLess, LastRef, Unref;
    assert Find(t, i) == Find(t0, i);
    DroppingNext(t0, m0, t, m, lo, i);
    LackLessMore(t0, t, t', lo, i);
    RefsLessMore(m0.ref, m.ref, t0, lo, i);
  }

  lemma LackLessMore(t0: Tree, t: Tree, t': Tree, lo: nat, i: nat)
    requires WellTree(t0) && WellTree(t) && WellTree(t') && LackLess(t0, t, lo, i) && lo <= i < CAPACITY
             && OpenedTo(t, t', i)
    ensures LackLess(t0, t', lo, i + 1)
  {
    hide WellTree, LackOf, LackIn, OpenedTo;
    LackInLast(t0, lo, i);
    forall n ensures LackOf(t', n) == LackOf(t0, n) - LackIn(t0, lo, i + 1) {
      LackShrinks(t, t', i, n);
      assert LackOf(t, n) == LackOf(t0, n) - LackIn(t0, lo, i) && LackOf(t, i) == LackOf(t0, i) - LackIn(t0, lo, i);
    }
  }

  lemma RefsLessMore(ref0: seq<int>, ref: seq<int>, t0: Tree, lo: nat, i: nat)
    requires WellTree(t0) && lo <= i < CAPACITY && RefsLess(ref0, ref, t0, lo, i)
    ensures var page := Find(t0, i).page;
            && RefsLess(ref0, Unref(ref, page), t0, lo, i + 1)
            && Freed(ref0, t0, lo, i + 1) == Freed(ref0, t0, lo, i) + LastRef(ref, page)
  {
    hide WellTree, Find;
  }

  class DArray {
    const k: Kernel
    const t: nat
    const esz: nat
    const pid: nat
    const demand: bool
    var nent: nat

    ghost predicate Valid()
      reads this, k
    {
      k.Valid() && t < |k.trees| && 1 <= esz <= PGSIZE && pid < |k.mem.free| && nent < U64
    }

    /** No page lies beyond the last element. */
    ghost predicate Exact()
      reads this, k
      requires Valid()
    {
      Fits(nent, PerPage(esz)) && TailEmpty(k.Shown()[t], Pages(nent, PerPage(esz)))
    }

    /** darray_init, over a page tree just initialised. */
    constructor (k: Kernel, t: nat, esz: nat, demand: bool, pid: nat)
      requires k.Valid() && t < |k.trees| && 1 <= esz <= PGSIZE && pid < |k.mem.free| && k.Shown()[t] == BlankImage()
      ensures Valid() && Exact() && nent == 0
      ensures this.k == k && this.t == t && this.esz == esz && this.demand == demand && this.pid == pid
    {
      hide Kernel.Valid, Kernel.Shown;
      this.k, this.t, this.esz, this.demand, this.pid, nent := k, t, esz, demand, pid, 0;
      new;
      NothingBeyond(PerPage(esz));
    }

    /** The indirect pages missing on the way to pages lo to hi. */
    ghost function Needed(lo: nat, hi: nat): nat
      reads this, k
      requires Valid()
    {
      |LackIn(k.trees[t], lo, hi)|
    }

    /** At every page from lo up to hi, what was free and what has been freed makes up for what is missing so far. */
    ghost predicate CanDrop(lo: nat, hi: nat)
      reads this, k
      requires Valid()
    {
      && (lo < hi ==> hi <= CAPACITY)
      && forall i :: lo <= i < hi && i < CAPACITY ==>
           Needed(lo, i + 1) <= Spare(k.mem.free) + Freed(k.mem.ref, k.trees[t], lo, i)
    }

    /** There are pages enough for pages lo to hi and the indirect pages on the way to them. */
    ghost predicate CanProvide(lo: nat, hi: nat)
      reads this, k
      requires Valid()
    {
      lo < hi ==> hi <= CAPACITY && hi - lo + Needed(lo, hi) <= Spare(k.mem.free)
    }

    /** None of these pages is there. */
    ghost predicate Bare(lo: nat, hi: nat)
      reads this, k
      requires Valid()
    {
      forall p :: lo <= p < hi && p < CAPACITY ==> k.Shown()[t][p] == Missing
    }

    /**
     The loops that put nothing in place of pages: one that shrinks, one that rolls back.
     Reaching an entry to empty it may take indirect pages; it panics exactly when at some
     entry there are not enough pages for them, those already dropped included.
     */
    method DropPages(lo: nat, hi: nat) returns (r: Outcome)
      requires Valid()
      modifies k
      ensures Valid() && |k.trees| == old(|k.trees|) && Shape(k.mem) == old(Shape(k.mem))
      ensures r == if old(CanDrop(lo, hi)) then Ok else Panic
      ensures r == Ok ==> Emptied(old(k.Shown()), k.Shown(), t, lo, hi)
      ensures lo >= hi ==> r == Ok && k.mem == old(k.mem) && k.trees == old(k.trees)
    {
      hide Kernel.Valid, Kernel.Shown, Emptied, Find, Spare, LackIn, LackOf, OpenedTo, WellTree, Freed, Dropping;
      TreeWell(k, t);
      ghost var a, t0, m0 := k.Shown(), k.trees[t], k.mem;
      EmptiedNone(a, t, lo);
      DroppingNone(t0, m0, lo);
      var i := lo;
      while i < hi
        invariant lo <= i && (if lo < hi then i <= hi else i == lo) && (i > lo ==> i <= CAPACITY)
        invariant Valid() && |k.trees| == old(|k.trees|) && Shape(k.mem) == old(Shape(k.mem))
        invariant Emptied(a, k.Shown(), t, lo, i) && Dropping(t0, m0, k.trees[t], k.mem, lo, i)
        invariant forall j :: lo <= j < i ==> |LackIn(t0, lo, j + 1)| <= Spare(m0.free) + Freed(m0.ref, t0, lo, j)
        invariant i == lo ==> k.mem == old(k.mem) && k.trees == old(k.trees)
      {
        ghost var b, was, m := k.Shown(), k.trees[t], k.mem;
        TreeWell(k, t);
        if i < CAPACITY {
          DroppingNext(t0, m0, was, m, lo, i);
        }
        r := k.Put(t, i, Nil);
        if r != Ok {
          return Panic;
        }
        TreeWell(k, t);
        DroppingStep(t0, m0, was, m, k.trees[t], k.mem, lo, i);
        EmptiedStep(a, b, k.Shown(), t, lo, i);
        i := i + 1;
      }
      EmptiedSame(a, k.Shown(), t, lo, i, hi);
      r := Ok;
    }

    /**
     The loop that allocates pages, with its rollback, whose assertion never fires.  Where no
     page is there yet, it succeeds exactly when there is memory for the pages and the way to them.
     */
    method ProvidePages(lo: nat, hi: nat, clear: bool) returns (r: Outcome)
      requires Valid()
      modifies k
      ensures Valid() && |k.trees| == old(|k.trees|) && Shape(k.mem) == old(Shape(k.mem))
      ensures r == Ok ==> Provided(old(k.Shown()), k.Shown(), t, lo, hi, clear)
      ensures r != Ok ==> exists upto :: lo <= upto < hi && Emptied(old(k.Shown()), k.Shown(), t, lo, upto)
      ensures r != Ok ==> r == NoMem || (r == NoSpace && hi > CAPACITY)
      ensures old(CanProvide(lo, hi)) ==> r == Ok
      ensures old(Bare(lo, hi)) ==> (r == Ok <==> old(CanProvide(lo, hi)))
    {
      hide Kernel.Valid, Kernel.Shown, Emptied, Provided, Find, Spare, LackIn, LackOf, OpenedTo, WellTree, Settings;
      ghost var a, spare, need := k.Shown(), Spare(k.mem.free), Needed(lo, hi);
      ProvidedNone(a, t, lo, clear);
      var i := lo;
      while i < hi
        invariant lo <= i && (if lo < hi then i <= hi else i == lo) && (i > lo ==> i <= CAPACITY)
        invariant Valid() && |k.trees| == old(|k.trees|) && Shape(k.mem) == old(Shape(k.mem))
        invariant Provided(a, k.Shown(), t, lo, i, clear)
        invariant Spare(k.mem.free) + need + i - lo >= spare + Needed(i, hi)
        invariant old(Bare(lo, hi)) ==> Spare(k.mem.free) + need + i - lo == spare + Needed(i, hi)
      {
        ghost var b, was := k.Shown(), k.trees[t];
        NotYet(a, b, t, lo, i, clear);
        TreeWell(k, t);
        if i < CAPACITY {
          ShownNil(k, t, i);
        }
        var ok, p := k.Alloc(pid);
        r := NoMem;
        if ok {
          r := k.Put(t, i, At(p));
          if r != Ok {
            k.FreePage(p);
          }
        }
        if r == Ok {
          LackInStep(was, k.trees[t], i, hi);
        } else {
          LackFirst(was, i, hi);
        }
        if r != Ok {
          ProvidedThere(a, b, t, lo, i, clear);
          PresentDrops(this, lo, i);
          var rollback := DropPages(lo, i);
          assert rollback == Ok;
          ProvidedThenEmptied(a, b, k.Shown(), t, lo, i, clear);
          return;
        }
        if clear {
          SetTwice(b, t, i, View(k.mem, Entry(At(p), Excl)), Bytes(Zeroes()));
          k.Overwrite(t, i, seq(PGSIZE, _ => 0));
          ProvidedStep(a, b, k.Shown(), t, lo, i, Bytes(Zeroes()), clear);
        } else {
          ProvidedStep(a, b, k.Shown(), t, lo, i, View(k.mem, Entry(At(p), Excl)), clear);
        }
        i := i + 1;
      }
      NothingLacks(k, t, i, hi);
      ProvidedSame(a, k.Shown(), t, lo, i, hi, clear);
      r := Ok;
    }

    /**
     darray_set_nent_internal.  Growing fails without a trace; shrinking panics when an
     entry to be emptied cannot be reached.
     */
    method SetNent(n: nat, clear: bool) returns (r: Outcome)
      requires Valid() && n < U64
      modifies this, k
      ensures Valid() && |k.trees| == old(|k.trees|) && Shape(k.mem) == old(Shape(k.mem))
      ensures r == Ok ==> nent == n && Resized(old(k.Shown()), k.Shown(), t, Pages(old(nent), PerPage(esz)),
              Pages(n, PerPage(esz)), demand, clear)
      ensures r != Ok ==> nent == old(nent)
      ensures old(Exact()) && r != Panic && Fits(n, PerPage(esz)) ==> Exact()
      ensures old(Exact()) && (r == NoMem || r == NoSpace) ==> k.Shown() == old(k.Shown())
      ensures r == NoMem || r == NoSpace ==> Pages(n, PerPage(esz)) > Pages(old(nent), PerPage(esz)) && !demand
      ensures r == NoSpace ==> Pages(n, PerPage(esz)) > CAPACITY
      ensures r == Panic <==> !old(CanDrop(Pages(n, PerPage(esz)), Pages(nent, PerPage(esz))))
      ensures old(Exact()) && !demand && Pages(n, PerPage(esz)) > Pages(old(nent), PerPage(esz)) ==>
                (r == Ok <==> old(CanProvide(Pages(nent, PerPage(esz)), Pages(n, PerPage(esz)))))
      ensures Pages(n, PerPage(esz)) >= Pages(old(nent), PerPage(esz)) && demand ==>
                r == Ok && k.mem == old(k.mem) && k.trees == old(k.trees)
      ensures r != Inval && r != Fault
    {
      hide Kernel.Valid, Kernel.Shown, Pages, Emptied, Provided, Resized, CanDrop;
      ghost var a := k.Shown();
      var pp := PerPage(esz);
      var curnpg, npg := Pages(nent, pp), Pages(n, pp);
      r := DropPages(npg, curnpg);
      if r != Ok {
        return;
      }
      ghost var b := k.Shown();
      EmptiedNothing(a, b, t, npg, curnpg);
      if !demand {
        r := ProvidePages(curnpg, npg, clear);
        if r != Ok {
          ghost var upto :| curnpg <= upto < npg && Emptied(b, k.Shown(), t, curnpg, upto);
          RolledBack(a, b, k.Shown(), t, curnpg, npg, upto);
          return;
        }
      }
      ResizedBy(a, b, k.Shown(), t, curnpg, npg, demand, clear);
      nent := n;
    }

    /** darray_grow_nent. */
    method GrowNent(n: nat) returns (r: Outcome)
      requires Valid() && n < U64
      modifies this, k
      ensures Valid() && |k.trees| == old(|k.trees|) && Shape(k.mem) == old(Shape(k.mem))
      ensures r == Ok ==> nent == if n <= old(nent) then old(nent) else n
      ensures r == Ok && n > old(nent) ==>
                Resized(old(k.Shown()), k.Shown(), t, Pages(old(nent), PerPage(esz)), Pages(n, PerPage(esz)), demand,
                  true)
      ensures r != Ok ==> nent == old(nent)
      ensures old(Exact()) && r != Panic && Fits(n, PerPage(esz)) ==> Exact()
      ensures old(Exact()) && (n <= old(nent) || (r != Ok && r != Panic)) ==> k.Shown() == old(k.Shown())
    {
      hide Kernel.Valid, Kernel.Shown, Pages, Exact, Resized;
      if n <= nent {
        return Ok;
      }
      r := SetNent(n, true);
    }

    /** darray_get: the page and the offset in it of element i. */
    method Get(i: nat, mode: Mode) returns (r: Outcome, page: PagePtr, off: nat)
      requires Valid()
      modifies k
      ensures Valid() && |k.trees| == old(|k.trees|) && Shape(k.mem) == old(Shape(k.mem))
      ensures r == Inval <==> i >= nent
      ensures r == Ok ==>
              PageOf(i, esz) < CAPACITY && page == Find(k.trees[t], PageOf(i, esz)).page && off == Offset(i, esz)
      ensures r == Ok ==>
              k.Shown() == old(k.Shown())[t := old(k.Shown())[t][PageOf(i, esz) := View(k.mem, Entry(page, Excl))]]
      ensures r != Ok ==> k.Shown() == old(k.Shown())
      ensures old(Exact()) ==> Exact()
    {
      hide Kernel.Valid, Kernel.Shown, Find, Stale, TailEmpty, Pages, Offset, PageOf, PerPage;
      page, off := Nil, 0;
      if i >= nent {
        return Inval, page, off;
      }
      ghost var a := k.Shown();
      PageOfElement(i, nent, esz);
      r, page := k.Get(t, PageOf(i, esz), mode);
      TailKept(a[t], PageOf(i, esz), View(k.mem, Entry(page, Excl)), Pages(nent, PerPage(esz)));
      off := Offset(i, esz);
    }

    /** darray_copy. */
    method CopyTo(dst: DArray, mode: Mode) returns (r: Outcome)
      requires Valid() && dst.Valid() && k == dst.k && t != dst.t && mode != Unset
      modifies k, dst
      ensures Valid() && dst.Valid() && |k.trees| == old(|k.trees|) && Shape(k.mem) == old(Shape(k.mem))
      ensures r == Inval <==> old(dst.nent) != 0 || nent == 0
      ensures r == Inval ==> k.Shown() == old(k.Shown()) && dst.nent == old(dst.nent)
      ensures r == Ok ==> dst.nent == nent && k.Shown() == old(k.Shown())[dst.t := old(k.Shown())[t]]
      ensures r != Inval && r != Ok ==>
              r == NoMem && dst.nent == 0 && k.Shown() == old(k.Shown())[dst.t := BlankImage()]
      ensures r == Ok && old(Exact()) ==> Exact() && (dst.esz == esz ==> dst.Exact())
      ensures r == Ok ==> Copied(old(k.trees[t]), k.trees[t], k.trees[dst.t], mode)
      ensures r != Inval ==>
                (r == Ok <==> old(CopyCost(k.trees[t], mode) <= |Unclaimed(k.mem,
                  Ledger(Without(k.trees, dst.t), k.loose))|))
      ensures old(Blank(k.trees[dst.t])) && r != Inval ==>
                (r == Ok <==> old(CopyCost(k.trees[t], mode) <= Spare(k.mem.free)))
    {
      hide Kernel.Valid, Kernel.Shown, Find, Pages, CopyCost, Spare, Blank, TreeCopiedAs, Unclaimed, Ledger;
      if dst.nent != 0 || nent == 0 {
        return Inval;
      }
      var ok := k.Copy(t, dst.t, mode);
      if !ok {
        return NoMem;
      }
      dst.nent := nent;
      r := Ok;
    }
  }

  /** Every entry has been copied as the mode says. */
  ghost predicate Copied(src: Tree, src': Tree, dst: Tree, mode: Mode) {
    WellTree(src) && WellTree(src') && WellTree(dst) && TreeCopiedAs(src, src', dst, mode)
  }

  lemma NothingBeyond(pp: nat)
    requires 1 <= pp <= PGSIZE
    ensures Fits(0, pp) && TailEmpty(BlankImage(), Pages(0, pp))
  {
  }

  lemma TreeWell(k: Kernel, t: nat)
    requires k.Valid() && t < |k.trees|
    ensures WellTree(k.trees[t])
  {
  }

  /** The first page needs no more than all of them. */
  lemma LackFirst(t: Tree, lo: nat, hi: nat)
    requires WellTree(t) && lo < hi
    ensures |LackOf(t, lo)| <= |LackIn(t, lo, hi)|
  {
    SubsetSize(LackOf(t, lo), LackIn(t, lo, hi));
  }

  lemma {:induction false} SubsetSize<T>(a: set<T>, b: set<T>)
    requires a <= b
    ensures |a| <= |b|
  {
    assert b == a + (b - a);
  }

  lemma {:induction false} LackInMore(t: Tree, lo: nat, i: nat, hi: nat)
    requires WellTree(t) && lo <= i <= hi
    ensures |LackIn(t, lo, i)| <= |LackIn(t, lo, hi)|
    decreases hi - i
  {
    hide LackOf, LackIn, WellTree;
    if i < hi {
      LackInLast(t, lo, i);
      SubsetSize(LackIn(t, lo, i), LackIn(t, lo, i + 1));
      LackInMore(t, lo, i + 1, hi);
    }
  }

  /** With memory for all that is missing, dropping succeeds. */
  lemma EnoughDrops(a: DArray, lo: nat, hi: nat)
    requires a.Valid() && hi <= CAPACITY && a.Needed(lo, hi) <= Spare(a.k.mem.free)
    ensures a.CanDrop(lo, hi)
  {
    hide Spare, LackIn, Freed;
    var m, tree := a.k.mem, a.k.trees[a.t];
    forall i | lo <= i < hi ensures a.Needed(lo, i + 1) <= Spare(m.free) + Freed(m.ref, tree, lo, i) {
      LackInMore(tree, lo, i + 1, hi);
    }
  }

  /** Where no page is there, dropping succeeds exactly with memory for all that is missing. */
  lemma BareDrops(a: DArray, lo: nat, hi: nat)
    requires a.Valid() && lo < hi <= CAPACITY && a.Bare(lo, hi)
    ensures a.CanDrop(lo, hi) <==> a.Needed(lo, hi) <= Spare(a.k.mem.free)
  {
    hide Spare, LackIn, Kernel.Shown;
    if a.Needed(lo, hi) <= Spare(a.k.mem.free) {
      EnoughDrops(a, lo, hi);
    }
    BareFrees(a, lo, hi, hi - 1);
    assert a.Needed(lo, hi - 1 + 1) == a.Needed(lo, hi);
  }

  lemma {:induction false} BareFrees(a: DArray, lo: nat, hi: nat, i: nat)
    requires a.Valid() && lo <= i <= hi <= CAPACITY && a.Bare(lo, hi)
    ensures Freed(a.k.mem.ref, a.k.trees[a.t], lo, i) == 0
  {
    hide Kernel.Shown, WellTree, Find, MemOk, Ledger, Names;
    if lo < i {
      BareFrees(a, lo, hi, i - 1);
      assert a.k.Shown()[a.t][i - 1] == Missing;
      ShownNil(a.k, a.t, i - 1);
    }
  }

  lemma ShownNil(k: Kernel, t: nat, n: nat)
    requires k.Valid() && t < |k.trees| && n < CAPACITY
    ensures k.Shown()[t][n] == Missing ==> Find(k.trees[t], n).page.Nil?
    ensures k.Shown()[t][n] != Missing ==> LackOf(k.trees[t], n) == {}
  {
    hide WellTree, Find, MemOk, Ledger, LackOf;
    ShownReaches(k.mem, k.trees, t, n, k.loose);
  }

  /** Pages that are there can be dropped. */
  lemma PresentDrops(a: DArray, lo: nat, hi: nat)
    requires a.Valid() && (lo < hi ==> hi <= CAPACITY)
    requires forall p :: lo <= p < hi && p < CAPACITY ==> a.k.Shown()[a.t][p] != Missing
    ensures a.CanDrop(lo, hi)
  {
    hide Spare, LackIn, Freed, Kernel.Shown;
    if lo < hi {
      PresentLacks(a, lo, hi);
      EnoughDrops(a, lo, hi);
    }
  }

  lemma {:induction false} PresentLacks(a: DArray, lo: nat, hi: nat)
    requires a.Valid() && hi <= CAPACITY && forall p :: lo <= p < hi ==> a.k.Shown()[a.t][p] != Missing
    ensures a.Needed(lo, hi) == 0
    decreases hi - lo
  {
    hide Kernel.Shown, Kernel.Valid, LackOf;
    TreeWell(a.k, a.t);
    if lo < hi {
      PresentLacks(a, lo + 1, hi);
      ShownNil(a.k, a.t, lo);
      assert LackIn(a.k.trees[a.t], lo + 1, hi) == {};
    }
  }

  lemma NothingLacks(k: Kernel, t: nat, i: nat, hi: nat)
    requires k.Valid() && t < |k.trees| && i >= hi
    ensures WellTree(k.trees[t]) && LackIn(k.trees[t], i, hi) == {}
  {
  }

  lemma TailKept(im: Image, n: nat, c: Contents, from: nat)
    ensures n < |im| && n < from && TailEmpty(im, from) ==> TailEmpty(im[n := c], from)
  {
  }

  lemma PageOfElement(i: nat, n: nat, esz: nat)
    requires i < n < U64 && 1 <= esz <= PGSIZE
    ensures Fits(n, PerPage(esz)) ==> PageOf(i, esz) < Pages(n, PerPage(esz))
  {
    if Fits(n, PerPage(esz)) { ElementInside(i, n, PerPage(esz)); }
  }

  // Segments: arrays of whole pages, on demand.

  /** segment_copy: a fresh segment that shows what the original shows. */
  method SegmentCopy(src: DArray, mode: Mode, pid: nat) returns (r: Outcome, dst: DArray?)
    requires src.Valid() && pid < |src.k.mem.free|
    modifies src.k
    ensures src.Valid()
    ensures mode == Unset ==> r == Inval && src.k.Shown() == old(src.k.Shown())
    ensures r == Ok ==> dst != null && fresh(dst) && dst.k == src.k && dst.Valid() && dst.nent == src.nent
    ensures r == Ok ==> src.k.Shown() == old(src.k.Shown()) + [old(src.k.Shown())[src.t]] && dst.t == old(|src.k.trees|)
    ensures r != Ok && mode != Unset ==> src.k.Shown() == old(src.k.Shown()) + [BlankImage()]
    ensures mode != Unset ==>
              (r == Ok <==> src.nent > 0 && old(CopyCost(src.k.trees[src.t], mode) <= Spare(src.k.mem.free)))
    ensures r == Ok ==> Copied(old(src.k.trees[src.t]), src.k.trees[src.t], src.k.trees[dst.t], mode)
  {
    hide Kernel.Valid, Kernel.Shown, CopyCost, Spare, Blank, Copied;
    dst := null;
    if mode == Unset {
      return Inval, dst;
    }
    ghost var a := src.k.Shown();
    var t := src.k.NewTree(true, pid);
    var d := new DArray(src.k, t, PGSIZE, true, pid);
    r := src.CopyTo(d, mode);
    assert (a + [BlankImage()])[t := a[src.t]] == a + [a[src.t]];
    assert (a + [BlankImage()])[t := BlankImage()] == a + [BlankImage()];
    if r == Ok {
      dst := d;
    }
  }

  /** Shrinking can panic: a demand array of ten pages, none of them there, when memory is exhausted. */
  method ShrinkPanics() returns (r: Outcome)
    ensures r == Panic
  {
    hide Kernel.Valid, Kernel.Shown, Spare, LackIn, LackOf, Find, WellTree, TailEmpty, Emptied, Pages;
    var k := new Kernel([0], 1, [[]]);
    var t := k.NewTree(true, 0);
    var a := new DArray(k, t, PGSIZE, true, 0);
    PagesOfPages(0);
    PagesOfPages(10);
    r := a.SetNent(10, false);
    BlankLacks(k, t);
    assert k.Shown()[t] == BlankImage();
    BareDrops(a, 0, 10);
    r := a.SetNent(0, false);
  }

  lemma PagesOfPages(n: nat)
    requires n <= 10
    ensures PerPage(PGSIZE) == 1 && Pages(n, PerPage(PGSIZE)) == n
  {
    RoundedDiv(n, 1);
  }

  lemma BlankLacks(k: Kernel, t: nat)
    requires k.Valid() && t < |k.trees| && Blank(k.trees[t])
    ensures WellTree(k.trees[t]) && |LackIn(k.trees[t], 0, 10)| > 0
  {
    LackHas(k.trees[t], 0, 10, DIRECT);
    var x := NodePos(TreeOf(DIRECT, 0), []);
    LackMember(k.trees[t], DIRECT, x);
    assert AbsentAt(k.trees[t].indir[x.tree], []);
    assert x in LackIn(k.trees[t], 0, 10);
  }

  lemma {:induction false} LackHas(t: Tree, lo: nat, hi: nat, n: nat)
    requires WellTree(t) && lo <= n < hi
    ensures LackOf(t, n) <= LackIn(t, lo, hi)
    decreases hi - lo
  {
    hide LackOf;
    if lo < n { LackHas(t, lo + 1, hi, n); }
  }

  /** segment_set_nbytes: afterwards the segment holds the bytes asked for, exactly when the rounding does not wrap. */
  method SegmentSetBytes(sg: DArray, bytes: nat) returns (r: Outcome)
    requires sg.Valid() && sg.esz == PGSIZE && bytes < U64
    modifies sg, sg.k
    ensures sg.Valid() && (r != Ok ==> sg.nent == old(sg.nent))
    ensures r == Ok ==> (sg.nent * PGSIZE >= bytes <==> bytes == 0 || Fits(bytes, PGSIZE))
    ensures r == Ok && Fits(bytes, PGSIZE) ==> sg.nent * PGSIZE < bytes + PGSIZE
    ensures old(sg.Exact()) && r != Panic ==> sg.Exact()
    ensures r == Panic <==> !old(sg.CanDrop(Pages(bytes, PGSIZE), sg.nent))
    ensures r == Ok && sg.nent != old(sg.nent) ==>
              Resized(old(sg.k.Shown()), sg.k.Shown(), sg.t, old(sg.nent), Pages(bytes, PGSIZE), sg.demand, false)
    ensures sg.demand && r != Ok ==> r == Panic
  {
    hide Kernel.Valid, Kernel.Shown, Resized, TailEmpty;
    var npages := Pages(bytes, PGSIZE);
    if bytes > 0 {
      PagesExact(bytes, PGSIZE);
    }
    PagesSmall(bytes);
    WholePages(sg.nent);
    WholePages(npages);
    r := Ok;
    if sg.nent != npages {
      r := sg.SetNent(npages, false);
    }
  }

  lemma WholePages(n: nat)
    requires n < U64
    ensures Pages(n, PerPage(PGSIZE)) == n
  {
    assert PerPage(PGSIZE) == 1;
    RoundedDiv(n, 1);
  }

  lemma PagesSmall(bytes: nat)
    requires bytes < U64
    ensures Pages(bytes, PGSIZE) < U64 && PerPage(PGSIZE) == 1 && Fits(Pages(bytes, PGSIZE), 1)
    ensures Pages(0, PGSIZE) == 0
  {
    RoundedDiv((bytes + PGSIZE - 1) % U64, PGSIZE);
  }

  lemma EmptiedNone(a: seq<Image>, t: nat, lo: nat)
    requires t < |a| && |a[t]| == CAPACITY
    ensures Emptied(a, a, t, lo, lo)
  {
  }

  lemma EmptiedNothing(a: seq<Image>, b: seq<Image>, t: nat, lo: nat, hi: nat)
    requires Emptied(a, b, t, lo, hi)
    ensures lo >= hi ==> b == a
  {
    assert lo >= hi ==> b[t] == a[t];
  }

  lemma EmptiedSame(a: seq<Image>, b: seq<Image>, t: nat, lo: nat, i: nat, hi: nat)
    requires Emptied(a, b, t, lo, i) && lo <= i && (if lo < hi then i == hi else i == lo)
    ensures Emptied(a, b, t, lo, hi)
  {
  }

  lemma ProvidedNone(a: seq<Image>, t: nat, lo: nat, clear: bool)
    requires t < |a| && |a[t]| == CAPACITY
    ensures Provided(a, a, t, lo, lo, clear)
  {
  }

  lemma NotYet(a: seq<Image>, b: seq<Image>, t: nat, lo: nat, i: nat, clear: bool)
    requires Provided(a, b, t, lo, i, clear) && lo <= i
    ensures Within(a, b, t) && (i < CAPACITY ==> b[t][i] == a[t][i])
  {
  }

  lemma ProvidedThere(a: seq<Image>, b: seq<Image>, t: nat, lo: nat, i: nat, clear: bool)
    requires Provided(a, b, t, lo, i, clear)
    ensures Within(a, b, t) && (lo < i ==> i <= CAPACITY) && forall p :: lo <= p < i && p < CAPACITY ==>
            b[t][p] != Missing
  {
  }

  lemma ProvidedSame(a: seq<Image>, b: seq<Image>, t: nat, lo: nat, i: nat, hi: nat, clear: bool)
    requires Provided(a, b, t, lo, i, clear) && lo <= i && (if lo < hi then i == hi else i == lo)
    ensures Provided(a, b, t, lo, hi, clear)
  {
  }
}
