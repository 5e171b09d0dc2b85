/**
 kern/kern/pagetree.c, entry by entry: fetching a page for reading or writing, replacing
 it, and copying an entry in one of the three sharing modes.  Every operation is proved
 against the books with an arbitrary rest of the system (base) added.
 */
module PageEntries {
  import opened PageMemory
  import opened PageIndex
  import opened PageTree

  datatype Outcome = Ok | NoMem | NoSpace | Inval | Fault | Panic

  datatype Contents = Missing | Bytes(d: Data)

  /** What an entry shows. */
  ghost function View(m: Mem, e: Entry): Contents {
    match e.page
    case Nil => Missing
    case At(p) => if p < |m.bytes| then Bytes(m.bytes[p]) else Missing
  }

  ghost predicate SameShape(m: Mem, m': Mem) {
    m'.nodeOf == m.nodeOf && |m'.free| == |m.free| && m'.hw == m.hw && |m'.freeFlag| == |m.freeFlag|
      && |m'.bytes| == |m.bytes|
  }

  /** Pages in use keep their contents. */
  ghost predicate KeepsBytes(m: Mem, m': Mem) {
    && SameShape(m, m') && |m.freeFlag| == |m.bytes|
    && forall q :: 0 <= q < |m.bytes| && !m.freeFlag[q] ==> m'.bytes[q] == m.bytes[q]
  }

  /** Nothing in use is freed or written. */
  ghost predicate Grew(m: Mem, m': Mem) {
    KeepsBytes(m, m') && forall q :: 0 <= q < |m.freeFlag| && !m.freeFlag[q] ==> !m'.freeFlag[q]
  }

  ghost predicate BaseOk(b: Books) {
    b.excl <= b.named
  }

  /** Memory is exhausted: every free list is empty. */
  ghost predicate Exhausted(m: Mem) {
    forall k :: 0 <= k < |m.free| ==> m.free[k] == []
  }

  lemma ExhaustedMeans(m: Mem)
    ensures Exhausted(m) <==> Spare(m.free) == 0
  {
    SpareZero(m.free);
  }

  /** A named page is not free. */
  lemma NamedNotFree(m: Mem, b: Books, p: Page)
    requires MemOk(m, b) && p in b.named
    ensures Sized(m) && p < |m.bytes| && !m.freeFlag[p]
  {
    hide ListsOk;
    assert PageOk(m, b, p);
  }

  lemma MemSized(m: Mem, b: Books)
    requires MemOk(m, b)
    ensures Sized(m)
  {
  }

  // How the books move, as equations.

  lemma BooksNamed(base: Books, t: Tally, p: Page)
    requires p !in base.loose
    ensures var b := With(base, t);
            var b1 := b.(loose := b.loose + {p});
            b1.(named := b1.named + multiset{p}, excl := b1.excl + multiset{p}, loose := b1.loose - {p})
            == With(base, Add(t, OfEntry(Entry(At(p), Excl))))
  {
    assert base.loose + {p} - {p} == base.loose;
  }

  lemma BooksUnnamed(base: Books, e: Entry, t: Tally)
    requires e.page.At? && BaseOk(base) && Sub(t)
    ensures var b := With(base, Add(OfEntry(e), t));
            && e.page.p in b.named
            && With(base, t).excl <= b.excl && With(base, t).excl <= b.named - multiset{e.page.p}
            && b.(named := b.named - multiset{e.page.p}, excl := With(base, t).excl) == With(base, t)
  {
    var b := With(base, Add(OfEntry(e), t));
    assert b.named - multiset{e.page.p} == base.named + t.named;
  }

  lemma BooksShared(base: Books, p: Page, was: Mode, mode: Mode)
    requires mode == Cow || mode == Cor
    ensures var b := With(base, OfEntry(Entry(At(p), was)));
            && p in b.named && base.excl <= b.excl
            && b.(named := b.named + multiset{p}, excl := base.excl)
               == With(base, Add(OfEntry(Entry(At(p), Cow)), OfEntry(Entry(At(p), mode))))
  {
  }

  lemma AddNone(t: Tally)
    ensures Add(t, NONE) == t && Add(NONE, t) == t
  {
  }

  lemma WithNone(base: Books)
    ensures With(base, NONE) == base
  {
  }

  method AllocPage(m: Mem, cpu: nat, ghost b: Books) returns (ok: bool, p: Page, m': Mem)
    requires MemOk(m, b) && cpu < |m.free|
    ensures ok ==> Sized(m) && p < |m.bytes| && m.freeFlag[p] && p !in b.named && p !in b.frames && p !in b.loose
    ensures ok ==> MemOk(m', b.(loose := b.loose + {p})) && Grew(m, m') && m'.bytes == m.bytes
    ensures !ok <==> Exhausted(m)
    ensures !ok <==> Spare(m.free) == 0
    ensures !ok ==> m' == m
    ensures ok ==> Spare(m'.free) == Spare(m.free) - 1 && m'.ref == m.ref
    ensures Sized(m) && (ok ==> Sized(m'))
  {
    ghost var d;
    var k;
    ok, p, m', k, d := PageAlloc(m, cpu);
    ExhaustedMeans(m);
    if ok {
      AllocOk(m, k, b);
      TakenSpare(m, k);
    }
  }

  /** The counts with one reference to the page fewer. */
  function Unref(ref: seq<int>, page: PagePtr): seq<int> {
    if page.At? && page.p < |ref| then ref[page.p := ref[page.p] - 1] else ref
  }

  /** One page is freed if this is the last reference to it. */
  function LastRef(ref: seq<int>, page: PagePtr): nat {
    if page.At? && page.p < |ref| && ref[page.p] == 1 then 1 else 0
  }

  /** pagetree_copy_page: gives a shared entry its own copy. */
  method CopyPage(m: Mem, e: Entry, cpu: nat, ghost base: Books) returns (ok: bool, m': Mem, e': Entry)
    requires MemOk(m, With(base, OfEntry(e))) && BaseOk(base) && cpu < |m.free|
    requires e.page.At? && Shared(e.mode)
    ensures MemOk(m', With(base, OfEntry(e'))) && KeepsBytes(m, m') && View(m', e') == View(m, e)
    ensures ok ==> e'.page.At? && e'.page != e.page && e'.mode == Excl
    ensures ok <==> !Exhausted(m)
    ensures ok ==> Spare(m'.free) == Spare(m.free) - 1 + LastRef(m.ref, e.page)
    ensures !ok ==> m' == m && e' == e
  {
    hide MemOk, With, OfEntry, Sub, Spare;
    EntryNamed(base, e);
    ghost var b := With(base, OfEntry(e));
    NamedNotFree(m, b, e.page.p);
    var p;
    ok, p, m' := AllocPage(m, cpu, b);
    if !ok {
      return false, m, e;
    }
    ghost var b1 := b.(loose := b.loose + {p});
    e' := Entry(At(p), Excl);
    WriteOk(m', p, m'.bytes[e.page.p], b1);
    m' := Write(m', p, m'.bytes[e.page.p]);
    NameLooseOk(m', p, b1);
    m' := Incref(m', p);
    BooksNamed(base, OfEntry(e), p);
    BooksUnnamed(base, e, OfEntry(e'));
    DecrefOk(m', e.page.p, With(base, Add(OfEntry(e), OfEntry(e'))), With(base, OfEntry(e')).excl);
    DecrefSpare(m', e.page.p);
    m' := Decref(m', e.page.p);
  }

  lemma EntryNamed(base: Books, e: Entry)
    requires e.page.At?
    ensures e.page.p in With(base, OfEntry(e)).named && Sub(OfEntry(e)) && base.loose == With(base, OfEntry(e)).loose
    ensures forall q :: Sub(OfEntry(Entry(At(q), Excl)))
  {
  }

  lemma WithLoose(base: Books, t: Tally)
    ensures With(base, t).loose == base.loose
  {
  }

  /** A copy-on-read entry is copied on any fetch, a copy-on-write entry on a fetch for writing. */
  predicate Copies(e: Entry, mode: Mode) {
    e.mode == Cor || (e.mode == Cow && mode == Cow)
  }

  /** An empty entry whose sharing mode outlived its page: copying it reads through a null pointer. */
  predicate Stale(e: Entry, mode: Mode) {
    e.page.Nil? && mode != Excl && Copies(e, mode)
  }

  /** The pages that a fetch takes from the free lists, on balance: a copy may free the page it copies. */
  function Takes(e: Entry, mode: Mode, demand: bool, last: nat): int {
    if e.page.At? then (if Copies(e, mode) then 1 - last else 0) else if demand then 1 else 0
  }

  /** What a fetch makes of an entry: a copy of its own, a demand page, or no change. */
  ghost predicate EntryFetched(e: Entry, e': Entry, mode: Mode, demand: bool) {
    if e.page.At? then (if Copies(e, mode) then e'.page.At? && e'.page != e.page && e'.mode == Excl else e' == e)
    else if demand then e'.page.At? && e'.mode == Excl
    else e' == e
  }

  /** pagetree_get_page, once the entry is found; a failed assertion is a panic. */
  method GetEntry(m: Mem, e: Entry, mode: Mode, demand: bool, cpu: nat, ghost base: Books)
    returns (r: Outcome, m': Mem, e': Entry)
    requires MemOk(m, With(base, OfEntry(e))) && BaseOk(base) && DirectOk(e) && cpu < |m.free|
    ensures MemOk(m', With(base, OfEntry(e'))) && KeepsBytes(m, m') && DirectOk(e') && (EntryOk(e) ==> EntryOk(e'))
    ensures e.page.At? ==> View(m', e') == View(m, e)
    ensures r == Ok ==> EntryFetched(e, e', mode, demand) && e'.mode != Cor
    ensures r == Ok && mode == Cow && e'.page.At? ==> e'.mode == Excl
    ensures r == Ok ==> Spare(m'.free) == Spare(m.free) - Takes(e, mode, demand, LastRef(m.ref, e.page))
    ensures r == Ok && e.page.At? && !Copies(e, mode) ==> m' == m
    ensures r == Fault <==> Stale(e, mode) && !Exhausted(m)
    ensures r == Panic <==>
            (Shared(e.mode) && mode == Excl) || (demand && e.page.Nil? && !Stale(e, mode) && Exhausted(m))
    ensures r == NoMem <==> Exhausted(m) && Copies(e, mode) && mode != Excl
    ensures r == Ok || r == Panic ==> !Stale(e, mode)
    ensures r != Ok ==> m' == m && e' == e
    ensures r != NoSpace && r != Inval
  {
    hide MemOk, With, Spare;
    MemSized(m, With(base, OfEntry(e)));
    m', e' := m, e;
    if Shared(e.mode) && mode == Excl {
      return Panic, m, e;
    }
    if Copies(e, mode) {
      if e.page.Nil? {
        // the copy would read through a null page pointer
        var ok, _, _ := AllocPage(m, cpu, With(base, OfEntry(e)));
        return if ok then Fault else NoMem, m, e;
      }
      var ok;
      ok, m', e' := CopyPage(m, e, cpu, base);
      if !ok {
        return NoMem, m, e;
      }
    }
    if e'.page.Nil? && demand {
      ghost var b := With(base, OfEntry(e));
      var ok, p;
      ok, p, m' := AllocPage(m, cpu, b);
      if !ok {
        return Panic, m, e;
      }
      NameLooseOk(m', p, b.(loose := b.loose + {p}));
      m' := Incref(m', p);
      e' := Entry(At(p), Excl);
      WithLoose(base, NONE);
      BooksNamed(base, NONE, p);
      AddNone(OfEntry(e'));
    }
    return Ok, m', e';
  }

  /** The page goes back into the one entry that names it, while a pin keeps it alive. */
  ghost predicate PutsBack(m: Mem, b: Books, e: Entry, page: PagePtr) {
    page.At? && e.page == page && b.named[page.p] == 1 && page.p < |m.hw| && m.hw[page.p] > 0
  }

  /** A page that was handed out, or none. */
  ghost predicate Handed(loose: set<Page>, page: PagePtr) {
    page.At? ==> page.p in loose
  }

  /**
   Putting a page that some entry names already keeps the books only when it goes back
   into the one entry that names it while a pin keeps it alive.
   */
  lemma PutNamedPage(m: Mem, e: Entry, p: Page, base: Books)
    requires MemOk(m, With(base, OfEntry(e))) && BaseOk(base) && p in With(base, OfEntry(e)).named
    ensures Sized(m) && p < |m.nodeOf|
    ensures e.page.At? ==>
            e.page.p < |m.nodeOf| && (m.ref[e.page.p] == 1 ==> m.hw[e.page.p] == 0 && !m.freeFlag[e.page.p])
    ensures var m1 := if e.page.At? then Decref(m, e.page.p) else m;
            MemOk(Incref(m1, p), With(base, OfEntry(Entry(At(p), Excl))))
            <==> PutsBack(m, With(base, OfEntry(e)), e, At(p))
  {
    NamedFacts(m, e, p, base);
    hide MemOk;
    if e.page == At(p) && With(base, OfEntry(e)).named[p] == 1 && m.hw[p] > 0 {
      PutBack(m, e, p, base);
    } else {
      PutBreaks(m, e, p, base);
    }
  }

  lemma NamedFacts(m: Mem, e: Entry, p: Page, base: Books)
    requires MemOk(m, With(base, OfEntry(e))) && p in With(base, OfEntry(e)).named
    ensures Sized(m) && p < |m.nodeOf| && PageOk(m, With(base, OfEntry(e)), p)
    ensures e.page.At? ==>
            e.page.p < |m.nodeOf| && (m.ref[e.page.p] == 1 ==> m.hw[e.page.p] == 0 && !m.freeFlag[e.page.p])
  {
    hide ListsOk;
    var b := With(base, OfEntry(e));
    assert PageOk(m, b, p);
    if e.page.At? {
      assert e.page.p in b.named;
      assert PageOk(m, b, e.page.p);
    }
  }

  lemma PutBack(m: Mem, e: Entry, p: Page, base: Books)
    requires MemOk(m, With(base, OfEntry(e))) && BaseOk(base) && p < |m.nodeOf|
    requires e.page == At(p) && With(base, OfEntry(e)).named[p] == 1 && m.hw[p] > 0
    requires m.ref[p] != 1
    ensures MemOk(Incref(Decref(m, p), p), With(base, OfEntry(Entry(At(p), Excl))))
  {
    hide ListsOk;
    var b, b' := With(base, OfEntry(e)), With(base, OfEntry(Entry(At(p), Excl)));
    assert PageOk(m, b, p);
    assert Incref(Decref(m, p), p).ref == m.ref;
    assert Incref(Decref(m, p), p) == m;
    forall q | 0 <= q < |m.nodeOf| ensures PageOk(m, b', q) { assert PageOk(m, b, q); }
  }

  lemma PutBreaks(m: Mem, e: Entry, p: Page, base: Books)
    requires Sized(m) && p < |m.nodeOf| && PageOk(m, With(base, OfEntry(e)), p) && p in With(base, OfEntry(e)).named
    requires !(e.page == At(p) && With(base, OfEntry(e)).named[p] == 1 && m.hw[p] > 0)
    requires e.page.At? ==>
             e.page.p < |m.nodeOf| && (m.ref[e.page.p] == 1 ==> m.hw[e.page.p] == 0 && !m.freeFlag[e.page.p])
    ensures var m1 := if e.page.At? then Decref(m, e.page.p) else m;
            !MemOk(Incref(m1, p), With(base, OfEntry(Entry(At(p), Excl))))
  {
    hide ListsOk;
    var b' := With(base, OfEntry(Entry(At(p), Excl)));
    var m' := Incref(if e.page.At? then Decref(m, e.page.p) else m, p);
    assert b'.excl[p] > 0 && b'.named[p] == base.named[p] + 1;
    assert MemOk(m', b') ==> PageOk(m', b', p);
    assert MemOk(m', b') ==> base.named[p] == 0;
    assert base.named[p] == 0 ==> e.page == At(p) && m.ref[p] == 1 && m'.freeFlag[p];
  }

  /**
   pagetree_put_page, once the entry is found, for a page that was handed out or one that
   some entry names already; the latter keeps the books only when it is put back.
   */
  method PutEntry(m: Mem, e: Entry, page: PagePtr, ghost base: Books) returns (m': Mem, e': Entry)
    requires MemOk(m, With(base, OfEntry(e))) && BaseOk(base)
    requires page.At? ==> page.p in base.loose || page.p in With(base, OfEntry(e)).named
    ensures e' == Entry(page, Excl)
    ensures MemOk(m', With(base.(loose := base.loose - if page.At? then {page.p} else {}), OfEntry(e')))
            <==> Handed(base.loose, page) || PutsBack(m, With(base, OfEntry(e)), e, page)
    ensures m'.bytes == m.bytes && SameShape(m, m')
    ensures Spare(m'.free) == Spare(m.free) + LastRef(m.ref, e.page)
    ensures page.Nil? ==> m'.ref == Unref(m.ref, e.page)
  {
    hide MemOk, With, OfEntry, Sub, Spare;
    m', e' := m, Entry(page, Excl);
    AddNone(OfEntry(e));
    AddNone(OfEntry(e'));
    WithNone(base);
    NoneSub(e);
    if page.At? && page.p !in base.loose {
      PutNamedPage(m, e, page.p, base);
      NotLoose(base, page.p);
    }
    if e.page.At? {
      BooksUnnamed(base, e, NONE);
      DecrefOk(m, e.page.p, With(base, OfEntry(e)), base.excl);
      DecrefSpare(m, e.page.p);
      m' := Decref(m, e.page.p);
    }
    if page.At? {
      if page.p in base.loose {
        NameLooseOk(m', page.p, base);
        NameBooks(base, page.p);
      }
      m' := Incref(m', page.p);
    } else {
      assert base.(loose := base.loose - {}) == base;
    }
  }

  lemma NotLoose(base: Books, p: Page)
    requires p !in base.loose
    ensures base.(loose := base.loose - {p}) == base
  {
    assert base.loose - {p} == base.loose;
  }

  lemma NameBooks(base: Books, p: Page)
    requires p in base.loose
    ensures base.(named := base.named + multiset{p}, excl := base.excl + multiset{p}, loose := base.loose - {p})
            == With(base.(loose := base.loose - {p}), OfEntry(Entry(At(p), Excl)))
  {
  }

  lemma NoneSub(e: Entry)
    ensures Sub(NONE) && (e.page.Nil? ==> OfEntry(e) == NONE) && OfEntry(Entry(Nil, Excl)) == NONE
  {
  }

  /** pagetree_copy_ent. */
  method CopyEnt(m: Mem, src: Entry, into: Entry, mode: Mode, cpu: nat, ghost base: Books)
    returns (ok: bool, m': Mem, src': Entry, dst: Entry)
    requires MemOk(m, With(base, OfEntry(src))) && BaseOk(base) && cpu < |m.free|
    requires src.page.At? && DirectOk(src) && into.page.Nil? && mode != Unset
    ensures MemOk(m', With(base, Add(OfEntry(src'), OfEntry(dst)))) && Grew(m, m')
    ensures src'.page == src.page && EntryOk(src') && DirectOk(dst) && (EntryOk(into) ==> EntryOk(dst))
    ensures ok ==> View(m', dst) == View(m, src) && dst.page.At? && dst.mode == mode
    ensures ok && mode != Excl ==> src'.mode == Cow && dst.page == src.page
    ensures ok && mode == Excl ==> src' == src && dst.page != src.page
    ensures !ok ==> mode == Excl && m' == m && src' == src && dst == into && Exhausted(m)
    ensures ok <==> mode != Excl || Spare(m.free) > 0
    ensures ok ==> Spare(m'.free) == Spare(m.free) - if mode == Excl then 1 else 0
  {
    hide MemOk, With, OfEntry, Sub, Spare;
    ghost var b := With(base, OfEntry(src));
    EntryNamed(base, src);
    NamedNotFree(m, b, src.page.p);
    if mode == Excl {
      var p;
      ok, p, m' := AllocPage(m, cpu, b);
      if !ok {
        NoneSub(into);
        AddNone(OfEntry(src));
        return false, m, src, into;
      }
      NameLooseOk(m', p, b.(loose := b.loose + {p}));
      m' := Incref(m', p);
      src', dst := src, Entry(At(p), mode);
      BooksNamed(base, OfEntry(src), p);
      WriteOk(m', p, m'.bytes[src.page.p], With(base, Add(OfEntry(src), OfEntry(dst))));
      m' := Write(m', p, m'.bytes[src.page.p]);
    } else {
      NotOwned(m, base, src);
      BooksShared(base, src.page.p, src.mode, mode);
      ShareOk(m, src.page.p, b, base.excl);
      m' := Incref(m, src.page.p);
      src', dst := Entry(src.page, Cow), Entry(src.page, mode);
    }
    return true, m', src', dst;
  }

  /** A page that one entry names is owned by no other entry. */
  lemma NotOwned(m: Mem, base: Books, e: Entry)
    requires MemOk(m, With(base, OfEntry(e))) && BaseOk(base) && e.page.At?
    ensures base.excl[e.page.p] == 0
  {
    hide ListsOk;
    assert e.page.p in With(base, OfEntry(e)).named;
    assert PageOk(m, With(base, OfEntry(e)), e.page.p);
  }
}
