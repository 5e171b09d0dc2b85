/**
 kern/kern/atmap.c and kern/kern/at.c: an address tree maps slots to segments and interior
 trees.  The first fault through a slot makes a mapping record, which is put on the list of
 the object it maps, so that the object can find and undo all its mappings.
 */
module BackLinks {

  /** Slot `slot` of address tree `at`. */
  datatype Key = Key(at: nat, slot: nat)

  /** A u_address_mapping in use: object obj, named through share sh, at npages pages from va on. */
  datatype Slot = Slot(obj: nat, sh: nat, va: nat, npages: nat)

  /** An address_mapping2 whose am_kobj is set; ranges are in pages. */
  datatype Rec = Rec(obj: nat, sh: nat, ps: nat, first: nat, last: int)

  /** A page of the page map of an address tree. */
  datatype Place = Place(at: nat, page: nat)

  /** slots holds those with flags set, recs those with am_kobj set; pages says whose page is mapped where. */
  datatype State = State(slots: map<Key, Slot>, recs: map<Key, Rec>, lists: map<nat, seq<Key>>, pages: map<Place, nat>)

  function ListOf(s: State, o: nat): seq<Key> {
    if o in s.lists then s.lists[o] else []
  }

  // Lists.

  ghost predicate NoDup(l: seq<Key>) {
    forall i, j :: 0 <= i < j < |l| ==> l[i] != l[j]
  }

  /** What is left of a list, in order, when some records go. */
  function Left(l: seq<Key>, gone: set<Key>): seq<Key> {
    if l == [] then [] else (if l[0] in gone then [] else [l[0]]) + Left(l[1..], gone)
  }

  lemma {:induction false} LeftElements(l: seq<Key>, gone: set<Key>)
    ensures forall k :: k in Left(l, gone) <==> k in l && k !in gone
    ensures NoDup(l) ==> NoDup(Left(l, gone))
  {
    if l != [] {
      LeftElements(l[1..], gone);
      assert l == [l[0]] + l[1..];
    }
  }

  lemma {:induction false} LeftTwice(l: seq<Key>, a: set<Key>, b: set<Key>)
    ensures Left(Left(l, a), b) == Left(l, a + b)
  {
    if l != [] {
      LeftTwice(l[1..], a, b);
      if l[0] in a {
        assert Left(l, a) == Left(l[1..], a) && Left(l, a + b) == Left(l[1..], a + b);
      } else {
        assert Left(l, a)[1..] == Left(l[1..], a);
      }
    }
  }

  lemma {:induction false} LeftAll(l: seq<Key>, gone: set<Key>)
    requires forall k :: k in l ==> k !in gone
    ensures Left(l, gone) == l
  {
    if l != [] {
      LeftAll(l[1..], gone);
      assert l == [l[0]] + l[1..];
    }
  }

  lemma {:induction false} LeftNone(l: seq<Key>, gone: set<Key>)
    requires forall k :: k in l ==> k in gone
    ensures Left(l, gone) == []
  {
    if l != [] { LeftNone(l[1..], gone); }
  }

  lemma {:induction false} LeftConcat(l: seq<Key>, m: seq<Key>, gone: set<Key>)
    ensures Left(l + m, gone) == Left(l, gone) + Left(m, gone)
  {
    if l == [] {
      assert l + m == m;
    } else {
      hide NoDup;
      LeftConcat(l[1..], m, gone);
      assert (l + m)[1..] == l[1..] + m && (l + m)[0] == l[0];
      var x, y, z := if l[0] in gone then [] else [l[0]], Left(l[1..], gone), Left(m, gone);
      assert Left(l + m, gone) == x + (y + z);
      assert x + (y + z) == (x + y) + z;
    }
  }

  // Undoing mappings.

  ghost predicate Covers(r: Rec, k: Key, p: Place) {
    p.at == k.at && r.first <= p.page <= r.last
  }

  /** Some of the records that go covers the page. */
  ghost predicate Hit(recs: map<Key, Rec>, gone: set<Key>, p: Place) {
    exists k :: k in gone && k in recs && Covers(recs[k], k, p)
  }

  /** The records are off all lists and no longer set. */
  ghost function Unlinked(s: State, gone: set<Key>): State {
    s.(recs := s.recs - gone, lists := map o | o in s.lists :: Left(s.lists[o], gone))
  }

  /** Their pages are unmapped as well. */
  ghost function Dropped(s: State, gone: set<Key>): State {
    Unlinked(s, gone).(pages := map p | p in s.pages && !Hit(s.recs, gone, p) :: s.pages[p])
  }

  lemma UnlinkedTwice(s: State, a: set<Key>, b: set<Key>)
    ensures Unlinked(Unlinked(s, a), b) == Unlinked(s, a + b)
  {
    forall o | o in s.lists
        ensures Left(Left(s.lists[o], a), b) == Left(s.lists[o], a + b) { LeftTwice(s.lists[o], a, b); }
    assert Unlinked(Unlinked(s, a), b).lists == Unlinked(s, a + b).lists;
    assert s.recs - a - b == s.recs - (a + b);
  }

  lemma DroppedTwice(s: State, a: set<Key>, b: set<Key>)
    ensures Dropped(Dropped(s, a), b) == Dropped(s, a + b)
  {
    UnlinkedTwice(s, a, b);
    var t := Dropped(s, a);
    forall p ensures Hit(s.recs, a + b, p) <==> Hit(s.recs, a, p) || Hit(t.recs, b, p) {
      if k :| k in a + b && k in s.recs && Covers(s.recs[k], k, p) {
        assert k in a || (k in b && k in t.recs);
      }
      if k :| k in b && k in t.recs && Covers(t.recs[k], k, p) {
        assert k in a + b && k in s.recs && Covers(s.recs[k], k, p);
      }
      if k :| k in a && k in s.recs && Covers(s.recs[k], k, p) {
        assert k in a + b;
      }
    }
    assert Dropped(t, b).pages == Dropped(s, a + b).pages;
  }

  lemma DroppedNone(s: State)
    ensures Dropped(s, {}) == s && Unlinked(s, {}) == s
  {
    forall o | o in s.lists ensures Left(s.lists[o], {}) == s.lists[o] { LeftAll(s.lists[o], {}); }
    assert Unlinked(s, {}).lists == s.lists;
  }

  // The invariant.

  /** A record is on an object's list, once, exactly when its am_kobj is that object. */
  ghost predicate LinksOk(s: State) {
    && (forall o :: NoDup(ListOf(s, o)))
    && (forall o, k :: k in ListOf(s, o) <==> k in s.recs && s.recs[k].obj == o)
  }

  ghost predicate Agrees(s: Slot, r: Rec) {
    r.obj == s.obj && r.sh == s.sh && r.first == s.va && r.last == s.va + s.npages - 1
  }

  /** A record says what its slot says. */
  ghost predicate SlotsOk(s: State) {
    forall k :: k in s.recs ==> k in s.slots && Agrees(s.slots[k], s.recs[k])
  }

  ghost predicate Backed(s: State, p: Place, o: nat) {
    exists k :: k in s.recs && s.recs[k].obj == o && Covers(s.recs[k], k, p)
  }

  /** Every mapped page is covered by a record of the object it belongs to. */
  ghost predicate PagesOk(s: State) {
    forall p :: p in s.pages ==> Backed(s, p, s.pages[p])
  }

  lemma UnlinkedList(s: State, gone: set<Key>, o: nat)
    ensures ListOf(Unlinked(s, gone), o) == Left(ListOf(s, o), gone)
  {
  }

  lemma UnlinkedKeeps(s: State, gone: set<Key>)
    requires LinksOk(s) && SlotsOk(s)
    ensures LinksOk(Unlinked(s, gone)) && SlotsOk(Unlinked(s, gone))
    ensures forall o :: ListOf(Unlinked(s, gone), o) == Left(ListOf(s, o), gone)
  {
    var t := Unlinked(s, gone);
    assert SlotsOk(t) && t.recs == s.recs - gone;
    hide ListOf, Left, NoDup, Unlinked, SlotsOk;
    forall o ensures ListOf(t, o) == Left(ListOf(s, o), gone) && NoDup(ListOf(t, o)) {
      UnlinkedList(s, gone, o);
      assert NoDup(ListOf(s, o));
      LeftElements(ListOf(s, o), gone);
    }
    forall o, k ensures k in ListOf(t, o) <==> k in t.recs && t.recs[k].obj == o {
      UnlinkedList(s, gone, o);
      LeftElements(ListOf(s, o), gone);
      assert k in ListOf(s, o) <==> k in s.recs && s.recs[k].obj == o;
    }
  }

  /** Links and slots do not look at the page map. */
  lemma PagesApart(s: State, pages: map<Place, nat>)
    requires LinksOk(s) && SlotsOk(s)
    ensures LinksOk(s.(pages := pages)) && SlotsOk(s.(pages := pages))
    ensures forall o :: ListOf(s.(pages := pages), o) == ListOf(s, o)
  {
    var t := s.(pages := pages);
    forall o, k ensures k in ListOf(t, o) <==> k in t.recs && t.recs[k].obj == o {
      assert k in ListOf(s, o) <==> k in s.recs && s.recs[k].obj == o;
    }
    forall o ensures NoDup(ListOf(t, o)) { assert NoDup(ListOf(s, o)); }
  }

  lemma DroppedPages(s: State, gone: set<Key>)
    requires PagesOk(s)
    ensures PagesOk(Dropped(s, gone))
  {
    var t := Dropped(s, gone);
    forall p | p in t.pages ensures Backed(t, p, t.pages[p]) {
      assert Backed(s, p, s.pages[p]);
      var k :| k in s.recs && s.recs[k].obj == s.pages[p] && Covers(s.recs[k], k, p);
      assert k !in gone;
      assert k in t.recs && t.recs[k].obj == t.pages[p] && Covers(t.recs[k], k, p);
    }
  }

  lemma DroppedKeeps(s: State, gone: set<Key>)
    requires LinksOk(s) && SlotsOk(s)
    ensures LinksOk(Dropped(s, gone)) && SlotsOk(Dropped(s, gone)) && (PagesOk(s) ==> PagesOk(Dropped(s, gone)))
    ensures forall o :: ListOf(Dropped(s, gone), o) == Left(ListOf(s, o), gone)
  {
    UnlinkedKeeps(s, gone);
    if PagesOk(s) { DroppedPages(s, gone); }
    hide LinksOk, SlotsOk, PagesOk, Unlinked;
    PagesApart(Unlinked(s, gone), Dropped(s, gone).pages);
  }

  // The list primitives, and the walk that edits the list it is on.

  datatype Ptr = Null | At(k: Key)

  function First(l: seq<Key>): Ptr {
    if l == [] then Null else At(l[0])
  }

  function Next(l: seq<Key>, k: Key): Ptr {
    if l == [] then Null else if l[0] == k then First(l[1..]) else Next(l[1..], k)
  }

  lemma {:induction false} NextAfter(a: seq<Key>, k: Key, b: seq<Key>)
    requires NoDup(a + [k] + b)
    ensures Next(a + [k] + b, k) == First(b)
  {
    var l := a + [k] + b;
    if a == [] {
      assert l == [k] + b;
      assert l[1..] == b;
    } else {
      assert l[0] == a[0] && l[|a|] == k;
      assert l[1..] == a[1..] + [k] + b;
      NextAfter(a[1..], k, b);
    }
  }

  /** LIST_REMOVE of a record followed by at_invalidate_addrmap. */
  function DropOne(s: State, k: Key): State
    requires k in s.recs
  {
    var r := s.recs[k];
    s.(recs := s.recs - {k},
       lists := s.lists[r.obj := Left(ListOf(s, r.obj), {k})],
       pages := map p | p in s.pages && !(p.at == k.at && r.first <= p.page <= r.last) :: s.pages[p])
  }

  lemma DropOneIs(s: State, k: Key)
    requires LinksOk(s) && k in s.recs
    ensures DropOne(s, k) == Dropped(s, {k})
  {
    var t, u := DropOne(s, k), Dropped(s, {k});
    assert k in ListOf(s, s.recs[k].obj);
    forall o | o in s.lists && o != s.recs[k].obj ensures Left(s.lists[o], {k}) == s.lists[o] {
      assert k !in ListOf(s, o);
      LeftAll(s.lists[o], {k});
    }
    assert t.lists == u.lists;
    forall p ensures Hit(s.recs, {k}, p) <==> Covers(s.recs[k], k, p) {
      if Covers(s.recs[k], k, p) { assert k in {k} && k in s.recs; }
    }
    assert t.pages == u.pages;
  }

  /** The records of a list that a removal from share sh concerns; share 0 stands for all. */
  ghost function OfShare(s: State, o: nat, sh: nat): set<Key> {
    set k | k in ListOf(s, o) && k in s.recs && (sh == 0 || sh == s.recs[k].sh)
  }

  ghost function OfProcessor(s: State, o: nat, sh: nat, ps: nat): set<Key> {
    set k | k in ListOf(s, o) && k in s.recs && sh == s.recs[k].sh && ps == s.recs[k].ps
  }

  /**
   Where a walk stands: the records passed are done, what is gone is gone, and the two
   pointers are the last record kept and the first not yet looked at.
   */
  ghost predicate Walking(s0: State, s: State, o: nat, passed: seq<Key>, rest: seq<Key>, gone: set<Key>, prev: Ptr,
      am: Ptr) {
    && ListOf(s0, o) == passed + rest && s == Dropped(s0, gone)
    && (forall k :: k in gone ==> k in passed)
    && am == First(rest)
    && var kept := Left(passed, gone);
    && ListOf(s, o) == kept + rest
    && prev == if kept == [] then Null else At(kept[|kept| - 1])
  }

  lemma WalkStart(s: State, o: nat)
    ensures Walking(s, s, o, [], ListOf(s, o), {}, Null, First(ListOf(s, o)))
  {
    DroppedNone(s);
    assert [] + ListOf(s, o) == ListOf(s, o);
  }

  /** A record that stays: the walk moves on to the next one. */
  lemma WalkKeep(s0: State, s: State, o: nat, passed: seq<Key>, rest: seq<Key>, gone: set<Key>, prev: Ptr, am: Ptr)
    requires LinksOk(s0) && SlotsOk(s0) && Walking(s0, s, o, passed, rest, gone, prev, am) && am.At?
    ensures am.k in s.recs && am.k in s0.recs && s.recs[am.k] == s0.recs[am.k] && am.k !in gone
    ensures Walking(s0, s, o, passed + [am.k], rest[1..], gone, am, Next(ListOf(s, o), am.k))
  {
    hide LinksOk, SlotsOk, PagesOk, Dropped, Left, NoDup, ListOf, Next;
    DroppedKeeps(s0, gone);
    var k, kept := am.k, Left(passed, gone);
    Alive(s0, s, o, passed, rest, gone, k);
    ListNoDup(s, o);
    assert rest == [k] + rest[1..];
    assert ListOf(s, o) == kept + [k] + rest[1..];
    NextAfter(kept, k, rest[1..]);
    LeftConcat(passed, [k], gone);
    LeftOne(k, gone);
    assert passed + [k] + rest[1..] == passed + rest;
  }

  lemma Alive(s0: State, s: State, o: nat, passed: seq<Key>, rest: seq<Key>, gone: set<Key>, k: Key)
    requires LinksOk(s0) && LinksOk(s) && ListOf(s0, o) == passed + rest && rest != [] && k == rest[0]
             && s == Dropped(s0, gone)
    requires forall j :: j in gone ==> j in passed
    ensures k !in gone && k in s0.recs && s0.recs[k].obj == o && k in s.recs && s.recs[k] == s0.recs[k]
  {
    assert k in ListOf(s0, o);
    assert NoDup(ListOf(s0, o));
    var l := passed + rest;
    assert l[|passed|] == k;
    forall i | 0 <= i < |passed| ensures passed[i] != k { assert l[i] == passed[i]; }
  }

  /** A record that goes: the walk resumes after the last record kept, or at the head. */
  lemma WalkDrop(s0: State, s: State, o: nat, passed: seq<Key>, rest: seq<Key>, gone: set<Key>, prev: Ptr, am: Ptr)
    requires LinksOk(s0) && SlotsOk(s0) && Walking(s0, s, o, passed, rest, gone, prev, am) && am.At?
    ensures am.k in s.recs && am.k in s0.recs && s.recs[am.k] == s0.recs[am.k] && LinksOk(s)
    ensures var s' := Dropped(s, {am.k});
            var l := ListOf(s', o);
            Walking(s0, s', o, passed + [am.k], rest[1..], gone + {am.k}, prev,
                    if prev.At? then Next(l, prev.k) else First(l))
  {
    hide LinksOk, SlotsOk, PagesOk, Dropped, Left, NoDup, ListOf, Next;
    DroppedKeeps(s0, gone);
    var k, kept := am.k, Left(passed, gone);
    Alive(s0, s, o, passed, rest, gone, k);
    DroppedTwice(s0, gone, {k});
    DroppedKeeps(s, {k});
    ListNoDup(s, o);
    ListNoDup(Dropped(s, {k}), o);
    assert rest == [k] + rest[1..];
    assert ListOf(s, o) == kept + ([k] + rest[1..]);
    AfterDrop(ListOf(s, o), kept, k, rest[1..]);
    KeptSame(passed, gone, k);
    assert passed + [k] + rest[1..] == passed + rest;
    if kept != [] {
      var m := |kept| - 1;
      assert kept + rest[1..] == kept[..m] + [kept[m]] + rest[1..];
      NextAfter(kept[..m], kept[m], rest[1..]);
    } else {
      assert kept + rest[1..] == rest[1..];
    }
  }

  lemma ListNoDup(s: State, o: nat)
    requires LinksOk(s)
    ensures NoDup(ListOf(s, o))
  {
  }

  lemma LeftOne(k: Key, gone: set<Key>)
    ensures Left([k], gone) == if k in gone then [] else [k]
  {
  }

  lemma AfterDrop(l: seq<Key>, kept: seq<Key>, k: Key, rest: seq<Key>)
    requires l == kept + ([k] + rest) && NoDup(l)
    ensures Left(l, {k}) == kept + rest && k !in kept && k !in rest
  {
    assert l[|kept|] == k;
    forall i | 0 <= i < |kept| ensures kept[i] != k { assert l[i] == kept[i]; }
    forall i | 0 <= i < |rest| ensures rest[i] != k { assert l[|kept| + 1 + i] == rest[i]; }
    LeftConcat(kept, [k] + rest, {k});
    LeftAll(kept, {k});
    LeftAll(rest, {k});
    assert ([k] + rest)[1..] == rest;
    assert Left([k] + rest, {k}) == rest;
  }

  lemma KeptSame(passed: seq<Key>, gone: set<Key>, k: Key)
    requires k !in Left(passed, gone)
    ensures Left(passed + [k], gone + {k}) == Left(passed, gone)
  {
    LeftConcat(passed, [k], gone + {k});
    LeftTwice(passed, gone, {k});
    LeftAll(Left(passed, gone), {k});
    assert Left([k], gone + {k}) == [];
  }

  // The operations.

  /** The record that the first fault through a slot makes, at the head of its object's list. */
  function Recorded(s: State, k: Key, ps: nat): State
    requires k in s.slots
  {
    var m := s.slots[k];
    if k in s.recs then s
    else s.(recs := s.recs[k := Rec(m.obj, m.sh, ps, m.va, m.va + m.npages - 1)],
        lists := s.lists[m.obj := [k] + ListOf(s, m.obj)])
  }

  lemma RecordedKeeps(s: State, k: Key, ps: nat)
    requires LinksOk(s) && SlotsOk(s) && k in s.slots
    ensures var t := Recorded(s, k, ps);
            LinksOk(t) && SlotsOk(t) && (PagesOk(s) ==> PagesOk(t)) && k in t.recs && Agrees(s.slots[k], t.recs[k])
  {
    var t := Recorded(s, k, ps);
    var o0 := s.slots[k].obj;
    if k !in s.recs {
      forall o ensures NoDup(ListOf(t, o)) {
        assert NoDup(ListOf(s, o));
        assert k !in ListOf(s, o);
      }
      forall o, j ensures j in ListOf(t, o) <==> j in t.recs && t.recs[j].obj == o {
        assert j in ListOf(s, o) <==> j in s.recs && s.recs[j].obj == o;
        assert k !in ListOf(s, o);
      }
      if PagesOk(s) {
        forall p | p in t.pages ensures Backed(t, p, t.pages[p]) {
          assert Backed(s, p, s.pages[p]);
          var j :| j in s.recs && s.recs[j].obj == s.pages[p] && Covers(s.recs[j], j, p);
          assert j in t.recs && t.recs[j].obj == t.pages[p] && Covers(t.recs[j], j, p);
        }
      }
    }
  }

  lemma MappedKeeps(s: State, k: Key, page: nat)
    requires LinksOk(s) && SlotsOk(s) && k in s.recs && s.recs[k].first <= page <= s.recs[k].last
    ensures var t := s.(pages := s.pages[Place(k.at, page) := s.recs[k].obj]);
            LinksOk(t) && SlotsOk(t) && (PagesOk(s) ==> PagesOk(t))
  {
    var t := s.(pages := s.pages[Place(k.at, page) := s.recs[k].obj]);
    PagesApart(s, t.pages);
    hide LinksOk, SlotsOk;
    if PagesOk(s) {
      forall p | p in t.pages ensures Backed(t, p, t.pages[p]) {
        if p == Place(k.at, page) {
          assert k in t.recs && t.recs[k].obj == t.pages[p] && Covers(t.recs[k], k, p);
        } else {
          assert Backed(s, p, s.pages[p]);
          var j :| j in s.recs && s.recs[j].obj == s.pages[p] && Covers(s.recs[j], j, p);
          assert j in t.recs && t.recs[j].obj == t.pages[p] && Covers(t.recs[j], j, p);
        }
      }
    }
  }

  /** The slot says something new; it has no record. */
  lemma SlotSet(s: State, k: Key, slots: map<Key, Slot>)
    requires LinksOk(s) && SlotsOk(s) && k !in s.recs
    requires forall j :: j != k && j in s.slots ==> j in slots && slots[j] == s.slots[j]
    ensures var t := s.(slots := slots); LinksOk(t) && SlotsOk(t) && (PagesOk(s) ==> PagesOk(t))
  {
    var t := s.(slots := slots);
    forall o ensures ListOf(t, o) == ListOf(s, o) {}
    forall o, j ensures j in ListOf(t, o) <==> j in t.recs && t.recs[j].obj == o {
      assert j in ListOf(s, o) <==> j in s.recs && s.recs[j].obj == o;
    }
    if PagesOk(s) {
      forall p | p in t.pages ensures Backed(t, p, t.pages[p]) {
        assert Backed(s, p, s.pages[p]);
        var j :| j in s.recs && s.recs[j].obj == s.pages[p] && Covers(s.recs[j], j, p);
        assert j in t.recs && t.recs[j].obj == t.pages[p] && Covers(t.recs[j], j, p);
      }
    }
  }

  function UnlinkOne(s: State, k: Key): State
    requires k in s.recs
  {
    var o := s.recs[k].obj;
    s.(recs := s.recs - {k}, lists := s.lists[o := Left(ListOf(s, o), {k})])
  }

  lemma UnlinkOneIs(s: State, k: Key)
    requires LinksOk(s) && k in s.recs
    ensures UnlinkOne(s, k) == Unlinked(s, {k})
  {
    assert k in ListOf(s, s.recs[k].obj);
    forall o | o in s.lists && o != s.recs[k].obj ensures Left(s.lists[o], {k}) == s.lists[o] {
      assert k !in ListOf(s, o);
      LeftAll(s.lists[o], {k});
    }
    assert UnlinkOne(s, k).lists == Unlinked(s, {k}).lists;
  }

  /** The records of one address tree, up to slot n. */
  ghost function OfTree(s: State, at: nat, n: nat): set<Key> {
    set k | k in s.recs && k.at == at && k.slot < n
  }

  class Mappings {
    var s: State

    ghost predicate Valid()
      reads this
    {
      LinksOk(s) && SlotsOk(s)
    }

    constructor ()
      ensures Valid() && PagesOk(s) && s == State(map[], map[], map[], map[])
    {
      s := State(map[], map[], map[], map[]);
    }

    /**
     at_pmap_fill_mapping for a fault on a page of slot k; mapped says whether the segment had
     the page and the page map took it.  The assertion on am_kobj never fires.
     */
    method Fill(k: Key, page: nat, ps: nat, mapped: bool)
      requires Valid() && k in s.slots && s.slots[k].va <= page < s.slots[k].va + s.slots[k].npages
      modifies this
      ensures Valid() && (old(PagesOk(s)) ==> PagesOk(s))
      ensures var pages := if mapped then old(s.pages)[Place(k.at, page) := old(s.slots[k].obj)] else old(s.pages);
              s == Recorded(old(s), k, ps).(pages := pages)
    {
      hide LinksOk, PagesOk;
      assert k !in s.recs || s.recs[k].obj == s.slots[k].obj;
      RecordedKeeps(s, k, ps);
      s := Recorded(s, k, ps);
      if mapped {
        MappedKeeps(s, k, page);
        s := s.(pages := s.pages[Place(k.at, page) := s.slots[k].obj]);
      }
    }

    /** at_set_uslot: the old mapping is undone before the slot changes. */
    method SetSlot(k: Key, used: bool, slot: Slot)
      requires Valid()
      modifies this
      ensures Valid() && (old(PagesOk(s)) ==> PagesOk(s))
      ensures var gone := if k in old(s.recs) then {k} else {};
              s == Dropped(old(s), gone).(slots := if used then old(s.slots)[k := slot] else old(s.slots) - {k})
    {
      hide LinksOk, PagesOk, Dropped;
      DroppedNone(s);
      ghost var s0 := s;
      if k in s.slots && k in s.recs {
        DropOneIs(s, k);
        DroppedKeeps(s, {k});
        s := DropOne(s, k);
      }
      DroppedRecs(s0, {k});
      var slots := if used then s.slots[k := slot] else s.slots - {k};
      SlotSet(s, k, slots);
      s := s.(slots := slots);
    }

    /** aml_invalidate: drops exactly the records named through share sh, or all of them. */
    method Invalidate(o: nat, sh: nat)
      requires Valid()
      modifies this
      ensures Valid() && (old(PagesOk(s)) ==> PagesOk(s)) && s == Dropped(old(s), OfShare(old(s), o, sh))
    {
      hide LinksOk, SlotsOk, PagesOk, Dropped, Walking;
      ghost var s0, passed, rest, gone := s, [], ListOf(s, o), {};
      var prev, am := Null, First(ListOf(s, o));
      WalkStart(s, o);
      while am.At?
        invariant Walking(s0, s, o, passed, rest, gone, prev, am)
        invariant forall k :: k in passed ==> k in s0.recs && (k in gone <==> sh == 0 || sh == s0.recs[k].sh)
        decreases |rest|
      {
        WalkFacts(s0, s, o, passed, rest, gone, prev, am);
        WalkKeep(s0, s, o, passed, rest, gone, prev, am);
        WalkDrop(s0, s, o, passed, rest, gone, prev, am);
        var k := am.k;
        if sh == 0 || sh == s.recs[k].sh {
          DropOneIs(s, k);
          s := DropOne(s, k);
          am := if prev.At? then Next(ListOf(s, o), prev.k) else First(ListOf(s, o));
          gone := gone + {k};
        } else {
          prev, am := am, Next(ListOf(s, o), k);
        }
        passed, rest := passed + [k], rest[1..];
      }
      WalkEnd(s0, s, o, passed, rest, gone, prev, am);
      assert gone == OfShare(s0, o, sh);
      DroppedKeeps(s0, gone);
    }

    /** aml_scope: drops exactly the records that processor ps made through share sh. */
    method Scope(o: nat, sh: nat, ps: nat)
      requires Valid()
      modifies this
      ensures Valid() && (old(PagesOk(s)) ==> PagesOk(s)) && s == Dropped(old(s), OfProcessor(old(s), o, sh, ps))
    {
      hide LinksOk, SlotsOk, PagesOk, Dropped, Walking;
      ghost var s0, passed, rest, gone := s, [], ListOf(s, o), {};
      var prev, am := Null, First(ListOf(s, o));
      WalkStart(s, o);
      while am.At?
        invariant Walking(s0, s, o, passed, rest, gone, prev, am)
        invariant forall k :: k in passed ==>
                  k in s0.recs && (k in gone <==> sh == s0.recs[k].sh && ps == s0.recs[k].ps)
        decreases |rest|
      {
        WalkFacts(s0, s, o, passed, rest, gone, prev, am);
        WalkKeep(s0, s, o, passed, rest, gone, prev, am);
        WalkDrop(s0, s, o, passed, rest, gone, prev, am);
        var k := am.k;
        if sh == s.recs[k].sh {
          if ps == s.recs[k].ps {
            DropOneIs(s, k);
            s := DropOne(s, k);
            gone := gone + {k};
          } else {
            prev := am;
          }
          am := if prev.At? then Next(ListOf(s, o), prev.k) else First(ListOf(s, o));
        } else {
          prev, am := am, Next(ListOf(s, o), k);
        }
        passed, rest := passed + [k], rest[1..];
      }
      WalkEnd(s0, s, o, passed, rest, gone, prev, am);
      assert gone == OfProcessor(s0, o, sh, ps);
      DroppedKeeps(s0, gone);
    }

    /** at_clear_mappings: takes every record of the tree off its list; the page map is left to others. */
    method ClearMappings(at: nat, nents: nat)
      requires Valid() && forall k :: k in s.slots && k.at == at ==> k.slot < nents
      modifies this
      ensures Valid() && s == Unlinked(old(s), OfTree(old(s), at, nents))
      ensures forall k :: k in s.recs ==> k.at != at
    {
      hide LinksOk, Unlinked;
      ghost var s0 := s;
      DroppedNone(s);
      assert OfTree(s0, at, 0) == {};
      for i := 0 to nents
        invariant Valid() && s == Unlinked(s0, OfTree(s0, at, i))
      {
        var k := Key(at, i);
        UnlinkedRecs(s0, OfTree(s0, at, i));
        if k in s.slots && k in s.recs {
          UnlinkOneIs(s, k);
          UnlinkedTwice(s0, OfTree(s0, at, i), {k});
          assert OfTree(s0, at, i) + {k} == OfTree(s0, at, i + 1);
          s := UnlinkOne(s, k);
          UnlinkedKeeps(s0, OfTree(s0, at, i + 1));
        } else {
          assert OfTree(s0, at, i) == OfTree(s0, at, i + 1);
        }
      }
      UnlinkedRecs(s0, OfTree(s0, at, nents));
    }
  }

  lemma DroppedRecs(s: State, gone: set<Key>)
    ensures Dropped(s, gone).recs == s.recs - gone && Dropped(s, gone).slots == s.slots
  {
  }

  lemma WalkFacts(s0: State, s: State, o: nat, passed: seq<Key>, rest: seq<Key>, gone: set<Key>, prev: Ptr, am: Ptr)
    requires Walking(s0, s, o, passed, rest, gone, prev, am) && am.At?
    ensures rest != [] && am.k == rest[0]
  {
  }

  lemma WalkEnd(s0: State, s: State, o: nat, passed: seq<Key>, rest: seq<Key>, gone: set<Key>, prev: Ptr, am: Ptr)
    requires Walking(s0, s, o, passed, rest, gone, prev, am) && am.Null?
    ensures passed == ListOf(s0, o) && s == Dropped(s0, gone) && forall k :: k in gone ==> k in passed
  {
    assert passed + [] == passed;
  }

  lemma UnlinkedRecs(s: State, gone: set<Key>)
    ensures Unlinked(s, gone).recs == s.recs - gone && Unlinked(s, gone).slots == s.slots
  {
  }

  /** Removing an object from every share leaves no record of it, and no page of it in any page map. */
  lemma InvalidatedGone(s: State, o: nat)
    requires LinksOk(s) && SlotsOk(s) && PagesOk(s)
    ensures var t := Dropped(s, OfShare(s, o, 0));
            && ListOf(t, o) == [] && (forall k :: k in t.recs ==> t.recs[k].obj != o)
            && (forall p :: p in t.pages ==> t.pages[p] != o)
  {
    var gone := OfShare(s, o, 0);
    var t := Dropped(s, gone);
    DroppedKeeps(s, gone);
    LeftElements(ListOf(s, o), gone);
    assert forall k :: k in ListOf(s, o) ==> k in gone;
    LeftNone(ListOf(s, o), gone);
    forall p | p in t.pages ensures t.pages[p] != o { assert Backed(t, p, t.pages[p]); }
  }

  /** What an invalidation keeps: the other records of the object, in order, and the records of other objects. */
  lemma InvalidatedRest(s: State, o: nat, sh: nat, k: Key)
    requires LinksOk(s) && SlotsOk(s)
    ensures var t := Dropped(s, OfShare(s, o, sh));
            && ListOf(t, o) == Left(ListOf(s, o), OfShare(s, o, sh))
            && (forall q :: q != o ==> ListOf(t, q) == ListOf(s, q))
            && (k in t.recs <==> k in s.recs && (s.recs[k].obj != o || (sh != 0 && s.recs[k].sh != sh)))
  {
    var gone := OfShare(s, o, sh);
    DroppedKeeps(s, gone);
    forall q | q != o ensures Left(ListOf(s, q), gone) == ListOf(s, q) { LeftAll(ListOf(s, q), gone); }
    DroppedRecs(s, gone);
    assert k in s.recs && s.recs[k].obj == o ==> k in ListOf(s, o);
  }

  // Whole runs.

  datatype Op =
    | FillOp(k: Key, page: nat, ps: nat, mapped: bool)
    | SetSlotOp(k: Key, used: bool, slot: Slot)
    | InvalidateOp(o: nat, sh: nat)
    | ScopeOp(o: nat, sh: nat, ps: nat)

  /** What a step does to the state: the specification of the calls above. */
  ghost function After(s: State, op: Op): State {
    match op
    case FillOp(k, page, ps, mapped) =>
      if k in s.slots && s.slots[k].va <= page < s.slots[k].va + s.slots[k].npages then
        var t := Recorded(s, k, ps);
        if mapped then t.(pages := s.pages[Place(k.at, page) := s.slots[k].obj]) else t
      else s
    case SetSlotOp(k, used, slot) =>
      var t := Dropped(s, if k in s.recs then {k} else {});
      t.(slots := if used then s.slots[k := slot] else s.slots - {k})
    case InvalidateOp(o, sh) => Dropped(s, OfShare(s, o, sh))
    case ScopeOp(o, sh, ps) => Dropped(s, OfProcessor(s, o, sh, ps))
  }

  ghost predicate IsRun(trace: seq<State>, ops: seq<Op>) {
    |trace| == |ops| + 1 && forall i :: 0 <= i < |ops| ==> trace[i + 1] == After(trace[i], ops[i])
  }

  ghost predicate Sound(s: State) {
    LinksOk(s) && SlotsOk(s) && PagesOk(s)
  }

  /** One step; a fault outside every mapping does nothing. */
  method Do(m: Mappings, op: Op)
    requires Sound(m.s)
    modifies m
    ensures Sound(m.s) && m.s == After(old(m.s), op)
  {
    hide LinksOk, SlotsOk, PagesOk, Dropped;
    match op {
      case FillOp(k, page, ps, mapped) =>
        if k in m.s.slots && m.s.slots[k].va <= page < m.s.slots[k].va + m.s.slots[k].npages {
          m.Fill(k, page, ps, mapped);
        }
      case SetSlotOp(k, used, slot) => m.SetSlot(k, used, slot);
      case InvalidateOp(o, sh) => m.Invalidate(o, sh);
      case ScopeOp(o, sh, ps) => m.Scope(o, sh, ps);
    }
  }

  /**
   Every run of faults, slot changes, invalidations and scope changes takes the specified
   steps, and in every state on the way lists, slots and page maps agree.
   */
  method Run(m: Mappings, ops: seq<Op>) returns (ghost trace: seq<State>)
    requires Sound(m.s)
    modifies m
    ensures IsRun(trace, ops) && trace[0] == old(m.s) && trace[|ops|] == m.s
    ensures forall i :: 0 <= i <= |ops| ==> Sound(trace[i])
  {
    hide Sound, After;
    trace := [m.s];
    for i := 0 to |ops|
      invariant |trace| == i + 1 && trace[0] == old(m.s) && trace[i] == m.s
      invariant forall j :: 0 <= j <= i ==> Sound(trace[j])
      invariant forall j :: 0 <= j < i ==> trace[j + 1] == After(trace[j], ops[j])
    {
      Do(m, ops[i]);
      trace := trace + [m.s];
    }
  }

  /** No record of the object is left. */
  ghost predicate Unmapped(s: State, o: nat) {
    forall k :: k in s.recs ==> s.recs[k].obj != o
  }

  /** A fault through a slot that names the object. */
  ghost predicate Maps(s: State, op: Op, o: nat) {
    op.FillOp? && op.k in s.slots && s.slots[op.k].obj == o
  }

  lemma AfterUnmapped(s: State, op: Op, o: nat)
    requires Unmapped(s, o) && !Maps(s, op, o)
    ensures Unmapped(After(s, op), o)
  {
    match op
    case FillOp(k, page, ps, mapped) =>
    case SetSlotOp(k, used, slot) => DroppedRecs(s, if k in s.recs then {k} else {});
    case InvalidateOp(p, sh) => DroppedRecs(s, OfShare(s, p, sh));
    case ScopeOp(p, sh, ps) => DroppedRecs(s, OfProcessor(s, p, sh, ps));
  }

  lemma {:induction false} UnmappedStays(trace: seq<State>, ops: seq<Op>, i: nat, j: nat, o: nat)
    requires IsRun(trace, ops) && i <= j <= |ops| && Unmapped(trace[i], o)
    requires forall k :: i <= k < j ==> !Maps(trace[k], ops[k], o)
    ensures Unmapped(trace[j], o)
  {
    hide After, Unmapped, Maps;
    if i < j {
      UnmappedStays(trace, ops, i, j - 1, o);
      AfterUnmapped(trace[j - 1], ops[j - 1], o);
    }
  }

  lemma SomeKey(l: seq<Key>)
    ensures l == [] || exists k :: k in l
  {
    if l != [] { assert l[0] in l; }
  }

  /**
   Once an object has been invalidated everywhere, no page map of any address tree holds a
   page of it, whatever else happens, until a fault goes through a slot that names it.
   */
  lemma StaysGone(trace: seq<State>, ops: seq<Op>, i: nat, j: nat, o: nat, p: Place)
    requires IsRun(trace, ops) && i < j <= |ops| && ops[i] == InvalidateOp(o, 0) && Sound(trace[i]) && Sound(trace[j])
    requires forall k :: i < k < j ==> !Maps(trace[k], ops[k], o)
    ensures p in trace[j].pages ==> trace[j].pages[p] != o
    ensures ListOf(trace[j], o) == []
  {
    InvalidatedGone(trace[i], o);
    UnmappedStays(trace, ops, i + 1, j, o);
    assert p in trace[j].pages ==> Backed(trace[j], p, trace[j].pages[p]);
    var l := ListOf(trace[j], o);
    assert forall k :: k in l ==> k in trace[j].recs && trace[j].recs[k].obj == o;
    SomeKey(l);
  }
}
