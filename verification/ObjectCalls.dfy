/**
 The calls and scans of kern/kern/share.c and kern/kern/kobj.c on the shared state, and
 whole runs of them over any number of CPUs.
 */
module ObjectCalls {
  import opened ObjectLife

  datatype Result =
    | Ok
    | Inval
    | NotFound
    | Waits(e: nat)     // spins until others check the entry in
    | Panic             // a failed assertion
    | Fault             // a corrupted list or a dangling pointer

  predicate IsListed(gc: seq<seq<nat>>, o: nat) {
    exists c :: 0 <= c < |gc| && o in gc[c]
  }

  lemma ListedSomewhere(s: State, o: nat)
    ensures o in Listed(s) <==> IsListed(s.gc, o)
  {
    if o in Listed(s) {
      var c := SumFound(s.gc, Bag, o);
      assert o in s.gc[c];
    }
    if IsListed(s.gc, o) {
      var c :| 0 <= c < |s.gc| && o in s.gc[c];
      SumHas(s.gc, Bag, c);
      assert o in Bag(s.gc[c]);
    }
  }

  /** Some queued removal is of an entry of share h. */
  predicate HasRemovals(s: State, h: nat) {
    exists c, i :: 0 <= c < |s.rm| && 0 <= i < |s.rm[c]| && RemovalOf(s, c, i, h)
  }

  predicate RemovalOf(s: State, c: nat, i: nat, h: nat)
    requires c < |s.rm| && i < |s.rm[c]|
  {
    s.rm[c][i] < |s.infos| && s.infos[s.rm[c][i]].share == h
  }

  lemma NoRemovals(s: State, h: nat)
    requires !HasRemovals(s, h)
    ensures forall e :: 0 <= e < |s.infos| && s.infos[e].share == h ==> TotalsOf(s).rm[e] == 0
  {
    forall e | 0 <= e < |s.infos| && s.infos[e].share == h ensures e !in Removals(s) {
      if e in Removals(s) {
        var c := SumFound(s.rm, Bag, e);
        var i :| 0 <= i < |s.rm[c]| && s.rm[c][i] == e;
        assert RemovalOf(s, c, i, h);
        assert false;
      }
    }
  }

  /** The objects not yet freed. */
  ghost function Alive(s: State): set<nat> {
    set o: nat | o < |s.objs| && !s.objs[o].freed
  }

  class Objects {
    var s: State

    ghost predicate Valid()
      reads this
    {
      Inv(s, {})
    }

    constructor (cpus: nat)
      ensures Valid() && s == State([], [], seq(cpus, _ => []), seq(cpus, _ => []), seq(cpus, _ => []), multiset{})
    {
      s := State([], [], seq(cpus, _ => []), seq(cpus, _ => []), seq(cpus, _ => []), multiset{});
      NothingYet(cpus);
    }

    /** kobject_alloc: a new object is listed for collection until somebody refers to it. */
    method Alloc(kind: Kind, mask: set<Kind>, cpu: nat) returns (o: nat)
      requires Valid() && cpu < |s.gc|
      modifies this
      ensures Valid() && o == old(|s.objs|) && s == Created(old(s), kind, mask, cpu)
    {
      o := |s.objs|;
      CreatedTotals(s, kind, mask, cpu);
      CreatedFine(s.objs, s.infos, TotalsOf(s), Obj(kind, mask, 0, false, map[]));
      s := Created(s, kind, mask, cpu);
    }

    /** share_import_obj. */
    method Import(h: nat, o: nat) returns (r: Result)
      requires Valid() && h < |s.objs| && o < |s.objs| && s.objs[h].kind == Share && !s.objs[h].freed
               && !s.objs[o].freed
      modifies this
      ensures Valid() && s == if r == Ok then Imported(old(s), h, o) else old(s)
      ensures r == if old(s.objs[o].kind in s.objs[h].mask) then Ok else Inval
    {
      hide TotalsOf, AllFine;
      if s.objs[o].kind !in s.objs[h].mask {
        return Inval;
      }
      if o in s.objs[h].held {
        EntryOf(s, h, o);
        var e := s.objs[h].held[o];
        RecountedTotals(s, e, 1);
        RecountedFine(s.objs, s.infos, TotalsOf(s), e, 1);
        s := Recounted(s, e, 1);
      } else {
        TotalsInRange(s);
        ImportedNewTotals(s, h, o);
        ImportedNewFine(s.objs, s.infos, TotalsOf(s), h, o);
        TotalsRefs(s);
        s := ImportedNew(s, h, o);
      }
      return Ok;
    }

    /** share_co_obj: checks the object out until this CPU's next scan; no kind stands for any. */
    method CheckOut(h: nat, o: nat, any: bool, kind: Kind, cpu: nat) returns (r: Result)
      requires Valid() && h < |s.objs| && cpu < |s.ci|
      modifies this
      ensures Valid() && s == if r == Ok then CheckOutAt(old(s), h, o, cpu) else old(s)
      ensures r == NotFound <==> o !in old(s.objs[h].held)
      ensures r != NotFound ==> o < |s.objs| && r == if any || old(s.objs)[o].kind == kind then Ok else Inval
      ensures r == Ok ==> !s.objs[o].freed
    {
      hide TotalsOf, AllFine;
      if o !in s.objs[h].held {
        return NotFound;
      }
      EntryOf(s, h, o);
      if s.objs[o].kind != kind && !any {
        return Inval;
      }
      var e := s.objs[h].held[o];
      CheckedOutTotals(s, e, cpu);
      CheckedOutFine(s.objs, s.infos, TotalsOf(s), e);
      TotalsRefs(s);
      s := CheckedOut(s, e, cpu);
      return Ok;
    }

    /** share_remove_obj: the last import undone takes the entry out of the map and queues the removal. */
    method Remove(h: nat, o: nat, cpu: nat) returns (r: Result)
      requires Valid() && h < |s.objs| && cpu < |s.rm|
      modifies this
      ensures Valid() && s == if r == Ok then RemoveAt(old(s), h, o, cpu) else old(s)
      ensures r == if o in old(s.objs[h].held) then Ok else NotFound
    {
      hide TotalsOf, AllFine;
      if o !in s.objs[h].held {
        return NotFound;
      }
      EntryOf(s, h, o);
      var e := s.objs[h].held[o];
      if s.infos[e].cnt != 1 {
        RecountedTotals(s, e, -1);
        RecountedFine(s.objs, s.infos, TotalsOf(s), e, -1);
        s := Recounted(s, e, -1);
      } else {
        RemovedTotals(s, h, o, cpu);
        RemovedFine(s.objs, s.infos, TotalsOf(s), h, o);
        TotalsRefs(s);
        s := Removed(s, h, o, cpu);
      }
      return Ok;
    }

    /** kobject_incref by a holder of the object. */
    method Pin(o: nat)
      requires Valid() && o < |s.objs| && !s.objs[o].freed
      modifies this
      ensures Valid() && s == Counted(old(s), o, old(s).pins + multiset{o}, 1)
    {
      hide TotalsOf, AllFine;
      PinnedTotals(s, o);
      PinnedFine(s.objs, s.infos, TotalsOf(s), o);
      TotalsRefs(s);
      s := Counted(s, o, s.pins + multiset{o}, 1);
    }

    /**
     kobject_decref.  The assertion that the count is not zero never fires.  Dropping the
     last reference lists the object; this corrupts the lists exactly when it is listed already.
     */
    method Decref(o: nat, cpu: nat, ghost exempt: set<nat>) returns (r: Result)
      requires Inv(s, exempt) && o in s.pins && cpu < |s.gc|
      requires forall x :: x in exempt ==> x < |s.objs| && s.objs[x].ref == 0
      modifies this
      ensures o < |old(s).objs| && old(s.objs)[o].ref > 0
      ensures r == if old(s.objs)[o].ref == 1 && IsListed(old(s).gc, o) then Fault else Ok
      ensures r == Fault ==> s == old(s)
      ensures r == Ok ==> Inv(s, exempt) && s == Dropped(old(s), o, cpu)
    {
      hide TotalsOf, AllFine, SumOf;
      Countable(s, o, exempt);
      ListedSomewhere(s, o);
      TotalsRefs(s);
      UnpinnedTotals(s, o);
      UnpinnedFine(s.objs, s.infos, TotalsOf(s), o, exempt);
      if s.objs[o].ref != 1 {
        s := Counted(s, o, s.pins - multiset{o}, -1);
        return Ok;
      }
      if IsListed(s.gc, o) {
        return Fault;
      }
      CollectTotals(Counted(s, o, s.pins - multiset{o}, -1), o, cpu);
      s := Dropped(s, o, cpu);
      return Ok;
    }

    /** The release of an explicit pin. */
    method Unpin(o: nat, cpu: nat) returns (r: Result)
      requires Valid() && o in s.pins && cpu < |s.gc|
      modifies this
      ensures o < |old(s).objs| && r == if old(s.objs)[o].ref == 1 && IsListed(old(s).gc, o) then Fault else Ok
      ensures r == Ok ==> Valid() && s == Dropped(old(s), o, cpu)
    {
      r := Decref(o, cpu, {});
    }

    /**
     share_action_scan.  Check-ins come first, so a removal that has to wait waits for other
     CPUs only.  The first n removals are carried out; the next one waits for a check-in or is
     the last reference to an object that is still listed.
     */
    method Scan(cpu: nat) returns (r: Result, ghost n: nat)
      requires Valid() && cpu < |s.ci|
      modifies this
      ensures cpu < |old(s).rm| && n <= |old(s).rm[cpu]| && ScanEnds(old(s), cpu, n, r)
      ensures r != Fault ==> Valid() && Scanned(old(s), s, cpu, n)
      ensures r.Waits? ==> OthersHave(s, cpu, r.e)
    {
      hide AllFine, TotalsOf, CheckedInAll, Removing, Clean, OthersHave;
      ghost var s0 := s;
      ScanCheckIns(cpu);
      ghost var s1, added := s, [];
      r, n, added := ScanRemovals(cpu);
      ScanWhole(s0, s1, s, cpu, n, added, r);
    }

    /**
     kobject_gc_scan: frees exactly the doomed objects.  It panics only where a doomed share
     has an entry checked out, and faults only where one has a removal queued, which would
     then point into freed memory, or gives up an object that is still listed.
     */
    method GcScan(cpu: nat) returns (r: Result)
      requires Valid() && cpu < |s.gc|
      modifies this
      ensures r == Ok ==> Valid() && Swept(old(s), s, cpu)
      ensures r != Ok ==> (r == Panic || r == Fault) && SweepFails(old(s), cpu, r)
      ensures r == Ok ==> forall o :: Doomed(old(s), cpu, o) ==> !TrappedElsewhere(old(s), cpu, o)
      ensures SettledHere(old(s), cpu) ==>
                (r == Ok <==> forall o :: Doomed(old(s), cpu, o) ==> Harmless(old(s), o) && !Trapped(old(s), o))
    {
      hide AllFine, TotalsOf, Sweeping, Alive, FreedOne, Harmless, Doomed, SweepFails, SettledHere, TrappedElsewhere;
      hide Trapped;
      ghost var s0, order := s, [];
      SweepStart(s, cpu);
      while s.gc[cpu] != []
        invariant Valid() && cpu < |s.gc| && Sweeping(s0, s, cpu, order)
        decreases Alive(s), |s.gc[cpu]|
      {
        var o := s.gc[cpu][0];
        UnlistedTotals(s, cpu);
        TotalsRefs(s);
        UnlistedFine(s.objs, s.infos, TotalsOf(s), o);
        ghost var s1 := s;
        CountsFrom(s, o);
        s := s.(gc := s.gc[cpu := s.gc[cpu][1..]]);
        AliveSame(s1, s);
        if s.objs[o].ref == 0 {
          NextDoomed(s0, s1, cpu, order, o);
          ghost var added := [];
          r, added := Free(o, cpu);
          if r != Ok {
            FailsAt(s0, s1, cpu, order, o, r);
            HereFails(s0, cpu, r);
            return;
          }
          AllCounts(s);
          SweepFree(s0, s1, s, cpu, order, o, added);
          order := order + [o];
        } else {
          SweepSkip(s0, s1, cpu, order, o);
        }
      }
      SweepDone(s0, s, cpu, order);
      NoneTrapped(s0, s, cpu, order);
      r := Ok;
    }

    /**
     The collection of one object that has been taken off the list.  It succeeds exactly when
     all entries can go and no removal is queued.
     */
    method Free(h: nat, cpu: nat) returns (r: Result, ghost added: seq<nat>)
      requires Inv(s, {h}) && h < |s.objs| && s.objs[h].ref == 0 && !s.objs[h].freed && cpu < |s.gc|
      modifies this
      ensures r == Ok <==> Releasable(old(s), h) && !HasRemovals(old(s), h)
      ensures r == Panic ==> EntryOut(old(s), h)
      ensures r == Fault ==> EntryLast(old(s), h) || HasRemovals(old(s), h)
      ensures r == Ok ==> Valid() && FreedOne(old(s), s, h, cpu, added)
      ensures r == Ok || r == Panic || r == Fault
    {
      hide AllFine, TotalsOf, HasRemovals, Releasable, EntryOut, EntryLast;
      ghost var s0 := s;
      r, added := DropEntries(h, cpu);
      if r != Ok {
        return;
      }
      SameRemovals(s0, s, h);
      if HasRemovals(s, h) {
        return Fault, added;
      }
      NoRemovals(s, h);
      FreedTotals(s, h);
      FreedFine(s.objs, s.infos, TotalsOf(s), h);
      s := s.(objs := s.objs[h := s.objs[h].(freed := true)]);
    }

    /**
     share_gc_cb: a share being collected gives up its entries.  It fails an assertion on one
     that is checked out, and corrupts the lists on the last reference to a listed object.
     */
    method DropEntries(h: nat, cpu: nat) returns (r: Result, ghost added: seq<nat>)
      requires Inv(s, {h}) && h < |s.objs| && s.objs[h].ref == 0 && cpu < |s.gc|
      modifies this
      ensures r == Ok <==> Releasable(old(s), h)
      ensures r == Panic ==> EntryOut(old(s), h)
      ensures r == Fault ==> EntryLast(old(s), h)
      ensures r == Ok ==> Inv(s, {h}) && Releasing(old(s), s, h, cpu, old(s).objs[h].held.Keys, added)
      ensures r == Ok ==> h < |s.objs| && s.objs[h].ref == 0 && s.objs[h].held == map[]
      ensures r == Ok || r == Panic || r == Fault
    {
      hide AllFine, TotalsOf, Releasing, Droppable;
      ghost var s0, done := s, {};
      added := [];
      ReleasingStart(s, h, cpu);
      while s.objs[h].held != map[]
        invariant h < |s.objs| && Inv(s, {h}) && s.objs[h].ref == 0 && cpu < |s.gc|
        invariant Releasing(s0, s, h, cpu, done, added) && forall o :: o in done ==> Droppable(s0, h, o)
        decreases |s.objs[h].held|
      {
        var o :| o in s.objs[h].held;
        EntryGoneFine(s.objs, s.infos, TotalsOf(s), h, o);
        ReleasingFacts(s0, s, h, cpu, done, added, o);
        if s.infos[s.objs[h].held[o]].co != 0 {
          return Panic, added;
        }
        ghost var s1 := s;
        EntryGoneTotals(s, h, o);
        s := EntryGone(s, h, o);
        r := Decref(o, cpu, {h});
        if r == Fault {
          return;
        }
        ReleasingStep(s0, s1, s, h, cpu, done, added, o);
        added := if s1.objs[o].ref == 1 then [o] + added else added;
        done := done + {o};
      }
      ReleasingDone(s0, s, h, cpu, done, added);
      r := Ok;
    }

    /** The first half: every check-in of this CPU's queue; the assertion that si_co is not zero never fires. */
    method ScanCheckIns(cpu: nat)
      requires Valid() && cpu < |s.ci|
      modifies this
      ensures Valid() && CheckedInAll(old(s), s, cpu) && cpu < |s.ci| && s.ci[cpu] == []
    {
      hide AllFine, TotalsOf;
      ghost var s0 := s;
      while s.ci[cpu] != []
        invariant Valid() && |s.ci| == |s0.ci| && CheckingIn(s0, s, cpu)
        decreases |s.ci[cpu]|
      {
        FirstCheckIn(s, cpu);
        CheckedInTotals(s, cpu);
        TotalsRefs(s);
        CheckedInFine(s.objs, s.infos, TotalsOf(s), s.ci[cpu][0]);
        assert s.infos[s.ci[cpu][0]].co != 0;
        CheckingInStep(s0, s, cpu);
        s := CheckedIn(s, cpu);
      }
    }

    /** One queued removal, once nobody has the entry checked out. */
    method ScanRemoval(cpu: nat) returns (r: Result)
      requires Valid() && cpu < |s.rm| && s.rm[cpu] != [] && s.rm[cpu][0] < |s.infos| && s.infos[s.rm[cpu][0]].co == 0
      modifies this
      ensures r == if LastListed(old(s), old(s.infos[s.rm[cpu][0]].obj)) then Fault else Ok
      ensures r == Ok ==> Valid() && RemovedOne(old(s), s, cpu)
    {
      hide AllFine, TotalsOf;
      var e := s.rm[cpu][0];
      ghost var s0 := s;
      FirstRemoval(s, cpu);
      TakenUpTotals(s, cpu);
      TotalsRefs(s);
      TakenUpFine(s.objs, s.infos, TotalsOf(s), e);
      s := TakenUp(s, cpu);
      r := Decref(s.infos[e].obj, cpu, {});
      assert s0.pins + multiset{s0.infos[e].obj} - multiset{s0.infos[e].obj} == s0.pins;
    }

    /** The second half: the queued removals, up to one that waits or corrupts the lists. */
    method ScanRemovals(cpu: nat) returns (r: Result, ghost n: nat, ghost added: seq<nat>)
      requires Valid() && cpu < |s.ci| && s.ci[cpu] == []
      modifies this
      ensures cpu < |old(s).rm| && n <= |old(s).rm[cpu]| && ScanEnds(old(s), cpu, n, r)
      ensures r != Fault ==> Valid() && Removing(old(s), s, cpu, n, added)
      ensures r.Waits? ==> OthersHave(s, cpu, r.e)
    {
      hide AllFine, TotalsOf, OthersHave, Removing, Clean, LastListed;
      ghost var s0 := s;
      n, added := 0, [];
      RemovingStart(s, cpu);
      while s.rm[cpu] != []
        invariant Valid() && n <= |s0.rm[cpu]| && cpu < |s.rm| == |s0.rm| && s.rm[cpu] == s0.rm[cpu][n..]
        invariant Removing(s0, s, cpu, n, added) && s.infos == s0.infos && s.ci == s0.ci
        invariant forall i :: 0 <= i < n ==> Clean(s0, cpu, i)
        decreases |s.rm[cpu]|
      {
        FirstRemoval(s, cpu);
        var e := s.rm[cpu][0];
        RemovingFacts(s0, s, cpu, n, added);
        if s.infos[e].co != 0 {
          WaitsForOthers(s, cpu, e);
          return Waits(e), n, added;
        }
        ghost var s1 := s;
        r := ScanRemoval(cpu);
        if r == Fault {
          return;
        }
        RemovingStep(s0, s1, s, cpu, n, added);
        added := if s1.objs[s1.infos[e].obj].ref == 1 then [s1.infos[e].obj] + added else added;
        n := n + 1;
      }
      r := Ok;
    }
  }

  /** The object has one reference left and is still listed for collection. */
  predicate LastListed(s: State, o: nat) {
    o < |s.objs| && s.objs[o].ref == 1 && IsListed(s.gc, o)
  }

  /** Some other CPU has yet to check the entry in. */
  ghost predicate OthersHave(s: State, cpu: nat, e: nat) {
    exists c :: 0 <= c < |s.ci| && c != cpu && e in s.ci[c]
  }

  // Scanning the queues.

  /** Part of this CPU's check-ins have been done. */
  ghost predicate CheckingIn(s: State, s': State, cpu: nat) {
    && cpu < |s.ci| == |s'.ci| && |s'.infos| == |s.infos|
    && s' == s.(infos := s'.infos, ci := s.ci[cpu := s'.ci[cpu]])
    && forall e :: 0 <= e < |s.infos| ==>
         s'.infos[e] == s.infos[e].(co := s.infos[e].co - multiset(s.ci[cpu])[e] + multiset(s'.ci[cpu])[e])
  }

  /** All of this CPU's check-ins have been done: each entry has as many check-outs fewer as were queued. */
  ghost predicate CheckedInAll(s: State, s': State, cpu: nat) {
    CheckingIn(s, s', cpu) && s'.ci[cpu] == []
  }

  lemma CheckingInStep(s0: State, s: State, cpu: nat)
    requires cpu < |s.ci| && s.ci[cpu] != [] && s.ci[cpu][0] < |s.infos| && CheckingIn(s0, s, cpu)
    ensures CheckingIn(s0, CheckedIn(s, cpu), cpu)
  {
    var l := s.ci[cpu];
    assert l == [l[0]] + l[1..];
  }

  /** The object of the i-th removal queued on this CPU. */
  ghost function Target(s: State, cpu: nat, i: nat): nat
    requires cpu < |s.rm| && i < |s.rm[cpu]|
  {
    ObjAt(s.infos, s.rm[cpu][i])
  }

  /** The entry of the i-th removal is checked out by others. */
  ghost predicate Blocked(s: State, cpu: nat, i: nat)
    requires cpu < |s.rm| && i < |s.rm[cpu]| && cpu < |s.ci|
  {
    var e := s.rm[cpu][i];
    e < |s.infos| && s.infos[e].co > multiset(s.ci[cpu])[e]
  }

  /** The i-th removal drops the last reference to its object, which is still listed for collection. */
  ghost predicate LastOne(s: State, cpu: nat, i: nat)
    requires cpu < |s.rm| && i < |s.rm[cpu]|
  {
    var o := Target(s, cpu, i);
    o < |s.objs| && s.objs[o].ref == Objs(s.rm[cpu][..i + 1], s.infos)[o] && IsListed(s.gc, o)
  }

  ghost predicate Clean(s: State, cpu: nat, i: nat)
    requires cpu < |s.rm| && i < |s.rm[cpu]| && cpu < |s.ci|
  {
    !Blocked(s, cpu, i) && !LastOne(s, cpu, i)
  }

  /** How a scan ends: after the n removals before the first that is not clean. */
  ghost predicate ScanEnds(s: State, cpu: nat, n: nat, r: Result)
    requires cpu < |s.rm| && n <= |s.rm[cpu]| && cpu < |s.ci|
  {
    && (forall i :: 0 <= i < n ==> Clean(s, cpu, i))
    && match r
       case Ok => n == |s.rm[cpu]|
       case Waits(e) => n < |s.rm[cpu]| && Blocked(s, cpu, n) && e == s.rm[cpu][n]
       case Fault => n < |s.rm[cpu]| && !Blocked(s, cpu, n) && LastOne(s, cpu, n)
       case _ => false
  }

  /** One removal has been carried out: the object has a reference fewer, and with the last it is listed. */
  ghost predicate RemovedOne(s: State, s': State, cpu: nat)
    requires cpu < |s.rm| && s.rm[cpu] != []
  {
    var o := Target(s, cpu, 0);
    && o < |s.objs| && cpu < |s.gc| && s.objs[o].ref > 0
    && s' == s.(rm := s.rm[cpu := s.rm[cpu][1..]],
                objs := s.objs[o := s.objs[o].(ref := s.objs[o].ref - 1)],
                gc := if s.objs[o].ref == 1 then s.gc[cpu := [o] + s.gc[cpu]] else s.gc)
  }

  /** The objects added have been put in front of this CPU's collection list. */
  ghost predicate Pushed(gc: seq<seq<nat>>, gc': seq<seq<nat>>, cpu: nat, added: seq<nat>) {
    cpu < |gc| && gc' == gc[cpu := added + gc[cpu]]
  }

  lemma PushedMore(gc: seq<seq<nat>>, gc1: seq<seq<nat>>, cpu: nat, added: seq<nat>, o: nat)
    requires Pushed(gc, gc1, cpu, added)
    ensures cpu < |gc1| && Pushed(gc, gc1[cpu := [o] + gc1[cpu]], cpu, [o] + added)
  {
    assert [o] + (added + gc[cpu]) == [o] + added + gc[cpu];
  }

  /** Each object has lost as many references as it was removed. */
  ghost predicate LessRefs(objs: seq<Obj>, objs': seq<Obj>, gone: multiset<nat>) {
    && |objs'| == |objs|
    && forall o :: 0 <= o < |objs| ==> objs'[o] == objs[o].(ref := objs[o].ref - gone[o])
  }

  lemma LessRefsMore(objs: seq<Obj>, objs1: seq<Obj>, gone: multiset<nat>, o: nat)
    requires LessRefs(objs, objs1, gone) && o < |objs|
    ensures LessRefs(objs, objs1[o := objs1[o].(ref := objs1[o].ref - 1)], gone + multiset{o})
  {
  }

  ghost predicate LostLast(objs: seq<Obj>, objs': seq<Obj>, added: seq<nat>)
    requires |objs'| == |objs|
  {
    forall o :: o in added <==> 0 <= o < |objs| && objs[o].ref > 0 && objs'[o].ref == 0
  }

  lemma LostLastMore(objs: seq<Obj>, objs1: seq<Obj>, added: seq<nat>, o: nat)
    requires o < |objs| == |objs1| && LostLast(objs, objs1, added) && 0 < objs1[o].ref <= objs[o].ref
    ensures LostLast(objs, objs1[o := objs1[o].(ref := objs1[o].ref - 1)],
                     if objs1[o].ref == 1 then [o] + added else added)
  {
  }

  /** The first n removals have been carried out; added are the objects that lost their last reference. */
  ghost predicate Removing(s: State, s': State, cpu: nat, n: nat, added: seq<nat>) {
    && cpu < |s.rm| && n <= |s.rm[cpu]|
    && s'.infos == s.infos && s'.ci == s.ci && s'.pins == s.pins && s'.rm == s.rm[cpu := s.rm[cpu][n..]]
    && Pushed(s.gc, s'.gc, cpu, added)
    && LessRefs(s.objs, s'.objs, Objs(s.rm[cpu][..n], s.infos)) && LostLast(s.objs, s'.objs, added)
  }

  lemma RemovingStart(s: State, cpu: nat)
    requires cpu < |s.rm| && cpu < |s.gc|
    ensures Removing(s, s, cpu, 0, [])
  {
    assert s.rm[cpu][0..] == s.rm[cpu] && s.rm[cpu][..0] == [] && [] + s.gc[cpu] == s.gc[cpu];
  }

  lemma {:induction false} ObjsAppend(l: seq<nat>, e: nat, infos: seq<Info>)
    ensures Objs(l + [e], infos) == Objs(l, infos) + multiset{ObjAt(infos, e)}
  {
    if l != [] {
      ObjsAppend(l[1..], e, infos);
      assert (l + [e])[1..] == l[1..] + [e];
    } else {
      assert [] + [e] == [e];
    }
  }

  /** What the state during a scan says about the next removal, in terms of the state before it. */
  lemma RemovingFacts(s0: State, s: State, cpu: nat, n: nat, added: seq<nat>)
    requires Inv(s, {}) && Removing(s0, s, cpu, n, added) && n < |s0.rm[cpu]| && cpu < |s0.ci| && s0.ci[cpu] == []
    requires s0.rm[cpu][n] < |s0.infos|
    ensures s.rm[cpu] != [] && s.rm[cpu][0] == s0.rm[cpu][n] && s.infos == s0.infos && s.ci == s0.ci
    ensures Blocked(s0, cpu, n) <==> s.infos[s.rm[cpu][0]].co != 0
    ensures LastOne(s0, cpu, n) <==> LastListed(s, Target(s, cpu, 0))
    ensures Clean(s0, cpu, n) <==> !Blocked(s0, cpu, n) && !LastOne(s0, cpu, n)
    ensures s.rm[cpu][1..] == s0.rm[cpu][n + 1..]
  {
    var e, o := s0.rm[cpu][n], Target(s0, cpu, n);
    assert s0.rm[cpu][..n + 1] == s0.rm[cpu][..n] + [e];
    ObjsAppend(s0.rm[cpu][..n], e, s0.infos);
    assert EntryFine(s.objs, s.infos, TotalsOf(s), e);
    ListedSame(s0, s, cpu, added, o);
  }

  lemma ListedSame(s0: State, s: State, cpu: nat, added: seq<nat>, o: nat)
    requires Pushed(s0.gc, s.gc, cpu, added)
    ensures IsListed(s.gc, o) <==> IsListed(s0.gc, o) || o in added
  {
    if IsListed(s.gc, o) {
      var c :| 0 <= c < |s.gc| && o in s.gc[c];
      assert c == cpu ==> o in added || o in s0.gc[cpu];
    }
    if IsListed(s0.gc, o) {
      var c :| 0 <= c < |s0.gc| && o in s0.gc[c];
      assert o in s.gc[c];
    }
    assert o in added ==> o in s.gc[cpu];
  }

  lemma RemovingStep(s0: State, s1: State, s2: State, cpu: nat, n: nat, added: seq<nat>)
    requires Removing(s0, s1, cpu, n, added) && n < |s0.rm[cpu]| && s1.rm[cpu] != [] && RemovedOne(s1, s2, cpu)
    ensures var o := Target(s1, cpu, 0);
            Removing(s0, s2, cpu, n + 1, if s1.objs[o].ref == 1 then [o] + added else added)
  {
    var o, l := Target(s1, cpu, 0), s0.rm[cpu];
    assert s1.objs[o].ref <= s0.objs[o].ref;
    hide Objs, Target, Pushed, LessRefs, LostLast;
    RestNext(s0.rm, cpu, n);
    PushedMore(s0.gc, s1.gc, cpu, added, o);
    LessRefsMore(s0.objs, s1.objs, Objs(l[..n], s0.infos), o);
    LostLastMore(s0.objs, s1.objs, added, o);
    ObjsAppend(l[..n], l[n], s0.infos);
    TargetIs(s1, cpu);
  }

  lemma RestNext(rm: seq<seq<nat>>, cpu: nat, n: nat)
    requires cpu < |rm| && n < |rm[cpu]|
    ensures var l, rm1 := rm[cpu], rm[cpu := rm[cpu][n..]];
            && l[..n + 1] == l[..n] + [l[n]] && rm1[cpu][0] == l[n]
            && rm1[cpu := rm1[cpu][1..]] == rm[cpu := l[n + 1..]]
  {
    assert rm[cpu][n..][1..] == rm[cpu][n + 1..];
  }

  lemma TargetIs(s: State, cpu: nat)
    requires cpu < |s.rm| && s.rm[cpu] != []
    ensures Target(s, cpu, 0) == ObjAt(s.infos, s.rm[cpu][0])
  {
  }

  /** A whole scan of which n removals were carried out. */
  ghost predicate Scanned(s: State, s': State, cpu: nat, n: nat) {
    exists s1, added :: CheckedInAll(s, s1, cpu) && Removing(s1, s', cpu, n, added)
  }

  lemma ScanWhole(s0: State, s1: State, s: State, cpu: nat, n: nat, added: seq<nat>, r: Result)
    requires Inv(s0, {}) && CheckedInAll(s0, s1, cpu) && cpu < |s1.rm| && cpu < |s1.ci| && n <= |s1.rm[cpu]|
    requires ScanEnds(s1, cpu, n, r) && (r != Fault ==> Removing(s1, s, cpu, n, added))
    ensures cpu < |s0.rm| && n <= |s0.rm[cpu]| && ScanEnds(s0, cpu, n, r) && (r != Fault ==> Scanned(s0, s, cpu, n))
  {
    assert s1.rm == s0.rm && cpu < |s0.ci|;
    hide Blocked, LastOne, Clean, CheckedInAll, Removing, Inv;
    forall i | 0 <= i < |s0.rm[cpu]|
      ensures Blocked(s1, cpu, i) == Blocked(s0, cpu, i) && LastOne(s1, cpu, i) == LastOne(s0, cpu, i)
              && Clean(s1, cpu, i) == Clean(s0, cpu, i)
    {
      CleanSame(s0, s1, cpu, i);
    }
  }

  /** Checking in first does not change what a removal will meet. */
  lemma CleanSame(s0: State, s1: State, cpu: nat, i: nat)
    requires CheckedInAll(s0, s1, cpu) && cpu < |s0.rm| && i < |s0.rm[cpu]|
    ensures cpu < |s1.rm| && i < |s1.rm[cpu]| && cpu < |s1.ci| && cpu < |s0.ci|
    ensures Blocked(s1, cpu, i) == Blocked(s0, cpu, i) && LastOne(s1, cpu, i) == LastOne(s0, cpu, i)
    ensures Clean(s1, cpu, i) == Clean(s0, cpu, i)
  {
    hide IsListed;
    var l := s0.rm[cpu][..i + 1];
    forall j | 0 <= j < |l| ensures ObjAt(s0.infos, l[j]) == ObjAt(s1.infos, l[j]) {}
    ObjsSame(l, s0.infos, s1.infos);
  }

  // Collecting.

  /** Some entry of the share is checked out. */
  ghost predicate EntryOut(s: State, h: nat) {
    h < |s.objs| && exists o :: o in s.objs[h].held && OutAt(s, h, o)
  }

  ghost predicate OutAt(s: State, h: nat, o: nat)
    requires h < |s.objs| && o in s.objs[h].held
  {
    s.objs[h].held[o] < |s.infos| && s.infos[s.objs[h].held[o]].co != 0
  }

  /** Some entry that is not checked out is the last reference to an object still listed. */
  ghost predicate EntryLast(s: State, h: nat) {
    h < |s.objs| && exists o :: o in s.objs[h].held && !OutAt(s, h, o) && LastListed(s, o)
  }

  ghost predicate Droppable(s: State, h: nat, o: nat) {
    h < |s.objs| && o in s.objs[h].held && !OutAt(s, h, o) && !LastListed(s, o)
  }

  /** Every entry of the share can go. */
  ghost predicate Releasable(s: State, h: nat) {
    h < |s.objs| && forall o :: o in s.objs[h].held ==> Droppable(s, h, o)
  }

  /** An object with one reference fewer, and without some entries. */
  ghost function Less(x: Obj, fewer: bool, cut: set<nat>): Obj {
    x.(ref := x.ref - (if fewer then 1 else 0), held := x.held - cut)
  }

  ghost predicate Released(objs: seq<Obj>, objs': seq<Obj>, h: nat, done: set<nat>) {
    && |objs'| == |objs|
    && forall o :: 0 <= o < |objs| ==> objs'[o] == Less(objs[o], o in done, if o == h then done else {})
  }

  ghost predicate LastIn(objs: seq<Obj>, done: set<nat>, added: seq<nat>) {
    forall o :: o in added <==> o in done && 0 <= o < |objs| && objs[o].ref == 1
  }

  /** Share h has given up the entries of the objects in done; added are those that lost their last reference. */
  ghost predicate Releasing(s: State, s': State, h: nat, cpu: nat, done: set<nat>, added: seq<nat>) {
    && h < |s.objs| == |s'.objs| && done <= s.objs[h].held.Keys
    && s'.infos == s.infos && s'.ci == s.ci && s'.pins == s.pins && s'.rm == s.rm
    && Pushed(s.gc, s'.gc, cpu, added) && Released(s.objs, s'.objs, h, done) && LastIn(s.objs, done, added)
  }

  lemma LessTwice(x: Obj, fewer: bool, cut: set<nat>, o: nat)
    ensures Less(Less(x, fewer, cut), false, {o}) == Less(x, fewer, cut + {o})
    ensures Less(Less(x, false, cut), true, {}) == Less(x, true, cut)
    ensures Less(x, false, {}) == x && Less(x, fewer, {}).held == x.held
  {
    assert x.held - cut - {o} == x.held - (cut + {o}) && x.held - cut - {} == x.held - cut && x.held - {} == x.held;
  }

  lemma ReleasingStart(s: State, h: nat, cpu: nat)
    requires h < |s.objs| && cpu < |s.gc|
    ensures Releasing(s, s, h, cpu, {}, [])
  {
    assert s.objs[h].held - {} == s.objs[h].held && [] + s.gc[cpu] == s.gc[cpu];
  }

  /** What the next entry was like before the release began. */
  lemma ReleasingFacts(s0: State, s: State, h: nat, cpu: nat, done: set<nat>, added: seq<nat>, o: nat)
    requires Releasing(s0, s, h, cpu, done, added) && o in s.objs[h].held && s.objs[h].held[o] < |s.infos|
    ensures o in s0.objs[h].held && o !in done
    ensures OutAt(s0, h, o) <==> s.infos[s.objs[h].held[o]].co != 0
    ensures LastListed(s0, o) <==> LastListed(s, o)
    ensures Droppable(s0, h, o) <==> !OutAt(s0, h, o) && !LastListed(s0, o)
    ensures EntryGone(s, h, o).gc == s.gc && LastListed(EntryGone(s, h, o), o) == LastListed(s, o)
  {
    ListedSame(s0, s, cpu, added, o);
  }

  lemma ReleasingStep(s0: State, s1: State, s3: State, h: nat, cpu: nat, done: set<nat>, added: seq<nat>, o: nat)
    requires Releasing(s0, s1, h, cpu, done, added) && o in s1.objs[h].held && o < |s1.objs| && o != h
    requires s3 == Dropped(EntryGone(s1, h, o), o, cpu)
    ensures Releasing(s0, s3, h, cpu, done + {o}, if s1.objs[o].ref == 1 then [o] + added else added)
    ensures |s3.objs[h].held| < |s1.objs[h].held|
  {
    DroppedParts(s1, h, o, cpu);
    hide Dropped, EntryGone;
    assert o in s0.objs[h].held && o !in done && s1.objs[o].ref == s0.objs[o].ref;
    hide Less, Pushed, Released, LastIn;
    FewerKeys(s1.objs[h].held, o);
    ReleasedMore(s0.objs, s1.objs, h, done, o);
    LastInMore(s0.objs, done, added, o);
    PushedMore(s0.gc, s1.gc, cpu, added, o);
  }

  lemma LastInMore(objs: seq<Obj>, done: set<nat>, added: seq<nat>, o: nat)
    requires o < |objs| && o !in done && LastIn(objs, done, added)
    ensures LastIn(objs, done + {o}, if objs[o].ref == 1 then [o] + added else added)
  {
  }

  lemma DroppedParts(s: State, h: nat, o: nat, cpu: nat)
    requires h < |s.objs| && o in s.objs[h].held && o < |s.objs| && o != h && cpu < |s.gc|
    ensures var objs := s.objs[h := s.objs[h].(held := s.objs[h].held - {o})];
            Dropped(EntryGone(s, h, o), o, cpu) ==
            s.(objs := objs[o := objs[o].(ref := objs[o].ref - 1)],
               gc := if s.objs[o].ref == 1 then s.gc[cpu := [o] + s.gc[cpu]] else s.gc)
  {
    assert s.pins + multiset{o} - multiset{o} == s.pins;
  }

  lemma ReleasedMore(objs0: seq<Obj>, objs1: seq<Obj>, h: nat, done: set<nat>, o: nat)
    requires h < |objs0| && Released(objs0, objs1, h, done) && o < |objs0| && o != h && o !in done
    ensures var objs := objs1[h := objs1[h].(held := objs1[h].held - {o})];
            Released(objs0, objs[o := objs[o].(ref := objs[o].ref - 1)], h, done + {o})
  {
    var objs := objs1[h := objs1[h].(held := objs1[h].held - {o})];
    var objs' := objs[o := objs[o].(ref := objs[o].ref - 1)];
    forall x | 0 <= x < |objs0|
      ensures objs'[x] == Less(objs0[x], x in done + {o}, if x == h then done + {o} else {})
    {
      LessTwice(objs0[x], x in done, done, o);
      LessTwice(objs0[x], x in done, {}, o);
    }
  }

  lemma FewerKeys(m: map<nat, nat>, o: nat)
    requires o in m
    ensures |m - {o}| < |m|
  {
    assert (m - {o}).Keys == m.Keys - {o};
    assert |m.Keys| == |m|;
  }

  lemma ReleasingDone(s0: State, s: State, h: nat, cpu: nat, done: set<nat>, added: seq<nat>)
    requires Releasing(s0, s, h, cpu, done, added) && s.objs[h].held == map[]
    ensures done == s0.objs[h].held.Keys
  {
    var m := s0.objs[h].held;
    assert m - done == map[];
    assert forall o :: o in m && o !in done ==> o in m - done;
  }

  lemma SameRemovals(s: State, s': State, h: nat)
    requires s'.infos == s.infos && s'.rm == s.rm
    ensures HasRemovals(s', h) == HasRemovals(s, h)
  {
    forall c, i | 0 <= c < |s.rm| && 0 <= i < |s.rm[c]| ensures RemovalOf(s', c, i, h) == RemovalOf(s, c, i, h) {}
  }

  ghost predicate SameKind(x: Obj, y: Obj) {
    y.kind == x.kind && y.mask == x.mask
  }

  ghost predicate Stays(x: Obj, y: Obj) {
    y.held == x.held && y.freed == x.freed
  }

  ghost predicate Gone(y: Obj) {
    y.held == map[] && y.freed
  }

  /** Object h has been collected. */
  ghost predicate FreedOne(s: State, s': State, h: nat, cpu: nat, added: seq<nat>) {
    && h < |s.objs| == |s'.objs|
    && s'.infos == s.infos && s'.ci == s.ci && s'.pins == s.pins && s'.rm == s.rm && Pushed(s.gc, s'.gc, cpu, added)
    && (forall o :: 0 <= o < |s.objs| ==>
          && s'.objs[o].ref == s.objs[o].ref - (if o in s.objs[h].held then 1 else 0)
          && SameKind(s.objs[o], s'.objs[o])
          && if o == h then Gone(s'.objs[o]) else Stays(s.objs[o], s'.objs[o]))
    && (forall o :: o in added <==> o in s.objs[h].held && 0 <= o < |s.objs| && s.objs[o].ref == 1)
  }

  // What a collection scan frees.

  ghost function Holders(objs: seq<Obj>, o: nat): set<nat> {
    set h: nat | h < |objs| && o in objs[h].held
  }

  /** Listed on this CPU without references. */
  ghost predicate Root(s: State, cpu: nat, o: nat) {
    cpu < |s.gc| && o in s.gc[cpu] && o < |s.objs| && s.objs[o].ref == 0
  }

  /** Referred to by shares only, all of which go. */
  ghost predicate Orphan(s: State, o: nat, gone: seq<nat>) {
    && o < |s.objs| && 0 < s.objs[o].ref == |Holders(s.objs, o)|
    && forall h :: h in Holders(s.objs, o) ==> h in gone
  }

  /** An order in which the scan can free objects: each is a root, or was held only by shares freed before it. */
  ghost predicate FreeingOrder(s: State, cpu: nat, order: seq<nat>) {
    forall i :: 0 <= i < |order| ==> Root(s, cpu, order[i]) || Orphan(s, order[i], order[..i])
  }

  ghost predicate Doomed(s: State, cpu: nat, o: nat) {
    exists order :: FreeingOrder(s, cpu, order) && o in order
  }

  /** A doomed share that can be collected. */
  ghost predicate Harmless(s: State, h: nat) {
    !EntryOut(s, h) && !HasRemovals(s, h)
  }

  /** Referenced and listed: giving up the last reference would list it a second time. */
  ghost predicate Trapped(s: State, o: nat) {
    o < |s.objs| && s.objs[o].ref > 0 && IsListed(s.gc, o)
  }

  ghost predicate TrappedElsewhere(s: State, cpu: nat, o: nat) {
    o < |s.objs| && s.objs[o].ref > 0 && exists c :: 0 <= c < |s.gc| && c != cpu && o in s.gc[c]
  }

  /** No object that is referenced is on the list of this CPU. */
  ghost predicate SettledHere(s: State, cpu: nat) {
    cpu < |s.gc| && forall o :: o in s.gc[cpu] && o < |s.objs| ==> s.objs[o].ref == 0
  }

  /** Share h has the last entry of a trapped object, and it is not checked out. */
  ghost predicate GivesUpTrapped(s: State, cpu: nat, h: nat) {
    && h < |s.objs|
    && exists o :: o in s.objs[h].held && !OutAt(s, h, o) && Trapped(s, o) && Doomed(s, cpu, o)
  }

  /** How a collection scan fails. */
  ghost predicate SweepFails(s: State, cpu: nat, r: Result) {
    if r == Panic then exists h :: Doomed(s, cpu, h) && EntryOut(s, h)
    else exists h :: Doomed(s, cpu, h) && (HasRemovals(s, h) || GivesUpTrapped(s, cpu, h))
  }

  ghost function DoomedHolders(s: State, cpu: nat, o: nat): set<nat> {
    set h | h in Holders(s.objs, o) && Doomed(s, cpu, h)
  }

  /** A collection scan that succeeds frees exactly the doomed objects, all of them harmless. */
  ghost predicate Swept(s: State, s': State, cpu: nat) {
    && cpu < |s.gc| && |s'.objs| == |s.objs| && s' == s.(objs := s'.objs, gc := s.gc[cpu := []])
    && (forall o :: 0 <= o < |s.objs| ==>
          && s'.objs[o].ref == s.objs[o].ref - |DoomedHolders(s, cpu, o)|
          && SweptObj(s.objs[o], s'.objs[o], Doomed(s, cpu, o)))
    && (forall h :: Doomed(s, cpu, h) ==> Harmless(s, h))
  }

  /** Where a scan stands that has freed the objects of order. */
  ghost predicate Sweeping(s: State, s': State, cpu: nat, order: seq<nat>) {
    && cpu < |s.gc| == |s'.gc| && |s'.objs| == |s.objs| && s' == s.(objs := s'.objs, gc := s.gc[cpu := s'.gc[cpu]])
    && (forall o :: 0 <= o < |s.objs| ==> SweptObj(s.objs[o], s'.objs[o], o in order))
    && (forall o :: o in s'.gc[cpu] ==> o in s.gc[cpu] || (o < |s.objs| && s.objs[o].ref > 0 && s'.objs[o].ref == 0))
    && (forall o :: Root(s, cpu, o) ==> o in order || o in s'.gc[cpu])
    && (forall o :: 0 <= o < |s.objs| && s.objs[o].ref > 0 && s'.objs[o].ref == 0 ==> o in order || o in s'.gc[cpu])
    && (forall o :: 0 <= o < |s.objs| && s'.objs[o].ref == 0 ==> !TrappedElsewhere(s, cpu, o))
    && FreeingOrder(s, cpu, order) && (forall h :: h in order ==> h < |s.objs| && Harmless(s, h))
  }

  lemma SweepStart(s: State, cpu: nat)
    requires cpu < |s.gc|
    ensures Sweeping(s, s, cpu, [])
  {
  }

  lemma CountsFrom(s: State, o: nat)
    requires Inv(s, {}) && o < |s.objs|
    ensures s.objs[o].ref >= 0
  {
    assert ObjFine(s.objs, TotalsOf(s), {}, o);
  }

  lemma AllCounts(s: State)
    requires Inv(s, {})
    ensures forall o :: 0 <= o < |s.objs| ==> s.objs[o].ref >= 0
  {
    forall o | 0 <= o < |s.objs| ensures s.objs[o].ref >= 0 { CountsFrom(s, o); }
  }

  lemma AliveSame(s: State, s': State)
    requires s'.objs == s.objs
    ensures Alive(s') == Alive(s)
  {
  }

  lemma AliveFewer(s: State, s': State, h: nat)
    requires |s'.objs| == |s.objs| && h < |s.objs| && !s.objs[h].freed && s'.objs[h].freed
    requires forall o :: 0 <= o < |s.objs| && s.objs[o].freed ==> s'.objs[o].freed
    ensures Alive(s') < Alive(s)
  {
    assert h in Alive(s) && h !in Alive(s');
  }

  /** The references from other places than shares are what they were. */
  lemma OutsideRefs(s0: State, s1: State, cpu: nat, order: seq<nat>, o: nat)
    requires Inv(s0, {}) && Inv(s1, {}) && Sweeping(s0, s1, cpu, order) && o < |s0.objs|
    ensures o < |s1.objs| && s0.objs[o].ref - |Holders(s0.objs, o)| == s1.objs[o].ref - |Holders(s1.objs, o)| >= 0
    ensures forall h :: h in Holders(s0.objs, o) ==> h in order || h in Holders(s1.objs, o)
  {
    CountsMean(s0, o);
    CountsMean(s1, o);
    hide Inv, Harmless, FreeingOrder, SumOf, TrappedElsewhere;
    assert s1.rm == s0.rm && s1.infos == s0.infos && s1.pins == s0.pins;
    forall h | h in Holders(s0.objs, o) ensures h in order || h in Holders(s1.objs, o) {
      assert SweptObj(s0.objs[h], s1.objs[h], h in order);
    }
  }

  lemma FreeingMore(s: State, cpu: nat, order: seq<nat>, o: nat)
    requires FreeingOrder(s, cpu, order) && (Root(s, cpu, o) || Orphan(s, o, order))
    ensures FreeingOrder(s, cpu, order + [o]) && Doomed(s, cpu, o)
  {
    hide Root, Orphan;
    var order' := order + [o];
    forall i | 0 <= i < |order'| ensures Root(s, cpu, order'[i]) || Orphan(s, order'[i], order'[..i]) {
      assert order'[..i] == order[..i];
      assert i < |order| ==> Root(s, cpu, order[i]) || Orphan(s, order[i], order[..i]);
    }
    assert o in order';
  }

  /** An object on the list without references is the next to go. */
  lemma NextDoomed(s0: State, s1: State, cpu: nat, order: seq<nat>, o: nat)
    requires Inv(s0, {}) && Inv(s1, {}) && Sweeping(s0, s1, cpu, order) && o in s1.gc[cpu]
    requires o < |s1.objs| && s1.objs[o].ref == 0 && !s1.objs[o].freed
    ensures o !in order && FreeingOrder(s0, cpu, order + [o]) && Doomed(s0, cpu, o)
  {
    OutsideRefs(s0, s1, cpu, order, o);
    hide Inv, Harmless, FreeingOrder, Holders, TrappedElsewhere, Doomed;
    assert SweptObj(s0.objs[o], s1.objs[o], o in order);
    assert Root(s0, cpu, o) || Orphan(s0, o, order);
    FreeingMore(s0, cpu, order, o);
  }

  /** So is one whose last reference the object being freed holds. */
  lemma LastDoomed(s0: State, s1: State, cpu: nat, order: seq<nat>, o: nat, x: nat)
    requires Inv(s0, {}) && Inv(s1, {}) && Sweeping(s0, s1, cpu, order) && FreeingOrder(s0, cpu, order + [o])
    requires o < |s1.objs| && x in s1.objs[o].held && x < |s1.objs| && s1.objs[x].ref == 1
    ensures Doomed(s0, cpu, x) && s0.objs[x].ref > 0
  {
    OutsideRefs(s0, s1, cpu, order, x);
    assert o in Holders(s1.objs, x);
    hide Inv, Harmless, FreeingOrder, Holders, TrappedElsewhere, Doomed;
    OnlyOne(Holders(s1.objs, x), o);
    assert SweptObj(s0.objs[x], s1.objs[x], x in order);
    assert Orphan(s0, x, order + [o]);
    FreeingMore(s0, cpu, order + [o], x);
  }

  lemma OnlyOne(a: set<nat>, x: nat)
    requires x in a && |a| <= 1
    ensures a == {x}
  {
    assert |a - {x}| == 0;
  }

  lemma SweepSkip(s0: State, s1: State, cpu: nat, order: seq<nat>, o: nat)
    requires Sweeping(s0, s1, cpu, order) && s1.gc[cpu] != [] && o == s1.gc[cpu][0]
    requires o < |s1.objs| && s1.objs[o].ref > 0
    ensures Sweeping(s0, s1.(gc := s1.gc[cpu := s1.gc[cpu][1..]]), cpu, order)
  {
    hide Harmless, FreeingOrder, TrappedElsewhere;
    var l := s1.gc[cpu];
    assert l == [o] + l[1..];
  }

  lemma SweepFree(s0: State, s1: State, s2: State, cpu: nat, order: seq<nat>, o: nat, added: seq<nat>)
    requires Sweeping(s0, s1, cpu, order) && s1.gc[cpu] != [] && o == s1.gc[cpu][0]
             && FreeingOrder(s0, cpu, order + [o])
    requires o < |s1.objs| && s1.objs[o].ref == 0 && !s1.objs[o].freed && o !in order
    requires var s1' := s1.(gc := s1.gc[cpu := s1.gc[cpu][1..]]);
             FreedOne(s1', s2, o, cpu, added) && Releasable(s1', o) && !HasRemovals(s1', o)
    requires forall x :: 0 <= x < |s2.objs| ==> s2.objs[x].ref >= 0
    ensures cpu < |s2.gc| && Sweeping(s0, s2, cpu, order + [o]) && Alive(s2) < Alive(s1)
  {
    var s1' := s1.(gc := s1.gc[cpu := s1.gc[cpu][1..]]);
    SameRemovals(s0, s1', o);
    forall x | x in s0.objs[o].held ensures !OutAt(s0, o, x) { assert Droppable(s1', o, x); }
    assert Harmless(s0, o);
    AliveFewer(s1, s2, o);
    forall x | 0 <= x < |s0.objs| && s2.objs[x].ref == 0 ensures !TrappedElsewhere(s0, cpu, x) {
      if s1.objs[x].ref != 0 {
        assert Droppable(s1', o, x);
        NotTrapped(s0, s1', cpu, x);
      }
    }
    hide Harmless, FreeingOrder, Releasable, HasRemovals, Alive, Doomed, SameKind, Stays, Gone, Droppable;
    hide TrappedElsewhere;
    var l := s1.gc[cpu];
    assert l == [o] + l[1..];
    assert s2.gc[cpu] == added + l[1..];
    assert s2.gc == s0.gc[cpu := s2.gc[cpu]];
    forall x | 0 <= x < |s0.objs| ensures SweptObj(s0.objs[x], s2.objs[x], x in order + [o]) {
      assert SweptObj(s0.objs[x], s1.objs[x], x in order);
      SweptTwice(s0.objs[x], s1.objs[x], s2.objs[x], x in order);
    }
    forall x | x in s2.gc[cpu]
      ensures x in s0.gc[cpu] || (x < |s0.objs| && s0.objs[x].ref > 0 && s2.objs[x].ref == 0)
    {
      assert x in added || x in l;
    }
    forall x | Root(s0, cpu, x) ensures x in order + [o] || x in s2.gc[cpu] {
      assert x in order || x == o || x in l[1..];
    }
    forall x | 0 <= x < |s0.objs| && s0.objs[x].ref > 0 && s2.objs[x].ref == 0
      ensures x in order + [o] || x in s2.gc[cpu]
    {
      assert s1.objs[x].ref == 0 ==> x in order || x == o || x in l[1..];
      assert s1.objs[x].ref != 0 ==> x in added;
    }
  }

  lemma NotTrapped(s: State, s': State, cpu: nat, o: nat)
    requires cpu < |s.gc| == |s'.gc| && s'.gc == s.gc[cpu := s'.gc[cpu]] && !IsListed(s'.gc, o)
    ensures !TrappedElsewhere(s, cpu, o)
  {
    assert forall c :: 0 <= c < |s.gc| && c != cpu ==> s'.gc[c] == s.gc[c];
  }

  /** From x to y an object has lost no more than references, unless it has gone. */
  ghost predicate SweptObj(x: Obj, y: Obj, gone: bool) {
    y.ref <= x.ref && SameKind(x, y) && if gone then Gone(y) else Stays(x, y)
  }

  lemma SweptTwice(x: Obj, y: Obj, z: Obj, gone: bool)
    requires SweptObj(x, y, gone)
    ensures SweptObj(y, z, false) ==> SweptObj(x, z, gone)
    ensures SweptObj(y, z, true) ==> SweptObj(x, z, true)
  {
  }

  lemma FailsAt(s0: State, s1: State, cpu: nat, order: seq<nat>, o: nat, r: Result)
    requires Inv(s0, {}) && Inv(s1, {}) && Sweeping(s0, s1, cpu, order) && s1.gc[cpu] != []
    requires FreeingOrder(s0, cpu, order + [o]) && Doomed(s0, cpu, o) && o !in order && o < |s1.objs|
    requires var s1' := s1.(gc := s1.gc[cpu := s1.gc[cpu][1..]]);
             if r == Panic then EntryOut(s1', o) else EntryLast(s1', o) || HasRemovals(s1', o)
    ensures SweepFails(s0, cpu, r)
  {
    var s1' := s1.(gc := s1.gc[cpu := s1.gc[cpu][1..]]);
    SameRemovals(s0, s1', o);
    hide Inv, Doomed, FreeingOrder, Harmless, HasRemovals, TrappedElsewhere;
    if r == Panic {
      var x :| x in s1'.objs[o].held && OutAt(s1', o, x);
      assert OutAt(s0, o, x);
      assert EntryOut(s0, o);
    } else if EntryLast(s1', o) {
      var x :| x in s1'.objs[o].held && !OutAt(s1', o, x) && LastListed(s1', x);
      LastDoomed(s0, s1, cpu, order, o, x);
      var c :| 0 <= c < |s1'.gc| && x in s1'.gc[c];
      assert x in s1.gc[c] && x in s0.gc[c];
      assert Trapped(s0, x) && !OutAt(s0, o, x);
      assert GivesUpTrapped(s0, cpu, o);
    }
  }

  /** Once the list is empty, everything doomed has been freed. */
  lemma {:induction false} AllFreed(s0: State, s: State, cpu: nat, order: seq<nat>, other: seq<nat>, i: nat)
    requires Inv(s0, {}) && Inv(s, {}) && Sweeping(s0, s, cpu, order) && s.gc[cpu] == []
    requires FreeingOrder(s0, cpu, other) && i < |other|
    ensures other[i] in order
  {
    hide Inv;
    var o := other[i];
    assert Root(s0, cpu, o) || Orphan(s0, o, other[..i]);
    if !Root(s0, cpu, o) {
      forall h | h in Holders(s0.objs, o) ensures h in order {
        var j :| 0 <= j < i && other[j] == h;
        AllFreed(s0, s, cpu, order, other, j);
      }
      OutsideRefs(s0, s, cpu, order, o);
      NoHolders(s0, s, cpu, order, o);
    }
  }

  lemma NoHolders(s0: State, s: State, cpu: nat, order: seq<nat>, o: nat)
    requires Sweeping(s0, s, cpu, order) && forall h :: h in Holders(s0.objs, o) ==> h in order
    ensures Holders(s.objs, o) == {}
  {
    hide Harmless, FreeingOrder, TrappedElsewhere;
    forall h: nat ensures h !in Holders(s.objs, o) {
      assert h < |s0.objs| ==> SweptObj(s0.objs[h], s.objs[h], h in order);
    }
  }

  lemma SweepDone(s0: State, s: State, cpu: nat, order: seq<nat>)
    requires Inv(s0, {}) && Inv(s, {}) && cpu < |s.gc| && Sweeping(s0, s, cpu, order) && s.gc[cpu] == []
    ensures Swept(s0, s, cpu)
  {
    hide Doomed, Inv, Sweeping, SweptObj, DoomedHolders, Harmless;
    SweepFacts(s0, s, cpu, order);
    DoomedFreed(s0, s, cpu, order);
    forall o | 0 <= o < |s0.objs| ensures s.objs[o].ref == s0.objs[o].ref - |DoomedHolders(s0, cpu, o)| {
      RefsLeft(s0, s, cpu, order, o);
    }
  }

  lemma SweepFacts(s0: State, s: State, cpu: nat, order: seq<nat>)
    requires cpu < |s.gc| && Sweeping(s0, s, cpu, order) && s.gc[cpu] == []
    ensures cpu < |s0.gc| && |s.objs| == |s0.objs| && s == s0.(objs := s.objs, gc := s0.gc[cpu := []])
    ensures forall o :: 0 <= o < |s0.objs| ==> SweptObj(s0.objs[o], s.objs[o], o in order)
    ensures forall h :: h in order ==> Harmless(s0, h)
  {
    hide SweptObj, Harmless, FreeingOrder, Root;
  }

  lemma RefsLeft(s0: State, s: State, cpu: nat, order: seq<nat>, o: nat)
    requires Inv(s0, {}) && Inv(s, {}) && Sweeping(s0, s, cpu, order) && o < |s0.objs|
    requires forall h :: Doomed(s0, cpu, h) <==> h in order
    ensures s.objs[o].ref == s0.objs[o].ref - |DoomedHolders(s0, cpu, o)|
  {
    CountsMean(s0, o);
    CountsMean(s, o);
    HoldersSplit(s0, s, cpu, order, o);
    hide Inv, Doomed, DoomedHolders, Holders, FreeingOrder, Harmless, SumOf, Objs;
  }

  lemma DoomedFreed(s0: State, s: State, cpu: nat, order: seq<nat>)
    requires Inv(s0, {}) && Inv(s, {}) && Sweeping(s0, s, cpu, order) && s.gc[cpu] == []
    ensures forall o :: Doomed(s0, cpu, o) <==> o in order
  {
    forall o ensures Doomed(s0, cpu, o) <==> o in order {
      if Doomed(s0, cpu, o) {
        var other :| FreeingOrder(s0, cpu, other) && o in other;
        var i :| 0 <= i < |other| && other[i] == o;
        AllFreed(s0, s, cpu, order, other, i);
      }
    }
  }

  lemma HoldersSplit(s0: State, s: State, cpu: nat, order: seq<nat>, o: nat)
    requires Sweeping(s0, s, cpu, order) && forall h :: Doomed(s0, cpu, h) <==> h in order
    ensures |Holders(s0.objs, o)| == |Holders(s.objs, o)| + |DoomedHolders(s0, cpu, o)|
  {
    hide Doomed, FreeingOrder, Harmless;
    var a, b, c := Holders(s0.objs, o), Holders(s.objs, o), DoomedHolders(s0, cpu, o);
    assert a == b + c && b !! c;
  }

  /** Everything doomed has lost its last reference, and could be listed when it did. */
  lemma NoneTrapped(s0: State, s: State, cpu: nat, order: seq<nat>)
    requires Inv(s0, {}) && Inv(s, {}) && Sweeping(s0, s, cpu, order) && s.gc[cpu] == []
    ensures forall o :: Doomed(s0, cpu, o) ==> !TrappedElsewhere(s0, cpu, o)
    ensures SettledHere(s0, cpu) ==> forall o :: Doomed(s0, cpu, o) ==> !Trapped(s0, o)
  {
    DoomedFreed(s0, s, cpu, order);
    forall o | Doomed(s0, cpu, o) ensures !TrappedElsewhere(s0, cpu, o) && (SettledHere(s0, cpu) ==> !Trapped(s0, o)) {
      FreedHasNone(s0, s, cpu, order, o);
      if SettledHere(s0, cpu) { TrappedWhere(s0, cpu, o); }
    }
  }

  lemma TrappedWhere(s: State, cpu: nat, o: nat)
    requires SettledHere(s, cpu)
    ensures Trapped(s, o) ==> TrappedElsewhere(s, cpu, o)
  {
  }

  lemma FreedHasNone(s0: State, s: State, cpu: nat, order: seq<nat>, o: nat)
    requires Inv(s, {}) && Sweeping(s0, s, cpu, order) && o in order
    ensures o < |s.objs| && s.objs[o].ref == 0 && !TrappedElsewhere(s0, cpu, o)
  {
    hide Harmless, FreeingOrder, TrappedElsewhere, HeldFine, EntryFine;
    assert SweptObj(s0.objs[o], s.objs[o], true);
    assert ObjFine(s.objs, TotalsOf(s), {}, o);
  }

  /** Where no referenced object is on the list, the failure is certain from the start. */
  lemma HereFails(s: State, cpu: nat, r: Result)
    requires SweepFails(s, cpu, r)
    ensures exists o :: Doomed(s, cpu, o) && (!Harmless(s, o) || Trapped(s, o))
  {
    hide Doomed, HasRemovals, EntryOut, Trapped;
  }

  lemma FirstCheckIn(s: State, cpu: nat)
    requires Inv(s, {}) && cpu < |s.ci| && s.ci[cpu] != []
    ensures s.ci[cpu][0] < |s.infos|
  {
    SumHas(s.ci, Bag, cpu);
    assert s.ci[cpu][0] in Bag(s.ci[cpu]);
  }

  lemma FirstRemoval(s: State, cpu: nat)
    requires Inv(s, {}) && cpu < |s.rm| && s.rm[cpu] != []
    ensures s.rm[cpu][0] < |s.infos| && s.infos[s.rm[cpu][0]].obj < |s.objs|
  {
    SumHas(s.rm, Bag, cpu);
    assert s.rm[cpu][0] in Bag(s.rm[cpu]);
    assert EntryFine(s.objs, s.infos, TotalsOf(s), s.rm[cpu][0]);
  }

  lemma WaitsForOthers(s: State, cpu: nat, e: nat)
    requires Inv(s, {}) && cpu < |s.ci| && s.ci[cpu] == [] && e < |s.infos| && s.infos[e].co != 0
    ensures OthersHave(s, cpu, e)
  {
    assert EntryFine(s.objs, s.infos, TotalsOf(s), e);
    var c := SumFound(s.ci, Bag, e);
    assert e in s.ci[c];
  }

  function Imported(s: State, h: nat, o: nat): State
    requires h < |s.objs| && o < |s.objs|
  {
    if o in s.objs[h].held && s.objs[h].held[o] < |s.infos| then Recounted(s, s.objs[h].held[o], 1)
        else ImportedNew(s, h, o)
  }

  function CheckOutAt(s: State, h: nat, o: nat, cpu: nat): State
    requires h < |s.objs| && cpu < |s.ci|
  {
    if o in s.objs[h].held && s.objs[h].held[o] < |s.infos| then CheckedOut(s, s.objs[h].held[o], cpu) else s
  }

  function RemoveAt(s: State, h: nat, o: nat, cpu: nat): State
    requires h < |s.objs| && cpu < |s.rm|
  {
    if o in s.objs[h].held && s.objs[h].held[o] < |s.infos| then
      if s.infos[s.objs[h].held[o]].cnt != 1 then Recounted(s, s.objs[h].held[o], -1) else Removed(s, h, o, cpu)
    else s
  }

  function Dropped(s: State, o: nat, cpu: nat): State
    requires o < |s.objs| && cpu < |s.gc|
  {
    var s' := Counted(s, o, s.pins - multiset{o}, -1);
    if s.objs[o].ref == 1 then s'.(gc := s.gc[cpu := [o] + s.gc[cpu]]) else s'
  }

  lemma CollectTotals(s: State, o: nat, cpu: nat)
    requires cpu < |s.gc|
    ensures TotalsOf(s.(gc := s.gc[cpu := [o] + s.gc[cpu]])) == TotalsOf(s).(gc := Listed(s) + multiset{o})
  {
    hide SumOf;
    PushBag(s.gc, cpu, o);
  }

  lemma Countable(s: State, o: nat, exempt: set<nat>)
    requires Inv(s, exempt) && o in s.pins && forall x :: x in exempt ==> x < |s.objs| && s.objs[x].ref == 0
    ensures o < |s.objs| && s.objs[o].ref > 0 && o !in exempt && o in Refs(s)
  {
    assert o in Refs(s);
    assert ObjFine(s.objs, TotalsOf(s), exempt, o);
  }

  lemma NothingYet(cpus: nat)
    ensures Inv(State([], [], seq(cpus, _ => []), seq(cpus, _ => []), seq(cpus, _ => []), multiset{}), {})
  {
    var ls: seq<seq<nat>> := seq(cpus, _ => []);
    EmptySum(ls);
    TargetsEmpty(ls);
  }

  lemma {:induction false} EmptySum(ls: seq<seq<nat>>)
    requires forall c :: 0 <= c < |ls| ==> ls[c] == []
    ensures SumOf(ls, Bag) == multiset{}
  {
    if ls != [] { EmptySum(ls[..|ls| - 1]); }
  }

  lemma {:induction false} TargetsEmpty(ls: seq<seq<nat>>)
    requires forall c :: 0 <= c < |ls| ==> ls[c] == []
    ensures SumOf(ls, Targets([])) == multiset{}
  {
    if ls != [] { TargetsEmpty(ls[..|ls| - 1]); }
  }

  lemma EntryOf(s: State, h: nat, o: nat)
    requires Inv(s, {}) && h < |s.objs| && o in s.objs[h].held
    ensures var e := s.objs[h].held[o];
            && e < |s.infos| && s.infos[e].cnt >= 1 && InMap(s.objs, s.infos, e) && s.infos[e].obj == o
               && s.infos[e].share == h
            && o < |s.objs| && !s.objs[o].freed
  {
    assert HeldFine(s.objs, s.infos, TotalsOf(s), h, o);
    assert EntryFine(s.objs, s.infos, TotalsOf(s), s.objs[h].held[o]);
    SumHas(s.objs, Keys, h);
    assert o in Keys(s.objs[h]);
    assert ObjFine(s.objs, TotalsOf(s), {}, o);
  }

  lemma TotalsInRange(s: State)
    requires Inv(s, {})
    ensures InRange(s.objs, s.infos, TotalsOf(s))
  {
  }

  lemma TotalsRefs(s: State)
    ensures TotalsOf(s) == Totals(CheckIns(s), Removals(s), Listed(s), Refs(s))
  {
  }

  // Whole runs.

  datatype Op =
    | AllocObj(kind: Kind, mask: set<Kind>, cpu: nat)
    | ImportObj(h: nat, o: nat)
    | CheckOutObj(h: nat, o: nat, any: bool, kind: Kind, cpu: nat)
    | RemoveObj(h: nat, o: nat, cpu: nat)
    | PinObj(o: nat)
    | UnpinObj(o: nat, cpu: nat)
    | ActionScan(cpu: nat)
    | CollectScan(cpu: nat)

  /** Callers can only name objects that are still there, and release only their own pins. */
  predicate Possible(s: State, op: Op) {
    match op
    case AllocObj(kind, mask, cpu) => cpu < |s.gc|
    case ImportObj(h, o) => h < |s.objs| && o < |s.objs| && s.objs[h].kind == Share && !s.objs[h].freed
        && !s.objs[o].freed
    case CheckOutObj(h, o, any, kind, cpu) => h < |s.objs| && !s.objs[h].freed && cpu < |s.ci|
    case RemoveObj(h, o, cpu) => h < |s.objs| && !s.objs[h].freed && cpu < |s.rm|
    case PinObj(o) => o < |s.objs| && !s.objs[o].freed
    case UnpinObj(o, cpu) => o in s.pins && cpu < |s.gc|
    case ActionScan(cpu) => cpu < |s.ci|
    case CollectScan(cpu) => cpu < |s.gc|
  }

  /** What a step does when it neither panics nor faults. */
  ghost predicate Effect(s: State, op: Op, r: Result, s': State)
    requires Possible(s, op)
  {
    match op
    case AllocObj(kind, mask, cpu) => r == Ok && s' == Created(s, kind, mask, cpu)
    case ImportObj(h, o) =>
      if s.objs[o].kind in s.objs[h].mask then r == Ok && s' == Imported(s, h, o) else r == Inval && s' == s
    case CheckOutObj(h, o, any, kind, cpu) =>
      if o !in s.objs[h].held then r == NotFound && s' == s
      else if o < |s.objs| && (any || s.objs[o].kind == kind) then r == Ok && s' == CheckOutAt(s, h, o, cpu)
      else r == Inval && s' == s
    case RemoveObj(h, o, cpu) =>
      if o in s.objs[h].held then r == Ok && s' == RemoveAt(s, h, o, cpu) else r == NotFound && s' == s
    case PinObj(o) => r == Ok && s' == Counted(s, o, s.pins + multiset{o}, 1)
    case UnpinObj(o, cpu) => r == Ok && o < |s.objs| && !LastListed(s, o) && s' == Dropped(s, o, cpu)
    case ActionScan(cpu) =>
      && (r == Ok || r.Waits?) && cpu < |s.rm|
      && exists n: nat :: n <= |s.rm[cpu]| && ScanEnds(s, cpu, n, r) && Scanned(s, s', cpu, n)
    case CollectScan(cpu) => r == Ok && Swept(s, s', cpu)
  }

  /** How a step panics or faults, as far as the state before it decides. */
  ghost predicate Fails(s: State, op: Op, r: Result)
    requires Possible(s, op)
  {
    match op
    case UnpinObj(o, cpu) => r == Fault && LastListed(s, o)
    case ActionScan(cpu) =>
      r == Fault && cpu < |s.rm| && exists n: nat :: n <= |s.rm[cpu]| && ScanEnds(s, cpu, n, r)
    case CollectScan(cpu) => r in {Panic, Fault} && SweepFails(s, cpu, r)
    case _ => false
  }

  predicate Stops(r: Result) {
    r == Panic || r == Fault
  }

  method Do(k: Objects, op: Op) returns (r: Result)
    requires k.Valid() && Possible(k.s, op)
    modifies k
    ensures if Stops(r) then Fails(old(k.s), op, r) else k.Valid() && Effect(old(k.s), op, r, k.s)
  {
    hide Inv, ScanEnds, Scanned, Swept, SweepFails, OthersHave, IsListed;
    r := Ok;
    match op {
      case AllocObj(kind, mask, cpu) => {
        var o := k.Alloc(kind, mask, cpu);
      }
      case ImportObj(h, o) => r := k.Import(h, o);
      case CheckOutObj(h, o, any, kind, cpu) => r := k.CheckOut(h, o, any, kind, cpu);
      case RemoveObj(h, o, cpu) => r := k.Remove(h, o, cpu);
      case PinObj(o) => k.Pin(o);
      case UnpinObj(o, cpu) => r := k.Unpin(o, cpu);
      case ActionScan(cpu) => {
        ghost var n;
        r, n := k.Scan(cpu);
        ScanResult(old(k.s), cpu, n, r);
      }
      case CollectScan(cpu) => r := k.GcScan(cpu);
    }
  }

  lemma ScanResult(s: State, cpu: nat, n: nat, r: Result)
    requires cpu < |s.rm| && n <= |s.rm[cpu]| && cpu < |s.ci| && ScanEnds(s, cpu, n, r)
    ensures r == Ok || r.Waits? || r == Fault
  {
  }

  /** Step i of a run has its effect, or is skipped where a caller could not make it. */
  ghost predicate StepOk(s: State, op: Op, r: Result, s': State) {
    if Possible(s, op) then !Stops(r) && Effect(s, op, r, s') else s' == s
  }

  /** A state in which nothing that is checked out, pinned or held has been freed. */
  ghost predicate Safe(s: State) {
    && Inv(s, {})
    && (forall e :: e in CheckIns(s) ==> ObjectAlive(s, e))
    && (forall o :: o in s.pins ==> 0 <= o < |s.objs| && !s.objs[o].freed)
  }

  /**
   Every run, over any number of CPUs, takes the steps asked for, with exact counts in every
   state, so that no object in use has been freed.  Only a panic or fault ends it early, and
   the state before it says why.
   */
  method Run(k: Objects, ops: seq<Op>) returns (replies: seq<Result>, ghost trace: seq<State>)
    requires k.Valid()
    modifies k
    ensures |replies| <= |ops| && |trace| == |replies| + 1 && trace[0] == old(k.s)
    ensures forall i :: 0 <= i <= |replies| ==> Safe(trace[i])
    ensures forall i :: 0 <= i < |replies| ==> StepOk(trace[i], ops[i], replies[i], trace[i + 1])
    ensures |replies| == |ops| ==> trace[|ops|] == k.s
    ensures |replies| < |ops| ==>
              && Possible(trace[|replies|], ops[|replies|])
              && exists r :: Stops(r) && Fails(trace[|replies|], ops[|replies|], r)
  {
    hide Inv, Possible, Safe, Effect, Fails;
    trace, replies := [k.s], [];
    SafeAt(k.s);
    var i := 0;
    while i < |ops|
      invariant 0 <= i <= |ops| && |replies| == i && |trace| == i + 1 && trace[0] == old(k.s) && trace[i] == k.s
      invariant k.Valid() && forall j :: 0 <= j <= i ==> Safe(trace[j])
      invariant forall j :: 0 <= j < i ==> StepOk(trace[j], ops[j], replies[j], trace[j + 1])
    {
      var r := Ok;
      if Possible(k.s, ops[i]) {
        r := Do(k, ops[i]);
        if Stops(r) {
          return;
        }
      }
      SafeAt(k.s);
      trace, replies := trace + [k.s], replies + [r];
      i := i + 1;
    }
  }

  ghost predicate ObjectAlive(s: State, e: nat) {
    e < |s.infos| && s.infos[e].obj < |s.objs| && s.objs[s.infos[e].obj].ref > 0 && !s.objs[s.infos[e].obj].freed
  }

  lemma SafeAt(s: State)
    requires Inv(s, {})
    ensures Safe(s)
  {
    forall e | e in CheckIns(s) ensures ObjectAlive(s, e) { CheckedOutAlive(s, e); }
    forall o | o in s.pins ensures 0 <= o < |s.objs| && !s.objs[o].freed {
      assert o in Refs(s);
      assert ObjFine(s.objs, TotalsOf(s), {}, o);
    }
  }

  /** Collecting a share one of whose entries is checked out: the scan fails the assertion. */
  method CollectWhileOut() returns (r: Result)
    ensures r == Panic
  {
    hide AllFine, TotalsOf, Swept, HasRemovals, IsListed;
    var k := new Objects(1);
    var h := k.Alloc(Share, {Segment}, 0);
    var o := k.Alloc(Segment, {}, 0);
    r := k.Import(h, o);
    r := k.CheckOut(h, o, true, Segment, 0);
    ghost var s := k.s;
    assert s.gc[0] == [1, 0] && s.rm[0] == [];
    assert s.objs[0].held == map[1 := 0] && s.infos[0].co == 1;
    assert Root(s, 0, h) && OutAt(s, h, o);
    RootDoomed(s, 0, h);
    r := k.GcScan(0);
    CannotSweep(s, 0, h);
    NoRemovalAtAll(s);
  }

  lemma RootDoomed(s: State, cpu: nat, h: nat)
    requires Root(s, cpu, h)
    ensures Doomed(s, cpu, h)
  {
    assert FreeingOrder(s, cpu, [h]) && h in [h];
  }

  lemma CannotSweep(s: State, cpu: nat, h: nat)
    requires Doomed(s, cpu, h) && !Harmless(s, h)
    ensures forall s' :: !Swept(s, s', cpu)
  {
  }

  lemma NoRemovalAtAll(s: State)
    requires forall c :: 0 <= c < |s.rm| ==> s.rm[c] == []
    ensures forall h :: !HasRemovals(s, h)
  {
  }

  /** Collecting a share with a removal still queued: the removal would point into freed memory. */
  method CollectWithRemoval() returns (r: Result)
    ensures r == Fault
  {
    hide AllFine, TotalsOf, Swept, IsListed;
    var k := new Objects(1);
    var h := k.Alloc(Share, {Segment}, 0);
    var o := k.Alloc(Segment, {}, 0);
    r := k.Import(h, o);
    r := k.Remove(h, o, 0);
    ghost var s := k.s;
    assert s.gc[0] == [1, 0] && s.rm[0] == [0] && s.infos[0].share == 0;
    assert RemovalOf(s, 0, 0, h);
    assert s.objs[0].held == map[] && s.objs[1].held == map[];
    assert Root(s, 0, h);
    RootDoomed(s, 0, h);
    r := k.GcScan(0);
    CannotSweep(s, 0, h);
  }

  /**
   An object that nobody refers to yet is still listed from its allocation.  Importing it
   and removing it again before that list is scanned lists it twice: the removal always faults.
   */
  method ImportThenRemove(k: Objects, h: nat, o: nat, cpu: nat) returns (r: Result)
    requires k.Valid() && cpu < |k.s.rm| && k.s.rm[cpu] == []
    requires h < |k.s.objs| && o < |k.s.objs| && o != h && k.s.objs[h].kind == Share && !k.s.objs[h].freed
    requires !k.s.objs[o].freed && k.s.objs[o].ref == 0 && k.s.objs[o].kind in k.s.objs[h].mask
    modifies k
    ensures r == Fault
  {
    hide AllFine, TotalsOf, IsListed;
    Unreferenced(k.s, h, o);
    r := k.Import(h, o);
    r := k.Remove(h, o, cpu);
    RemovedNew(k.s, cpu);
    r := k.ScanRemoval(cpu);
  }

  lemma Unreferenced(s: State, h: nat, o: nat)
    requires Inv(s, {}) && h < |s.objs| && o < |s.objs| && s.objs[o].ref == 0 && !s.objs[o].freed
    ensures o !in s.objs[h].held && IsListed(s.gc, o)
  {
    assert ObjFine(s.objs, TotalsOf(s), {}, o);
    ListedSomewhere(s, o);
    SumHas(s.objs, Keys, h);
    assert o !in Keys(s.objs[h]);
  }

  lemma RemovedNew(s: State, cpu: nat)
    requires Inv(s, {}) && cpu < |s.rm| && s.rm[cpu] != []
    ensures s.rm[cpu][0] < |s.infos|
  {
    FirstRemoval(s, cpu);
  }

  // The reference count as a number of shares.

  lemma {:induction false} HoldersCounted(objs: seq<Obj>, o: nat)
    ensures |Holders(objs, o)| == SumOf(objs, Keys)[o]
  {
    if objs != [] {
      HoldersCounted(objs[..|objs| - 1], o);
      HoldersLast(objs, o);
    } else {
      assert Holders(objs, o) == {};
    }
  }

  lemma HoldersLast(objs: seq<Obj>, o: nat)
    requires objs != []
    ensures var n := |objs| - 1;
            |Holders(objs, o)| == |Holders(objs[..n], o)| + if o in objs[n].held then 1 else 0
  {
    var n := |objs| - 1;
    if o in objs[n].held {
      assert Holders(objs, o) == Holders(objs[..n], o) + {n};
    } else {
      assert Holders(objs, o) == Holders(objs[..n], o);
    }
  }

  /** ko_ref is exactly: shares that hold the object, removals queued for it, and pins. */
  lemma CountsMean(s: State, o: nat)
    requires Inv(s, {}) && o < |s.objs|
    ensures s.objs[o].ref == |Holders(s.objs, o)| + SumOf(s.rm, Targets(s.infos))[o] + s.pins[o]
    ensures s.objs[o].ref == 0 ==> s.objs[o].freed || IsListed(s.gc, o)
  {
    HoldersCounted(s.objs, o);
    ListedSomewhere(s, o);
    assert ObjFine(s.objs, TotalsOf(s), {}, o);
  }
}
