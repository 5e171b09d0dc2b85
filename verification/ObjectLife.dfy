/**
 kern/kern/share.c and kern/kern/kobj.c: kernel objects live while a share holds them, a
 removal is queued, or somebody pins them.  Check-outs are given back, and removals carried
 out, when a CPU scans its own queues; objects without references are collected from
 per-CPU lists.  Every share call and every scan is one step; any order of steps is a run.
 */
module ObjectLife {

  datatype Kind = Segment | AddressTree | Processor | Share | Device

  /** A kernel object; held is the map of a share from object ids to its entries. */
  datatype Obj = Obj(kind: Kind, mask: set<Kind>, ref: int, freed: bool, held: map<nat, nat>)

  /** A share_info: an entry of a share, with its check-out and import counts. */
  datatype Info = Info(share: nat, obj: nat, co: int, cnt: int)

  /** ci, rm and gc are the per-CPU queues; pins are the explicit kobject_incref calls. */
  datatype State = State(
    objs: seq<Obj>,
    infos: seq<Info>,
    ci: seq<seq<nat>>,
    rm: seq<seq<nat>>,
    gc: seq<seq<nat>>,
    pins: multiset<nat>)

  // Counting.

  ghost function SumOf<T>(xs: seq<T>, f: T -> multiset<nat>): multiset<nat> {
    if xs == [] then multiset{} else SumOf(xs[..|xs| - 1], f) + f(xs[|xs| - 1])
  }

  lemma {:induction false} SumUpdate<T>(xs: seq<T>, f: T -> multiset<nat>, i: nat, x: T)
    requires i < |xs|
    ensures SumOf(xs[i := x], f) + f(xs[i]) == SumOf(xs, f) + f(x)
  {
    var n := |xs| - 1;
    if i == n {
      assert xs[i := x][..n] == xs[..n];
    } else {
      assert xs[i := x][..n] == xs[..n][i := x];
      SumUpdate(xs[..n], f, i, x);
      var a, a', y := SumOf(xs[..n], f), SumOf(xs[..n][i := x], f), f(xs[n]);
      assert a' + y + f(xs[i]) == a' + f(xs[i]) + y;
      assert a + f(x) + y == a + y + f(x);
    }
  }

  lemma {:induction false} SumSame<T>(xs: seq<T>, f: T -> multiset<nat>, g: T -> multiset<nat>)
    requires forall i :: 0 <= i < |xs| ==> f(xs[i]) == g(xs[i])
    ensures SumOf(xs, f) == SumOf(xs, g)
  {
    if xs != [] { SumSame(xs[..|xs| - 1], f, g); }
  }

  lemma {:induction false} SumHas<T>(xs: seq<T>, f: T -> multiset<nat>, i: nat)
    requires i < |xs|
    ensures f(xs[i]) <= SumOf(xs, f)
  {
    if i < |xs| - 1 { SumHas(xs[..|xs| - 1], f, i); }
  }

  lemma {:induction false} SumFound<T>(xs: seq<T>, f: T -> multiset<nat>, e: nat) returns (i: nat)
    requires e in SumOf(xs, f)
    ensures i < |xs| && e in f(xs[i])
  {
    var n := |xs| - 1;
    if e in f(xs[n]) {
      i := n;
    } else {
      i := SumFound(xs[..n], f, e);
    }
  }

  ghost function Bag(l: seq<nat>): multiset<nat> {
    multiset(l)
  }

  ghost function Keys(o: Obj): multiset<nat> {
    multiset(o.held.Keys)
  }

  ghost function ObjAt(infos: seq<Info>, e: nat): nat {
    if e < |infos| then infos[e].obj else 0
  }

  ghost function Objs(l: seq<nat>, infos: seq<Info>): multiset<nat> {
    if l == [] then multiset{} else multiset{ObjAt(infos, l[0])} + Objs(l[1..], infos)
  }

  ghost function Targets(infos: seq<Info>): seq<nat> -> multiset<nat> {
    l => Objs(l, infos)
  }

  /** The check-ins still queued, the removals still queued, and the objects listed for collection. */
  ghost function CheckIns(s: State): multiset<nat> {
    SumOf(s.ci, Bag)
  }

  ghost function Removals(s: State): multiset<nat> {
    SumOf(s.rm, Bag)
  }

  ghost function Listed(s: State): multiset<nat> {
    SumOf(s.gc, Bag)
  }

  /** Everything that keeps objects alive: shares that hold them, removals still queued, and pins. */
  ghost function Refs(s: State): multiset<nat> {
    SumOf(s.objs, Keys) + SumOf(s.rm, Targets(s.infos)) + s.pins
  }

  // The invariant.

  /** The totals of a state. */
  datatype Totals = Totals(ci: multiset<nat>, rm: multiset<nat>, gc: multiset<nat>, refs: multiset<nat>)

  ghost function TotalsOf(s: State): Totals {
    Totals(CheckIns(s), Removals(s), Listed(s), Refs(s))
  }

  /** The entry is the one its share has for its object. */
  ghost predicate InMap(objs: seq<Obj>, infos: seq<Info>, e: nat) {
    && e < |infos| && infos[e].share < |objs|
    && var held := objs[infos[e].share].held; infos[e].obj in held && held[infos[e].obj] == e
  }

  /**
   si_co is the number of check-ins queued for the entry; it is queued for removal at most
   once, and then its share is still there; while checked out it is in the map or queued.
   */
  ghost predicate EntryFine(objs: seq<Obj>, infos: seq<Info>, t: Totals, e: nat)
    requires e < |infos|
  {
    && infos[e].share < |objs| && infos[e].obj < |objs|
    && infos[e].co == t.ci[e] && t.rm[e] <= 1
    && (t.rm[e] == 1 ==> !objs[infos[e].share].freed)
    && (t.ci[e] > 0 && t.rm[e] == 0 ==> InMap(objs, infos, e))
  }

  /**
   ko_ref is the number of shares, queued removals and pins that refer to the object; it is
   listed at most once; without references it is listed, freed, or just being collected.
   */
  ghost predicate ObjFine(objs: seq<Obj>, t: Totals, exempt: set<nat>, o: nat)
    requires o < |objs|
  {
    && objs[o].ref == t.refs[o] && t.gc[o] <= 1 && (o in exempt ==> t.gc[o] == 0)
    && (objs[o].freed ==> objs[o].held == map[] && objs[o].ref == 0 && t.gc[o] == 0)
    && (objs[o].ref == 0 && !objs[o].freed && o !in exempt ==> t.gc[o] == 1)
  }

  ghost predicate HeldFine(objs: seq<Obj>, infos: seq<Info>, t: Totals, h: nat, o: nat)
    requires h < |objs| && o in objs[h].held
  {
    var e := objs[h].held[o];
    && objs[h].kind == Share
    && e < |infos| && infos[e].share == h && infos[e].obj == o && infos[e].cnt >= 1 && t.rm[e] == 0
  }

  ghost predicate InRange(objs: seq<Obj>, infos: seq<Info>, t: Totals) {
    && (forall e :: e in t.ci || e in t.rm ==> e < |infos|)
    && (forall o :: o in t.gc || o in t.refs ==> o < |objs|)
  }

  ghost predicate AllFine(objs: seq<Obj>, infos: seq<Info>, t: Totals, exempt: set<nat>) {
    && InRange(objs, infos, t)
    && (forall e :: 0 <= e < |infos| ==> EntryFine(objs, infos, t, e))
    && (forall o :: 0 <= o < |objs| ==> ObjFine(objs, t, exempt, o))
    && (forall h, o :: 0 <= h < |objs| && o in objs[h].held ==> HeldFine(objs, infos, t, h, o))
  }

  ghost predicate Inv(s: State, exempt: set<nat>) {
    |s.ci| == |s.rm| == |s.gc| && AllFine(s.objs, s.infos, TotalsOf(s), exempt)
  }

  lemma {:induction false} ObjsIn(l: seq<nat>, infos: seq<Info>, i: nat)
    requires i < |l|
    ensures ObjAt(infos, l[i]) in Objs(l, infos)
  {
    if i > 0 { ObjsIn(l[1..], infos, i - 1); }
  }

  lemma RemovalRefers(s: State, e: nat)
    requires e in Removals(s) && e < |s.infos|
    ensures s.infos[e].obj in Refs(s)
  {
    var c := SumFound(s.rm, Bag, e);
    var i :| 0 <= i < |s.rm[c]| && s.rm[c][i] == e;
    ObjsIn(s.rm[c], s.infos, i);
    SumHas(s.rm, Targets(s.infos), c);
  }

  lemma HolderRefers(s: State, h: nat, o: nat)
    requires h < |s.objs| && o in s.objs[h].held
    ensures o in Refs(s)
  {
    assert o in Keys(s.objs[h]);
    SumHas(s.objs, Keys, h);
  }

  /** Checked-out objects are alive: garbage collection never frees one. */
  lemma CheckedOutAlive(s: State, e: nat)
    requires Inv(s, {}) && e in CheckIns(s)
    ensures e < |s.infos| && s.infos[e].obj < |s.objs| && s.infos[e].share < |s.objs|
    ensures s.objs[s.infos[e].obj].ref > 0 && !s.objs[s.infos[e].obj].freed && !s.objs[s.infos[e].share].freed
  {
    hide CheckIns, Removals, Listed, Refs, HeldFine;
    assert EntryFine(s.objs, s.infos, TotalsOf(s), e);
    var o, h := s.infos[e].obj, s.infos[e].share;
    if e in Removals(s) {
      RemovalRefers(s, e);
    } else {
      HolderRefers(s, h, o);
    }
    assert ObjFine(s.objs, TotalsOf(s), {}, o) && ObjFine(s.objs, TotalsOf(s), {}, h);
  }

  // How the sums move.

  lemma PushBag(ls: seq<seq<nat>>, c: nat, e: nat)
    requires c < |ls|
    ensures SumOf(ls[c := [e] + ls[c]], Bag) == SumOf(ls, Bag) + multiset{e}
  {
    var l := [e] + ls[c];
    SumUpdate(ls, Bag, c, l);
    var a, b := SumOf(ls[c := l], Bag), SumOf(ls, Bag);
    assert a == a + Bag(ls[c]) - Bag(ls[c]);
    assert b + multiset{e} == b + Bag(l) - Bag(ls[c]);
  }

  lemma PopBag(ls: seq<seq<nat>>, c: nat)
    requires c < |ls| && ls[c] != []
    ensures SumOf(ls, Bag) == SumOf(ls[c := ls[c][1..]], Bag) + multiset{ls[c][0]}
  {
    var us := ls[c := ls[c][1..]];
    PushBag(us, c, ls[c][0]);
    assert [ls[c][0]] + us[c] == ls[c];
    assert us[c := [ls[c][0]] + us[c]] == ls;
  }

  lemma PushTargets(ls: seq<seq<nat>>, c: nat, e: nat, infos: seq<Info>)
    requires c < |ls|
    ensures SumOf(ls[c := [e] + ls[c]], Targets(infos)) == SumOf(ls, Targets(infos)) + multiset{ObjAt(infos, e)}
  {
    var l, f := [e] + ls[c], Targets(infos);
    SumUpdate(ls, f, c, l);
    assert l[1..] == ls[c];
    var a, b := SumOf(ls[c := l], f), SumOf(ls, f);
    assert a == a + f(ls[c]) - f(ls[c]);
    assert b + multiset{ObjAt(infos, e)} == b + f(l) - f(ls[c]);
  }

  lemma PopTargets(ls: seq<seq<nat>>, c: nat, infos: seq<Info>)
    requires c < |ls| && ls[c] != []
    ensures SumOf(ls, Targets(infos)) == SumOf(ls[c := ls[c][1..]], Targets(infos)) + multiset{ObjAt(infos, ls[c][0])}
  {
    var us := ls[c := ls[c][1..]];
    PushTargets(us, c, ls[c][0], infos);
    assert [ls[c][0]] + us[c] == ls[c];
    assert us[c := [ls[c][0]] + us[c]] == ls;
  }

  lemma {:induction false} ObjsSame(l: seq<nat>, infos: seq<Info>, infos': seq<Info>)
    requires forall i :: 0 <= i < |l| ==> ObjAt(infos, l[i]) == ObjAt(infos', l[i])
    ensures Objs(l, infos) == Objs(l, infos')
  {
    if l != [] { ObjsSame(l[1..], infos, infos'); }
  }

  /** Queued removals keep their targets while entries keep their objects. */
  lemma TargetsSame(ls: seq<seq<nat>>, infos: seq<Info>, infos': seq<Info>)
    requires forall e :: e in SumOf(ls, Bag) ==> ObjAt(infos, e) == ObjAt(infos', e)
    ensures SumOf(ls, Targets(infos)) == SumOf(ls, Targets(infos'))
  {
    forall c | 0 <= c < |ls| ensures Targets(infos)(ls[c]) == Targets(infos')(ls[c]) {
      SumHas(ls, Bag, c);
      forall i | 0 <= i < |ls[c]| ensures ObjAt(infos, ls[c][i]) == ObjAt(infos', ls[c][i]) {
        assert ls[c][i] in Bag(ls[c]);
      }
      ObjsSame(ls[c], infos, infos');
    }
    SumSame(ls, Targets(infos), Targets(infos'));
  }

  lemma KeysAppend(objs: seq<Obj>, o: Obj)
    ensures SumOf(objs + [o], Keys) == SumOf(objs, Keys) + Keys(o)
  {
    assert (objs + [o])[..|objs|] == objs;
  }

  lemma KeysSame(objs: seq<Obj>, h: nat, o: Obj)
    requires h < |objs| && o.held == objs[h].held
    ensures SumOf(objs[h := o], Keys) == SumOf(objs, Keys)
  {
    SumUpdate(objs, Keys, h, o);
    var a, b := SumOf(objs[h := o], Keys), SumOf(objs, Keys);
    assert a == a + Keys(o) - Keys(o) && b == b + Keys(o) - Keys(o);
  }

  lemma KeyAdded(x: Obj, o: nat, e: nat)
    requires o !in x.held
    ensures Keys(x.(held := x.held[o := e])) == Keys(x) + multiset{o}
  {
    assert x.held[o := e].Keys == x.held.Keys + {o};
  }

  lemma KeysMore(objs: seq<Obj>, h: nat, o: nat, e: nat)
    requires h < |objs| && o !in objs[h].held
    ensures SumOf(objs[h := objs[h].(held := objs[h].held[o := e])], Keys) == SumOf(objs, Keys) + multiset{o}
  {
    hide Keys, SumOf;
    var x := objs[h].(held := objs[h].held[o := e]);
    SumUpdate(objs, Keys, h, x);
    KeyAdded(objs[h], o, e);
    var a, b, k := SumOf(objs[h := x], Keys), SumOf(objs, Keys), Keys(objs[h]);
    assert a == a + k - k;
    assert b + multiset{o} == b + (k + multiset{o}) - k;
  }

  lemma KeysFewer(objs: seq<Obj>, h: nat, o: nat)
    requires h < |objs| && o in objs[h].held
    ensures SumOf(objs, Keys) == SumOf(objs[h := objs[h].(held := objs[h].held - {o})], Keys) + multiset{o}
  {
    var x := objs[h].(held := objs[h].held - {o});
    var e := objs[h].held[o];
    KeysMore(objs[h := x], h, o, e);
    assert x.held[o := e] == objs[h].held;
    assert objs[h := x][h := x.(held := x.held[o := e])] == objs;
  }

  // The steps, and that each keeps the invariant.

  function Created(s: State, kind: Kind, mask: set<Kind>, cpu: nat): State
    requires cpu < |s.gc|
  {
    s.(objs := s.objs + [Obj(kind, mask, 0, false, map[])], gc := s.gc[cpu := [|s.objs|] + s.gc[cpu]])
  }

  lemma CreatedTotals(s: State, kind: Kind, mask: set<Kind>, cpu: nat)
    requires cpu < |s.gc|
    ensures TotalsOf(Created(s, kind, mask, cpu)) == TotalsOf(s).(gc := Listed(s) + multiset{|s.objs|})
  {
    hide SumOf;
    PushBag(s.gc, cpu, |s.objs|);
    KeysAppend(s.objs, Obj(kind, mask, 0, false, map[]));
  }

  lemma CreatedFine(objs: seq<Obj>, infos: seq<Info>, t: Totals, new1: Obj)
    requires AllFine(objs, infos, t, {}) && new1.ref == 0 && !new1.freed && new1.held == map[]
    ensures AllFine(objs + [new1], infos, t.(gc := t.gc + multiset{|objs|}), {})
  {
    var objs', t' := objs + [new1], t.(gc := t.gc + multiset{|objs|});
    forall e | 0 <= e < |infos| ensures EntryFine(objs', infos, t', e) { assert EntryFine(objs, infos, t, e); }
    forall p | 0 <= p < |objs'| ensures ObjFine(objs', t', {}, p) { assert p < |objs| ==> ObjFine(objs, t, {}, p); }
    forall h, p | 0 <= h < |objs'| && p in objs'[h].held ensures HeldFine(objs', infos, t', h, p) {
      assert HeldFine(objs, infos, t, h, p);
    }
  }

  /** The import count of an entry changes. */
  function Recounted(s: State, e: nat, d: int): State
    requires e < |s.infos|
  {
    s.(infos := s.infos[e := s.infos[e].(cnt := s.infos[e].cnt + d)])
  }

  lemma RecountedTotals(s: State, e: nat, d: int)
    requires e < |s.infos|
    ensures TotalsOf(Recounted(s, e, d)) == TotalsOf(s)
  {
    hide SumOf;
    TargetsSame(s.rm, s.infos, Recounted(s, e, d).infos);
  }

  lemma RecountedFine(objs: seq<Obj>, infos: seq<Info>, t: Totals, e: nat, d: int)
    requires AllFine(objs, infos, t, {}) && e < |infos| && infos[e].cnt + d >= 1
    ensures AllFine(objs, infos[e := infos[e].(cnt := infos[e].cnt + d)], t, {})
  {
    var infos' := infos[e := infos[e].(cnt := infos[e].cnt + d)];
    forall x | 0 <= x < |infos'| ensures EntryFine(objs, infos', t, x) { assert EntryFine(objs, infos, t, x); }
    forall h, p | 0 <= h < |objs| && p in objs[h].held ensures HeldFine(objs, infos', t, h, p) {
      assert HeldFine(objs, infos, t, h, p);
    }
  }

  function ImportedNew(s: State, h: nat, o: nat): State
    requires h < |s.objs| && o < |s.objs|
  {
    var objs := s.objs[h := s.objs[h].(held := s.objs[h].held[o := |s.infos|])];
    s.(infos := s.infos + [Info(h, o, 0, 1)], objs := objs[o := objs[o].(ref := objs[o].ref + 1)])
  }

  lemma ImportedNewTotals(s: State, h: nat, o: nat)
    requires InRange(s.objs, s.infos, TotalsOf(s)) && h < |s.objs| && o < |s.objs| && o !in s.objs[h].held
    ensures TotalsOf(ImportedNew(s, h, o)) == TotalsOf(s).(refs := Refs(s) + multiset{o})
  {
    hide SumOf;
    var e, s' := |s.infos|, ImportedNew(s, h, o);
    var objs := s.objs[h := s.objs[h].(held := s.objs[h].held[o := e])];
    TargetsSame(s.rm, s.infos, s'.infos);
    KeysMore(s.objs, h, o, e);
    KeysSame(objs, o, objs[o].(ref := objs[o].ref + 1));
  }

  lemma ImportedNewFine(objs: seq<Obj>, infos: seq<Info>, t: Totals, h: nat, o: nat)
    requires AllFine(objs, infos, t, {}) && h < |objs| && o < |objs| && o !in objs[h].held && objs[h].kind == Share
    requires !objs[h].freed && !objs[o].freed
    ensures var objs1 := objs[h := objs[h].(held := objs[h].held[o := |infos|])];
            AllFine(objs1[o := objs1[o].(ref := objs1[o].ref + 1)], infos + [Info(h, o, 0, 1)],
              t.(refs := t.refs + multiset{o}), {})
  {
    var objs1 := objs[h := objs[h].(held := objs[h].held[o := |infos|])];
    var objs', infos', t' := objs1[o := objs1[o].(ref := objs1[o].ref + 1)], infos + [Info(h, o, 0, 1)],
        t.(refs := t.refs + multiset{o});
    forall x | 0 <= x < |infos'|
        ensures EntryFine(objs', infos', t', x) { assert x < |infos| ==> EntryFine(objs, infos, t, x); }
    forall p | 0 <= p < |objs'| ensures ObjFine(objs', t', {}, p) { assert ObjFine(objs, t, {}, p); }
    forall k, p | 0 <= k < |objs'| && p in objs'[k].held ensures HeldFine(objs', infos', t', k, p) {
      assert (k, p) != (h, o) ==> HeldFine(objs, infos, t, k, p);
    }
  }

  function CheckedOut(s: State, e: nat, cpu: nat): State
    requires e < |s.infos| && cpu < |s.ci|
  {
    s.(infos := s.infos[e := s.infos[e].(co := s.infos[e].co + 1)], ci := s.ci[cpu := [e] + s.ci[cpu]])
  }

  lemma CheckedOutTotals(s: State, e: nat, cpu: nat)
    requires e < |s.infos| && cpu < |s.ci|
    ensures TotalsOf(CheckedOut(s, e, cpu)) == TotalsOf(s).(ci := CheckIns(s) + multiset{e})
  {
    hide SumOf;
    PushBag(s.ci, cpu, e);
    TargetsSame(s.rm, s.infos, CheckedOut(s, e, cpu).infos);
  }

  lemma CheckedOutFine(objs: seq<Obj>, infos: seq<Info>, t: Totals, e: nat)
    requires AllFine(objs, infos, t, {}) && InMap(objs, infos, e)
    ensures AllFine(objs, infos[e := infos[e].(co := infos[e].co + 1)], t.(ci := t.ci + multiset{e}), {})
  {
    var infos', t' := infos[e := infos[e].(co := infos[e].co + 1)], t.(ci := t.ci + multiset{e});
    assert HeldFine(objs, infos, t, infos[e].share, infos[e].obj);
    forall x | 0 <= x < |infos'| ensures EntryFine(objs, infos', t', x) { assert EntryFine(objs, infos, t, x); }
    forall p | 0 <= p < |objs| ensures ObjFine(objs, t', {}, p) { assert ObjFine(objs, t, {}, p); }
    forall k, p | 0 <= k < |objs| && p in objs[k].held ensures HeldFine(objs, infos', t', k, p) {
      assert HeldFine(objs, infos, t, k, p);
    }
  }

  function Removed(s: State, h: nat, o: nat, cpu: nat): State
    requires h < |s.objs| && o in s.objs[h].held && s.objs[h].held[o] < |s.infos| && cpu < |s.rm|
  {
    var e := s.objs[h].held[o];
    s.(infos := s.infos[e := s.infos[e].(cnt := s.infos[e].cnt - 1)],
       objs := s.objs[h := s.objs[h].(held := s.objs[h].held - {o})],
       rm := s.rm[cpu := [e] + s.rm[cpu]])
  }

  lemma RemovedTotals(s: State, h: nat, o: nat, cpu: nat)
    requires h < |s.objs| && o in s.objs[h].held && s.objs[h].held[o] < |s.infos| && cpu < |s.rm|
    requires s.infos[s.objs[h].held[o]].obj == o
    ensures TotalsOf(Removed(s, h, o, cpu)) == TotalsOf(s).(rm := Removals(s) + multiset{s.objs[h].held[o]})
  {
    hide SumOf;
    var e, s' := s.objs[h].held[o], Removed(s, h, o, cpu);
    TargetsSame(s.rm, s.infos, s'.infos);
    PushTargets(s.rm, cpu, e, s'.infos);
    PushBag(s.rm, cpu, e);
    KeysFewer(s.objs, h, o);
    var k, u := SumOf(s'.objs, Keys), SumOf(s.rm, Targets(s.infos));
    assert k + (u + multiset{o}) + s.pins == k + multiset{o} + u + s.pins;
  }

  lemma RemovedFine(objs: seq<Obj>, infos: seq<Info>, t: Totals, h: nat, o: nat)
    requires AllFine(objs, infos, t, {}) && h < |objs| && o in objs[h].held
    ensures var e := objs[h].held[o];
            && e < |infos|
            && AllFine(objs[h := objs[h].(held := objs[h].held - {o})],
               infos[e := infos[e].(cnt := infos[e].cnt - 1)], t.(rm := t.rm + multiset{e}), {})
  {
    assert HeldFine(objs, infos, t, h, o) && ObjFine(objs, t, {}, h);
    var e := objs[h].held[o];
    var objs', infos', t' := objs[h := objs[h].(held := objs[h].held - {o})],
        infos[e := infos[e].(cnt := infos[e].cnt - 1)], t.(rm := t.rm + multiset{e});
    forall x | 0 <= x < |infos'| ensures EntryFine(objs', infos', t', x) { assert EntryFine(objs, infos, t, x); }
    forall p | 0 <= p < |objs'| ensures ObjFine(objs', t', {}, p) { assert ObjFine(objs, t, {}, p); }
    forall k, p | 0 <= k < |objs'| && p in objs'[k].held ensures HeldFine(objs', infos', t', k, p) {
      assert HeldFine(objs, infos, t, k, p);
    }
  }

  /** One reference more or fewer, by a pin or its release. */
  function Counted(s: State, o: nat, pins: multiset<nat>, d: int): State
    requires o < |s.objs|
  {
    s.(objs := s.objs[o := s.objs[o].(ref := s.objs[o].ref + d)], pins := pins)
  }

  lemma PinnedTotals(s: State, o: nat)
    requires o < |s.objs|
    ensures TotalsOf(Counted(s, o, s.pins + multiset{o}, 1)) == TotalsOf(s).(refs := Refs(s) + multiset{o})
  {
    hide SumOf;
    KeysSame(s.objs, o, s.objs[o].(ref := s.objs[o].ref + 1));
  }

  lemma UnpinnedTotals(s: State, o: nat)
    requires o < |s.objs| && o in s.pins
    ensures TotalsOf(Counted(s, o, s.pins - multiset{o}, -1)) == TotalsOf(s).(refs := Refs(s) - multiset{o})
    ensures o in Refs(s)
  {
    hide SumOf;
    KeysSame(s.objs, o, s.objs[o].(ref := s.objs[o].ref - 1));
    var k, u := SumOf(s.objs, Keys), SumOf(s.rm, Targets(s.infos));
    assert k + u + s.pins - multiset{o} == k + u + (s.pins - multiset{o});
  }

  lemma PinnedFine(objs: seq<Obj>, infos: seq<Info>, t: Totals, o: nat)
    requires AllFine(objs, infos, t, {}) && o < |objs| && !objs[o].freed
    ensures AllFine(objs[o := objs[o].(ref := objs[o].ref + 1)], infos, t.(refs := t.refs + multiset{o}), {})
  {
    var objs', t' := objs[o := objs[o].(ref := objs[o].ref + 1)], t.(refs := t.refs + multiset{o});
    forall x | 0 <= x < |infos| ensures EntryFine(objs', infos, t', x) { assert EntryFine(objs, infos, t, x); }
    forall p | 0 <= p < |objs'| ensures ObjFine(objs', t', {}, p) { assert ObjFine(objs, t, {}, p); }
    forall k, p | 0 <= k < |objs'| && p in objs'[k].held ensures HeldFine(objs', infos, t', k, p) {
      assert HeldFine(objs, infos, t, k, p);
    }
  }

  /** A reference goes; with the last one the object must be listed, so it must not be listed already. */
  lemma UnpinnedFine(objs: seq<Obj>, infos: seq<Info>, t: Totals, o: nat, ex: set<nat>)
    requires AllFine(objs, infos, t, ex) && o < |objs| && o in t.refs
    ensures var objs' := objs[o := objs[o].(ref := objs[o].ref - 1)];
            && objs[o].ref > 0 && !objs[o].freed
            && (objs[o].ref > 1 ==> AllFine(objs', infos, t.(refs := t.refs - multiset{o}), ex))
            && (objs[o].ref == 1 && o !in t.gc && o !in ex ==>
                  AllFine(objs', infos, t.(refs := t.refs - multiset{o}, gc := t.gc + multiset{o}), ex))
  {
    assert ObjFine(objs, t, ex, o);
    var objs' := objs[o := objs[o].(ref := objs[o].ref - 1)];
    var t' := if objs[o].ref == 1 then t.(refs := t.refs - multiset{o}, gc := t.gc + multiset{o})
        else t.(refs := t.refs - multiset{o});
    if objs[o].ref > 1 || (o !in t.gc && o !in ex) {
      forall x | 0 <= x < |infos| ensures EntryFine(objs', infos, t', x) { assert EntryFine(objs, infos, t, x); }
      forall p | 0 <= p < |objs'| ensures ObjFine(objs', t', ex, p) { assert ObjFine(objs, t, ex, p); }
      forall k, p | 0 <= k < |objs'| && p in objs'[k].held ensures HeldFine(objs', infos, t', k, p) {
        assert HeldFine(objs, infos, t, k, p);
      }
    }
  }

  // Scanning and collecting, one queue element at a time.

  function CheckedIn(s: State, cpu: nat): State
    requires cpu < |s.ci| && s.ci[cpu] != [] && s.ci[cpu][0] < |s.infos|
  {
    var e := s.ci[cpu][0];
    s.(infos := s.infos[e := s.infos[e].(co := s.infos[e].co - 1)], ci := s.ci[cpu := s.ci[cpu][1..]])
  }

  lemma CheckedInTotals(s: State, cpu: nat)
    requires cpu < |s.ci| && s.ci[cpu] != [] && s.ci[cpu][0] < |s.infos|
    ensures s.ci[cpu][0] in CheckIns(s)
    ensures TotalsOf(CheckedIn(s, cpu)) == TotalsOf(s).(ci := CheckIns(s) - multiset{s.ci[cpu][0]})
  {
    hide SumOf;
    PopBag(s.ci, cpu);
    TargetsSame(s.rm, s.infos, CheckedIn(s, cpu).infos);
  }

  lemma CheckedInFine(objs: seq<Obj>, infos: seq<Info>, t: Totals, e: nat)
    requires AllFine(objs, infos, t, {}) && e < |infos| && e in t.ci
    ensures infos[e].co > 0
    ensures AllFine(objs, infos[e := infos[e].(co := infos[e].co - 1)], t.(ci := t.ci - multiset{e}), {})
  {
    assert EntryFine(objs, infos, t, e);
    var infos', t' := infos[e := infos[e].(co := infos[e].co - 1)], t.(ci := t.ci - multiset{e});
    forall x | 0 <= x < |infos'| ensures EntryFine(objs, infos', t', x) { assert EntryFine(objs, infos, t, x); }
    forall p | 0 <= p < |objs| ensures ObjFine(objs, t', {}, p) { assert ObjFine(objs, t, {}, p); }
    forall k, p | 0 <= k < |objs| && p in objs[k].held ensures HeldFine(objs, infos', t', k, p) {
      assert HeldFine(objs, infos, t, k, p);
    }
  }

  /** The first queued removal is taken up: until the decrement, its reference counts as a pin. */
  function TakenUp(s: State, cpu: nat): State
    requires cpu < |s.rm| && s.rm[cpu] != [] && s.rm[cpu][0] < |s.infos|
  {
    s.(rm := s.rm[cpu := s.rm[cpu][1..]], pins := s.pins + multiset{s.infos[s.rm[cpu][0]].obj})
  }

  lemma TakenUpTotals(s: State, cpu: nat)
    requires cpu < |s.rm| && s.rm[cpu] != [] && s.rm[cpu][0] < |s.infos|
    ensures s.rm[cpu][0] in Removals(s)
    ensures TotalsOf(TakenUp(s, cpu)) == TotalsOf(s).(rm := Removals(s) - multiset{s.rm[cpu][0]})
  {
    hide SumOf;
    PopBag(s.rm, cpu);
    PopTargets(s.rm, cpu, s.infos);
    var k, u, o := SumOf(s.objs, Keys), SumOf(TakenUp(s, cpu).rm, Targets(s.infos)), s.infos[s.rm[cpu][0]].obj;
    assert k + u + (s.pins + multiset{o}) == k + (u + multiset{o}) + s.pins;
  }

  lemma TakenUpFine(objs: seq<Obj>, infos: seq<Info>, t: Totals, e: nat)
    requires AllFine(objs, infos, t, {}) && e < |infos| && e in t.rm && infos[e].co == 0
    ensures AllFine(objs, infos, t.(rm := t.rm - multiset{e}), {})
  {
    var t' := t.(rm := t.rm - multiset{e});
    forall x | 0 <= x < |infos| ensures EntryFine(objs, infos, t', x) { assert EntryFine(objs, infos, t, x); }
    forall p | 0 <= p < |objs| ensures ObjFine(objs, t', {}, p) { assert ObjFine(objs, t, {}, p); }
    forall k, p | 0 <= k < |objs| && p in objs[k].held ensures HeldFine(objs, infos, t', k, p) {
      assert HeldFine(objs, infos, t, k, p);
    }
  }

  lemma UnlistedTotals(s: State, cpu: nat)
    requires cpu < |s.gc| && s.gc[cpu] != []
    ensures s.gc[cpu][0] in Listed(s)
    ensures TotalsOf(s.(gc := s.gc[cpu := s.gc[cpu][1..]])) == TotalsOf(s).(gc := Listed(s) - multiset{s.gc[cpu][0]})
  {
    hide SumOf;
    PopBag(s.gc, cpu);
  }

  lemma UnlistedFine(objs: seq<Obj>, infos: seq<Info>, t: Totals, o: nat)
    requires AllFine(objs, infos, t, {}) && o in t.gc
    ensures o < |objs| && !objs[o].freed
    ensures AllFine(objs, infos, t.(gc := t.gc - multiset{o}), {o})
    ensures objs[o].ref != 0 ==> AllFine(objs, infos, t.(gc := t.gc - multiset{o}), {})
  {
    assert ObjFine(objs, t, {}, o);
    var t' := t.(gc := t.gc - multiset{o});
    forall x | 0 <= x < |infos| ensures EntryFine(objs, infos, t', x) { assert EntryFine(objs, infos, t, x); }
    forall p | 0 <= p < |objs| ensures ObjFine(objs, t', {o}, p) && (objs[o].ref != 0 ==> ObjFine(objs, t', {}, p)) {
      assert ObjFine(objs, t, {}, p);
    }
    forall k, p | 0 <= k < |objs| && p in objs[k].held ensures HeldFine(objs, infos, t', k, p) {
      assert HeldFine(objs, infos, t, k, p);
    }
  }

  /** An entry of a share being collected goes; until the decrement, its reference counts as a pin. */
  function EntryGone(s: State, h: nat, o: nat): State
    requires h < |s.objs| && o in s.objs[h].held
  {
    s.(objs := s.objs[h := s.objs[h].(held := s.objs[h].held - {o})], pins := s.pins + multiset{o})
  }

  lemma EntryGoneTotals(s: State, h: nat, o: nat)
    requires h < |s.objs| && o in s.objs[h].held
    ensures TotalsOf(EntryGone(s, h, o)) == TotalsOf(s)
  {
    hide SumOf;
    KeysFewer(s.objs, h, o);
    var k, u := SumOf(EntryGone(s, h, o).objs, Keys), SumOf(s.rm, Targets(s.infos));
    assert k + u + (s.pins + multiset{o}) == k + multiset{o} + u + s.pins;
  }

  lemma EntryGoneFine(objs: seq<Obj>, infos: seq<Info>, t: Totals, h: nat, o: nat)
    requires AllFine(objs, infos, t, {h}) && h < |objs| && o in objs[h].held
    ensures objs[h].held[o] < |infos|
    ensures infos[objs[h].held[o]].co == 0 ==> AllFine(objs[h := objs[h].(held := objs[h].held - {o})], infos, t, {h})
  {
    assert HeldFine(objs, infos, t, h, o);
    var objs' := objs[h := objs[h].(held := objs[h].held - {o})];
    if infos[objs[h].held[o]].co == 0 {
      forall x | 0 <= x < |infos| ensures EntryFine(objs', infos, t, x) { assert EntryFine(objs, infos, t, x); }
      forall p | 0 <= p < |objs'| ensures ObjFine(objs', t, {h}, p) { assert ObjFine(objs, t, {h}, p); }
      forall k, p | 0 <= k < |objs'| && p in objs'[k].held ensures HeldFine(objs', infos, t, k, p) {
        assert HeldFine(objs, infos, t, k, p);
      }
    }
  }

  lemma FreedTotals(s: State, h: nat)
    requires h < |s.objs|
    ensures TotalsOf(s.(objs := s.objs[h := s.objs[h].(freed := true)])) == TotalsOf(s)
  {
    hide SumOf;
    KeysSame(s.objs, h, s.objs[h].(freed := true));
  }

  lemma FreedFine(objs: seq<Obj>, infos: seq<Info>, t: Totals, h: nat)
    requires AllFine(objs, infos, t, {h}) && h < |objs| && objs[h].held == map[] && objs[h].ref == 0
    requires forall e :: 0 <= e < |infos| && infos[e].share == h ==> t.rm[e] == 0
    ensures AllFine(objs[h := objs[h].(freed := true)], infos, t, {})
  {
    var objs' := objs[h := objs[h].(freed := true)];
    forall x | 0 <= x < |infos| ensures EntryFine(objs', infos, t, x) { assert EntryFine(objs, infos, t, x); }
    forall p | 0 <= p < |objs'| ensures ObjFine(objs', t, {}, p) { assert ObjFine(objs, t, {h}, p); }
    forall k, p | 0 <= k < |objs'| && p in objs'[k].held ensures HeldFine(objs', infos, t, k, p) {
      assert HeldFine(objs, infos, t, k, p);
    }
  }
}
