/**
 lib/jsysmon.c and kern/kern/sysmon.c: the ring of shared slots through which a user
 core submits system calls to a kernel core that polls.  Each step below is one load or
 one store of the shared memory; an update like `flag |= x` is a load step and a store
 step, so the other side can act in between.
 */
module SlotRing {
  import Arith

  type Word = x: int | 0 <= x < 0x1_0000_0000_0000_0000

  const SYS_DEVICE_BUF: Word := 7
  const SYS_PROCESSOR_CURRENT: Word := 18

  datatype Call =
    | DeviceBuf(devShare: Word, dev: Word, sgShare: Word, sg: Word, offset: Word, kind: Word)
    | ProcessorCurrent

  /** The words a call writes, from the start of the slot's arguments; the rest stay as they were. */
  function Stores(c: Call): (r: seq<Word>)
    ensures 1 <= |r| <= 8
  {
    match c
    case DeviceBuf(a1, a2, a3, a4, a5, a6) => [SYS_DEVICE_BUF, a1, a2, a3, a4, a5, a6]
    case ProcessorCurrent => [SYS_PROCESSOR_CURRENT]
  }

  /** A call, and whether the user asked for its result (SYSMON_KERN_RET). */
  datatype Request = Request(call: Call, wantRet: bool)

  /** The arguments are the ones the request wrote. */
  ghost predicate Carries(args: seq<Word>, r: Request) {
    Stores(r.call) <= args
  }

  datatype Flag = Flag(inuse: bool, call: bool, ret: bool)

  const CLEAR: Flag := Flag(false, false, false)

  datatype Slot = Slot(args: seq<Word>, ret: Word, flag: Flag)

  datatype UserPc =
    | UTest | USetLoad | USetStore(f: Flag) | UAdvance | UChoose
    | URetLoad(r: Request) | URetStore(r: Request, f: Flag)
    | UArgs(r: Request, k: nat) | UCallLoad(r: Request) | UCallStore(r: Request, f: Flag)
    | UWait | URead | UFreeLoad | UFreeStore(f: Flag)

  datatype MonitorPc =
    | MTest | MClearLoad | MClearStore(f: Flag) | MRet
    | MCopy(wantRet: bool, got: seq<Word>)
    | MFreeLoad(got: seq<Word>) | MFreeStore(got: seq<Word>, f: Flag)
    | MExec(wantRet: bool, got: seq<Word>)
    | MSetRet(r: Word) | MRetLoad | MRetStore(f: Flag) | MAdvance

  /**
   The two cores and the shared slots.  The last five fields are the history: requests
   made, arguments in the slot when KERN_CALL was set, arguments executed, results, and
   the results the user has picked up, each with the number of its request.
   */
  datatype State = State(
    slots: seq<Slot>,
    userNext: nat, userSlot: nat, user: UserPc,
    monNext: nat, mon: MonitorPc,
    requests: seq<Request>, submitted: seq<seq<Word>>,
    executed: seq<seq<Word>>, results: seq<Word>, returned: seq<(nat, Word)>)

  predicate WellFormed(s: State) {
    && |s.slots| > 0 && s.userNext < |s.slots| && s.userSlot < |s.slots| && s.monNext < |s.slots|
    && (forall j :: 0 <= j < |s.slots| ==> |s.slots[j].args| == 8)
    && (s.user.UArgs? ==> s.user.k <= |Stores(s.user.r.call)|)
    && (s.mon.MCopy? ==> |s.mon.got| <= 8)
  }

  function SetFlag(s: State, j: nat, f: Flag): State
    requires j < |s.slots|
  {
    s.(slots := s.slots[j := s.slots[j].(flag := f)])
  }

  function Advanced(N: nat, j: nat): (k: nat)
    requires N > 0
    ensures k < N
  {
    (j + 1) % N
  }

  /** One step of jsm_next_slot, jsm_call_*, or the wait for a result; r is the next request. */
  function UserStep(s: State, r: Request): State
    requires WellFormed(s)
  {
    match s.user
    case UTest => if s.slots[s.userNext].flag.inuse then s else s.(user := USetLoad)
    case USetLoad => s.(user := USetStore(s.slots[s.userNext].flag))
    case USetStore(f) => SetFlag(s, s.userNext, f.(inuse := true)).(user := UAdvance)
    case UAdvance => s.(userSlot := s.userNext, userNext := Advanced(|s.slots|, s.userNext), user := UChoose)
    case UChoose => s.(user := if r.wantRet then URetLoad(r) else UArgs(r, 0))
    case URetLoad(q) => s.(user := URetStore(q, s.slots[s.userSlot].flag))
    case URetStore(q, f) => SetFlag(s, s.userSlot, f.(ret := true)).(user := UArgs(q, 0))
    case UArgs(q, k) =>
      if k == |Stores(q.call)| then s.(user := UCallLoad(q))
      else
        var slot := s.slots[s.userSlot];
        s.(slots := s.slots[s.userSlot := slot.(args := slot.args[k := Stores(q.call)[k]])],
           user := UArgs(q, k + 1))
    case UCallLoad(q) => s.(user := UCallStore(q, s.slots[s.userSlot].flag))
    case UCallStore(q, f) =>
      SetFlag(s, s.userSlot, f.(call := true)).(
        requests := s.requests + [q],
        submitted := s.submitted + [s.slots[s.userSlot].args],
        user := if q.wantRet then UWait else UTest)
    case UWait => if s.slots[s.userSlot].flag.ret then s else s.(user := URead)
    case URead =>
      s.(returned := s.returned + [(|s.requests| - if |s.requests| > 0 then 1 else 0, s.slots[s.userSlot].ret)],
         user := UFreeLoad)
    case UFreeLoad => s.(user := UFreeStore(s.slots[s.userSlot].flag))
    case UFreeStore(f) => SetFlag(s, s.userSlot, f.(inuse := false)).(user := UTest)
  }

  /** One step of sysmon_poll; result is what the system call returns. */
  function MonitorStep(s: State, result: Word): State
    requires WellFormed(s)
  {
    match s.mon
    case MTest => if s.slots[s.monNext].flag.call then s.(mon := MClearLoad) else s
    case MClearLoad => s.(mon := MClearStore(s.slots[s.monNext].flag))
    case MClearStore(f) => SetFlag(s, s.monNext, f.(call := false)).(mon := MRet)
    case MRet => s.(mon := MCopy(s.slots[s.monNext].flag.ret, []))
    case MCopy(wantRet, got) =>
      if |got| < 8 then s.(mon := MCopy(wantRet, got + [s.slots[s.monNext].args[|got|]]))
      else s.(mon := if wantRet then MExec(true, got) else MFreeLoad(got))
    case MFreeLoad(got) => s.(mon := MFreeStore(got, s.slots[s.monNext].flag))
    case MFreeStore(got, f) => SetFlag(s, s.monNext, f.(inuse := false)).(mon := MExec(false, got))
    case MExec(wantRet, got) =>
      s.(executed := s.executed + [got], results := s.results + [result],
         mon := if wantRet then MSetRet(result) else MAdvance)
    case MSetRet(r) => s.(slots := s.slots[s.monNext := s.slots[s.monNext].(ret := r)], mon := MRetLoad)
    case MRetLoad => s.(mon := MRetStore(s.slots[s.monNext].flag))
    case MRetStore(f) => SetFlag(s, s.monNext, f.(ret := false)).(mon := MAdvance)
    case MAdvance => s.(monNext := Advanced(|s.slots|, s.monNext), mon := MTest)
  }

  ghost predicate Init(s: State) {
    && WellFormed(s) && s.userNext == 0 && s.monNext == 0
    && s.user == UTest && s.mon == MTest
    && (forall j :: 0 <= j < |s.slots| ==> s.slots[j].flag == CLEAR)
    && s.requests == [] && s.submitted == [] && s.executed == [] && s.results == [] && s.returned == []
  }

  ghost predicate Next(s: State, s': State) {
    && WellFormed(s)
    && ((exists r :: s' == UserStep(s, r)) || (exists w: Word :: s' == MonitorStep(s, w)))
  }

  /** A run: any interleaving of the two sides from the set-up state. */
  ghost predicate Run(states: seq<State>) {
    && |states| > 0 && Init(states[0])
    && forall i :: 0 < i < |states| ==> Next(states[i - 1], states[i])
  }

  // The invariant.  Calls are numbered; call i lives in slot i modulo the number of slots.

  ghost function SlotOf(N: nat, i: int): (j: nat)
    requires N > 0
    ensures j < N
  {
    i % N
  }

  /** The number of calls the monitor has moved past. */
  ghost function Completed(s: State): int {
    |s.executed| - if s.mon.MSetRet? || s.mon.MRetLoad? || s.mon.MRetStore? || s.mon.MAdvance? then 1 else 0
  }

  /** The number of calls whose slot the monitor has given back. */
  ghost function Consumed(s: State): int {
    Completed(s) + if s.mon.MAdvance? || (s.mon.MExec? && !s.mon.wantRet) then 1 else 0
  }

  /** The user has marked the next slot and has not yet submitted. */
  ghost predicate Filling(s: State) {
    s.user.UAdvance? || s.user.UChoose? || s.user.URetLoad? || s.user.URetStore?
    || s.user.UArgs? || s.user.UCallLoad? || s.user.UCallStore?
  }

  ghost predicate Asking(s: State) {
    (s.user.UArgs? || s.user.UCallLoad? || s.user.UCallStore?) && s.user.r.wantRet
  }

  /** The user still holds the slot of its last call, to read the result. */
  ghost predicate Holding(s: State) {
    s.user.UWait? || s.user.URead? || s.user.UFreeLoad? || s.user.UFreeStore?
  }

  /** The monitor has taken note of its current call. */
  ghost predicate Taken(s: State) {
    !s.mon.MTest? && !s.mon.MClearLoad? && !s.mon.MClearStore? && !s.mon.MAdvance?
    && !(s.mon.MExec? && !s.mon.wantRet)
  }

  /** The slot of a submitted call that the monitor has not given back. */
  ghost predicate Pending(s: State, i: int)
    requires WellFormed(s) && 0 <= i < |s.requests| == |s.submitted|
  {
    var slot := s.slots[SlotOf(|s.slots|, i)];
    && slot.flag.inuse
    && (slot.flag.call <==> !(i == Completed(s) && Taken(s)))
    && (slot.flag.ret <==> s.requests[i].wantRet)
    && slot.args == s.submitted[i]
    && (s.requests[i].wantRet ==> i == |s.requests| - 1 && s.user.UWait?)
  }

  /** The slot that call i will use, while it is not submitted. */
  ghost predicate Vacant(s: State, i: int)
    requires WellFormed(s)
  {
    var n := |s.requests|;
    var f := s.slots[SlotOf(|s.slots|, i)].flag;
    && (f.inuse <==> (i == n && Filling(s)) || (i == n - 1 + |s.slots| && Holding(s)))
    && !f.call
    && (f.ret <==> i == n && Asking(s))
  }

  ghost predicate Slots(s: State)
    requires WellFormed(s) && |s.submitted| == |s.requests|
  {
    var n := |s.requests|;
    var c := Consumed(s);
    && 0 <= c <= n <= c + |s.slots|
    && (forall i :: c <= i < n ==> Pending(s, i))
    && (forall i :: n <= i < c + |s.slots| ==> Vacant(s, i))
  }

  ghost predicate History(s: State) {
    && |s.submitted| == |s.requests| && |s.results| == |s.executed|
    && s.executed <= s.submitted
    && (forall i :: 0 <= i < |s.requests| ==> Carries(s.submitted[i], s.requests[i]))
    && (forall k :: 0 <= k < |s.returned| ==>
          s.returned[k].0 < |s.results| && s.returned[k].1 == s.results[s.returned[k].0])
  }

  ghost predicate UserLocals(s: State)
    requires WellFormed(s)
  {
    var n := |s.requests|;
    var N := |s.slots|;
    var open := n < Consumed(s) + N;
    && s.userNext == SlotOf(N, if Filling(s) && !s.user.UAdvance? then n + 1 else n)
    && (Filling(s) && !s.user.UAdvance? ==> s.userSlot == SlotOf(N, n))
    && (Holding(s) ==> n > 0 && s.userSlot == SlotOf(N, n - 1) && s.requests[n - 1].wantRet)
    && (s.user.USetLoad? || s.user.USetStore? || Filling(s) ==> open)
    && (s.user.USetStore? ==> s.user.f == CLEAR)
    && (s.user.URetLoad? || s.user.URetStore? ==> s.user.r.wantRet)
    && (s.user.URetStore? ==> s.user.f == Flag(true, false, false))
    && (s.user.UCallStore? ==> s.user.f == Flag(true, false, s.user.r.wantRet))
    && (s.user.UArgs? ==> Stores(s.user.r.call)[..s.user.k] <= s.slots[s.userSlot].args)
    && (s.user.UCallLoad? || s.user.UCallStore? ==> Carries(s.slots[s.userSlot].args, s.user.r))
    && (Holding(s) && Consumed(s) == n ==> |s.results| == n && s.slots[s.userSlot].ret == s.results[n - 1])
    && (s.user.URead? || s.user.UFreeLoad? || s.user.UFreeStore? ==> Consumed(s) == n)
    && (s.user.UFreeStore? ==> s.user.f == Flag(true, false, false))
  }

  ghost predicate MonitorLocals(s: State)
    requires WellFormed(s) && |s.submitted| == |s.requests|
  {
    var c := Completed(s);
    && 0 <= c && s.monNext == SlotOf(|s.slots|, c)
    && (!s.mon.MTest? ==> c < |s.requests|)
    && (s.mon.MClearStore? ==> s.mon.f == Flag(true, true, s.requests[c].wantRet))
    && (s.mon.MCopy? ==> s.mon.wantRet == s.requests[c].wantRet && s.mon.got <= s.submitted[c])
    && (s.mon.MFreeLoad? || s.mon.MFreeStore? ==> s.mon.got == s.submitted[c] && !s.requests[c].wantRet)
    && (s.mon.MFreeStore? ==> s.mon.f == Flag(true, false, false))
    && (s.mon.MExec? ==> s.mon.got == s.submitted[c] && s.mon.wantRet == s.requests[c].wantRet)
    && (s.mon.MSetRet? || s.mon.MRetLoad? || s.mon.MRetStore? ==> s.requests[c].wantRet && |s.results| == c + 1)
    && (s.mon.MSetRet? ==> s.mon.r == s.results[c])
    && (s.mon.MRetLoad? || s.mon.MRetStore? ==> s.slots[s.monNext].ret == s.results[c])
    && (s.mon.MRetStore? ==> s.mon.f == Flag(true, false, true))
  }

  ghost predicate Inv(s: State) {
    && WellFormed(s) && History(s) && UserLocals(s) && MonitorLocals(s)
    && Slots(s)
  }

  /** Writing the slot of call x leaves the slots of the other calls in the window alone. */
  lemma OtherSlots(N: nat, x: int, low: int)
    requires N > 0 && low <= x < low + N
    ensures forall i :: low <= i < low + N && i != x ==> SlotOf(N, i) != SlotOf(N, x)
  {
    forall i | low <= i < low + N && i != x ensures SlotOf(N, i) != SlotOf(N, x) {
      if i < x {
        Arith.ModDistinct(i, x, N);
      } else {
        Arith.ModDistinct(x, i, N);
      }
    }
  }

  lemma SlotSteps(N: nat, i: int)
    requires N > 0
    ensures SlotOf(N, i + N) == SlotOf(N, i)
    ensures Advanced(N, SlotOf(N, i)) == SlotOf(N, i + 1)
  {
    Arith.ModNext(i, N);
    Arith.ModPeriod(i, N);
  }

  lemma InitHolds(s: State)
    requires Init(s)
    ensures Inv(s)
  {
  }

  /** What the writers need: which slots the next call, the held call and the monitor's call are in. */
  lemma Window(s: State)
    requires Inv(s)
    ensures var n, N, c := |s.requests|, |s.slots|, Consumed(s);
            && SlotOf(N, n - 1 + N) == SlotOf(N, n - 1) && SlotOf(N, n) == SlotOf(N, n - N)
            && SlotOf(N, c + N) == SlotOf(N, c)
            && (forall i :: c <= i < c + N && i != n && n < c + N ==> SlotOf(N, i) != SlotOf(N, n))
            && (forall i :: c <= i < c + N && i != n - 1 + N && n - 1 < c ==> SlotOf(N, i) != SlotOf(N, n - 1))
            && (forall i :: c < i < c + N ==> SlotOf(N, i) != SlotOf(N, c))
            && (n < c + N ==> Vacant(s, n))
            && (n - 1 < c ==> Vacant(s, n - 1 + N))
  {
    var n, N, c := |s.requests|, |s.slots|, Consumed(s);
    SlotSteps(N, n - N);
    SlotSteps(N, n - 1);
    SlotSteps(N, c);
    OtherSlots(N, c, c);
    if n < c + N {
      OtherSlots(N, n, c);
    }
    if n - 1 < c {
      OtherSlots(N, n - 1 + N, c);
    }
  }

  /** Steps that write no flag or argument and leave every slot with its holder. */
  lemma QuietKeepsSlots(s: State, s': State)
    requires WellFormed(s) && |s.submitted| == |s.requests| && Slots(s)
    requires WellFormed(s') && s'.slots == s.slots && s'.requests == s.requests && s'.submitted == s.submitted
    requires Consumed(s') == Consumed(s)
    requires Taken(s') == Taken(s) && (Taken(s) ==> Completed(s') == Completed(s))
    requires Filling(s') == Filling(s) && Holding(s') == Holding(s) && Asking(s') == Asking(s)
    requires s'.user.UWait? == s.user.UWait? || Consumed(s) == |s.requests|
             || !s.requests[|s.requests| - 1].wantRet
    ensures Slots(s')
  {
    forall i | Consumed(s) <= i < |s.requests| ensures Pending(s', i) { assert Pending(s, i); }
    forall i | |s.requests| <= i < Consumed(s) + |s.slots| ensures Vacant(s', i) { assert Vacant(s, i); }
  }

  lemma ArgsStep(s: State)
    requires WellFormed(s) && s.user.UArgs?
    requires Stores(s.user.r.call)[..s.user.k] <= s.slots[s.userSlot].args
    ensures var st, k, args := Stores(s.user.r.call), s.user.k, s.slots[s.userSlot].args;
            if k == |st| then Carries(args, s.user.r) else st[..k + 1] <= args[k := st[k]]
  {
  }

  /** A flag that the user sets does not touch what the monitor knows. */
  lemma MonitorSeesFlag(s: State, s': State, j: nat, f: Flag)
    requires Inv(s) && j < |s.slots| && s' == SetFlag(s, j, f).(user := s'.user) && WellFormed(s')
    ensures History(s') && MonitorLocals(s')
  {
    hide SlotOf, Carries, Slots, UserLocals;
  }

  /** Nor one that the monitor clears what the user knows. */
  lemma UserSeesFlag(s: State, s': State, j: nat, f: Flag)
    requires Inv(s) && j < |s.slots| && s' == SetFlag(s, j, f).(mon := s'.mon) && WellFormed(s')
    requires var c := Consumed(s);
             Consumed(s') == c || (Consumed(s') == c + 1 && 0 <= c < |s.requests| && !s.requests[c].wantRet)
    ensures History(s') && UserLocals(s')
  {
    hide SlotOf, Carries, Slots, MonitorLocals;
  }

  lemma USetStoreKeeps(s: State, r: Request)
    requires Inv(s) && s.user.USetStore?
    ensures Inv(UserStep(s, r))
  {
    hide SlotOf, Advanced, Carries;
    var n, N, c := |s.requests|, |s.slots|, Consumed(s);
    Window(s);
    var s' := SetFlag(s, s.userNext, s.user.f.(inuse := true)).(user := UAdvance);
    assert s' == UserStep(s, r);
    MonitorSeesFlag(s, s', s.userNext, s.user.f.(inuse := true));
    hide UserStep, MonitorLocals, History;
    forall i | c <= i < n ensures Pending(s', i) { assert Pending(s, i); }
    forall i | n <= i < c + N ensures Vacant(s', i) { assert Vacant(s, i); }
  }

  lemma URetStoreKeeps(s: State, r: Request)
    requires Inv(s) && s.user.URetStore?
    ensures Inv(UserStep(s, r))
  {
    hide SlotOf, Advanced, Carries;
    var n, N, c := |s.requests|, |s.slots|, Consumed(s);
    Window(s);
    var s' := SetFlag(s, s.userSlot, s.user.f.(ret := true)).(user := UArgs(s.user.r, 0));
    assert s' == UserStep(s, r);
    MonitorSeesFlag(s, s', s.userSlot, s.user.f.(ret := true));
    hide UserStep, MonitorLocals, History;
    forall i | c <= i < n ensures Pending(s', i) { assert Pending(s, i); }
    forall i | n <= i < c + N ensures Vacant(s', i) { assert Vacant(s, i); }
  }

  lemma UArgsKeeps(s: State, r: Request)
    requires Inv(s) && s.user.UArgs?
    ensures Inv(UserStep(s, r))
  {
    if s.user.k == |Stores(s.user.r.call)| {
      UArgsDone(s, r);
    } else {
      UArgStored(s, r);
    }
  }

  lemma UArgsDone(s: State, r: Request)
    requires Inv(s) && s.user.UArgs? && s.user.k == |Stores(s.user.r.call)|
    ensures Inv(UserStep(s, r))
  {
    hide SlotOf, Advanced, Carries;
    var s' := s.(user := UCallLoad(s.user.r));
    assert s' == UserStep(s, r);
    hide UserStep;
    ArgsStep(s);
    QuietKeepsSlots(s, s');
  }

  ghost function ArgStored(s: State): State
    requires WellFormed(s) && s.user.UArgs? && s.user.k < |Stores(s.user.r.call)|
  {
    var slot, k := s.slots[s.userSlot], s.user.k;
    s.(slots := s.slots[s.userSlot := slot.(args := slot.args[k := Stores(s.user.r.call)[k]])],
      user := UArgs(s.user.r, k + 1))
  }

  lemma ArgStoredSlots(s: State)
    requires Inv(s) && s.user.UArgs? && s.user.k < |Stores(s.user.r.call)|
    ensures WellFormed(ArgStored(s)) && Slots(ArgStored(s))
  {
    hide SlotOf, Advanced, Carries, MonitorLocals;
    var n, N, c := |s.requests|, |s.slots|, Consumed(s);
    Window(s);
    var s' := ArgStored(s);
    forall i | c <= i < n ensures Pending(s', i) { assert Pending(s, i); }
    forall i | n <= i < c + N ensures Vacant(s', i) { assert Vacant(s, i); }
  }

  lemma UArgStored(s: State, r: Request)
    requires Inv(s) && s.user.UArgs? && s.user.k < |Stores(s.user.r.call)|
    ensures Inv(UserStep(s, r))
  {
    hide SlotOf, Advanced, Carries, Pending, Vacant;
    var s' := ArgStored(s);
    assert s' == UserStep(s, r);
    hide UserStep;
    Window(s);
    ArgsStep(s);
    ArgStoredSlots(s);
    hide Slots;
  }

  lemma SubmitKeepsSlots(s: State, r: Request)
    requires Inv(s) && s.user.UCallStore?
    ensures |UserStep(s, r).submitted| == |UserStep(s, r).requests| && Slots(UserStep(s, r))
  {
    hide SlotOf, Carries, Pending, Vacant, MonitorLocals;
    var n, N, c := |s.requests|, |s.slots|, Consumed(s);
    forall i | c <= i <= n ensures Pending(UserStep(s, r), i) { SubmitPending(s, r, i); }
    forall i | n < i < c + N ensures Vacant(UserStep(s, r), i) { SubmitVacant(s, r, i); }
  }

  lemma SubmitPending(s: State, r: Request, i: int)
    requires Inv(s) && s.user.UCallStore? && Consumed(s) <= i <= |s.requests|
    ensures |UserStep(s, r).submitted| == |UserStep(s, r).requests| && i < |UserStep(s, r).requests|
    ensures Pending(UserStep(s, r), i)
  {
    hide SlotOf, Carries;
    Window(s);
    assert i < |s.requests| ==> Pending(s, i);
    hide MonitorLocals;
  }

  lemma SubmitVacant(s: State, r: Request, i: int)
    requires Inv(s) && s.user.UCallStore? && |s.requests| < i < Consumed(s) + |s.slots|
    ensures Vacant(UserStep(s, r), i)
  {
    hide SlotOf, Carries;
    Window(s);
    assert Vacant(s, i);
    hide MonitorLocals;
  }

  lemma UCallStoreKeeps(s: State, r: Request)
    requires Inv(s) && s.user.UCallStore?
    ensures Inv(UserStep(s, r))
  {
    hide SlotOf, Advanced, Carries;
    SubmitKeepsSlots(s, r);
    hide Slots;
  }

  lemma UFreeStoreKeeps(s: State, r: Request)
    requires Inv(s) && s.user.UFreeStore?
    ensures Inv(UserStep(s, r))
  {
    hide SlotOf, Advanced, Carries;
    var n, N, c := |s.requests|, |s.slots|, Consumed(s);
    Window(s);
    var s' := UserStep(s, r);
    forall i | n <= i < c + N ensures Vacant(s', i) { assert Vacant(s, i); }
  }

  lemma MClearStoreKeeps(s: State, w: Word)
    requires Inv(s) && s.mon.MClearStore?
    ensures Inv(MonitorStep(s, w))
  {
    hide SlotOf, Advanced, Carries;
    var n, N, c := |s.requests|, |s.slots|, Completed(s);
    Window(s);
    assert Pending(s, c);
    var s' := SetFlag(s, s.monNext, s.mon.f.(call := false)).(mon := MRet);
    assert s' == MonitorStep(s, w);
    UserSeesFlag(s, s', s.monNext, s.mon.f.(call := false));
    hide MonitorStep, UserLocals, History;
    forall i | Consumed(s') <= i < n ensures Pending(s', i) { assert Pending(s, i); }
    forall i | n <= i < Consumed(s') + N ensures Vacant(s', i) { if i < c + N { assert Vacant(s, i); } }
  }

  lemma MFreeStoreKeeps(s: State, w: Word)
    requires Inv(s) && s.mon.MFreeStore?
    ensures Inv(MonitorStep(s, w))
  {
    hide SlotOf, Advanced, Carries;
    var n, N, c := |s.requests|, |s.slots|, Completed(s);
    Window(s);
    assert Pending(s, c);
    var s' := SetFlag(s, s.monNext, s.mon.f.(inuse := false)).(mon := MExec(false, s.mon.got));
    assert s' == MonitorStep(s, w);
    UserSeesFlag(s, s', s.monNext, s.mon.f.(inuse := false));
    assert Holding(s) ==> n > 0 && s.requests[n - 1].wantRet;
    hide MonitorStep, UserLocals, History;
    forall i | Consumed(s') <= i < n ensures Pending(s', i) { assert Pending(s, i); }
    forall i | n <= i < Consumed(s') + N ensures Vacant(s', i) { if i < c + N { assert Vacant(s, i); } }
  }

  lemma MSetRetKeeps(s: State, w: Word)
    requires Inv(s) && s.mon.MSetRet?
    ensures Inv(MonitorStep(s, w))
  {
    hide SlotOf, Advanced, Carries;
    var n, N, c := |s.requests|, |s.slots|, Completed(s);
    Window(s);
    assert Pending(s, c);
    var s' := MonitorStep(s, w);
    forall i | Consumed(s') <= i < n ensures Pending(s', i) { assert Pending(s, i); }
    forall i | n <= i < Consumed(s') + N ensures Vacant(s', i) { if i < c + N { assert Vacant(s, i); } }
  }

  lemma MRetStoreKeeps(s: State, w: Word)
    requires Inv(s) && s.mon.MRetStore?
    ensures Inv(MonitorStep(s, w))
  {
    hide SlotOf, Advanced, Carries;
    var n, N, c := |s.requests|, |s.slots|, Completed(s);
    Window(s);
    assert Pending(s, c);
    var s' := SetFlag(s, s.monNext, s.mon.f.(ret := false)).(mon := MAdvance);
    assert s' == MonitorStep(s, w);
    hide MonitorStep;
    forall i | n <= i < Consumed(s') + N ensures Vacant(s', i) { if i < c + N { assert Vacant(s, i); } }
  }

  /** What the user sees when it loads a flag. */
  lemma UserReads(s: State)
    requires Inv(s)
    ensures var next, slot := s.slots[s.userNext].flag, s.slots[s.userSlot].flag;
            && (s.user.UTest? && !next.inuse ==> |s.requests| < Consumed(s) + |s.slots|)
            && (s.user.USetLoad? ==> next == CLEAR)
            && (s.user.URetLoad? || s.user.UFreeLoad? ==> slot == Flag(true, false, false))
            && (s.user.UCallLoad? ==> slot == Flag(true, false, s.user.r.wantRet))
            && (s.user.UWait? && !slot.ret ==> Consumed(s) == |s.requests|)
  {
    hide SlotOf, Carries;
    Window(s);
    if Consumed(s) < |s.requests| {
      assert Pending(s, Consumed(s)) && Pending(s, |s.requests| - 1);
    }
  }

  ghost predicate UserQuiet(s: State) {
    !s.user.USetStore? && !s.user.URetStore? && !s.user.UArgs? && !s.user.UCallStore? && !s.user.UFreeStore?
  }

  /** A load or a move of the user's own variables. */
  lemma UserQuietStep(s: State, r: Request)
    requires WellFormed(s) && UserQuiet(s)
    ensures var s' := UserStep(s, r);
            && WellFormed(s')
            && s' == s.(userNext := s'.userNext, userSlot := s'.userSlot, user := s'.user, returned := s'.returned)
            && Filling(s') == Filling(s) && Holding(s') == Holding(s) && Asking(s') == Asking(s)
            && (s'.user.UWait? == s.user.UWait? || (s.user.UWait? && !s.slots[s.userSlot].flag.ret))
  {
    hide Advanced;
  }

  lemma UserQuietKeeps(s: State, r: Request)
    requires Inv(s) && UserQuiet(s)
    ensures Inv(UserStep(s, r))
  {
    hide SlotOf, Advanced, Carries, Pending, Vacant, MonitorLocals, UserLocals, Slots, UserStep, Filling, Holding,
        Asking;
    UserReads(s);
    UserQuietStep(s, r);
    QuietKeepsSlots(s, UserStep(s, r));
    MonitorUnmoved(s, UserStep(s, r));
    UserQuietLocals(s, r);
  }

  lemma UserQuietLocals(s: State, r: Request)
    requires Inv(s) && UserQuiet(s)
    ensures UserLocals(UserStep(s, r)) && History(UserStep(s, r))
  {
    UserQuietHistory(s, r);
    hide Inv, History, UserLocals, UserStep;
    if Filling(s) {
      FillingLocals(s, r);
    } else {
      RestingLocals(s, r);
    }
  }

  lemma FillingLocals(s: State, r: Request)
    requires Inv(s) && UserQuiet(s) && Filling(s)
    ensures UserLocals(UserStep(s, r))
  {
    hide SlotOf, Advanced, Carries, Pending, Vacant, MonitorLocals;
    UserReads(s);
    SlotSteps(|s.slots|, |s.requests|);
    hide Slots, History;
    match s.user
    case UAdvance =>
    case UChoose =>
    case URetLoad(q) =>
    case UCallLoad(q) =>
  }

  lemma RestingLocals(s: State, r: Request)
    requires Inv(s) && UserQuiet(s) && !Filling(s)
    ensures UserLocals(UserStep(s, r))
  {
    hide SlotOf, Advanced, Carries, Pending, Vacant, MonitorLocals;
    UserReads(s);
    assert s.user.URead? ==> Consumed(s) == |s.requests| && |s.results| == |s.requests|;
    hide Slots, History;
    match s.user
    case UTest =>
    case USetLoad =>
    case UWait =>
    case URead =>
    case UFreeLoad =>
  }

  lemma UserQuietHistory(s: State, r: Request)
    requires Inv(s) && UserQuiet(s)
    ensures History(UserStep(s, r))
  {
    hide SlotOf, Advanced, Carries, Pending, Vacant, MonitorLocals;
    assert s.user.URead? ==> Consumed(s) == |s.requests| && |s.results| == |s.requests|;
    hide Slots;
  }

  lemma MonitorUnmoved(s: State, s': State)
    requires Inv(s) && WellFormed(s')
    requires s' == s.(userNext := s'.userNext, userSlot := s'.userSlot, user := s'.user, returned := s'.returned)
    ensures MonitorLocals(s')
  {
  }

  lemma UserKeeps(s: State, r: Request)
    requires Inv(s)
    ensures Inv(UserStep(s, r))
  {
    hide Inv, UserStep;
    match s.user
    case USetStore(f) => USetStoreKeeps(s, r);
    case URetStore(q, f) => URetStoreKeeps(s, r);
    case UArgs(q, k) => UArgsKeeps(s, r);
    case UCallStore(q, f) => UCallStoreKeeps(s, r);
    case UFreeStore(f) => UFreeStoreKeeps(s, r);
    case _ => UserQuietKeeps(s, r);
  }

  /** What the monitor sees when it loads a flag. */
  lemma MonitorReads(s: State)
    requires Inv(s)
    ensures var n, c, slot := |s.requests|, Completed(s), s.slots[s.monNext];
            && (s.mon.MTest? && slot.flag.call ==> c < n)
            && (s.mon.MClearLoad? ==> slot.flag == Flag(true, true, s.requests[c].wantRet))
            && (s.mon.MRet? || s.mon.MFreeLoad? || s.mon.MRetLoad? ==>
                  slot.flag == Flag(true, false, s.requests[c].wantRet))
            && (s.mon.MCopy? ==> slot.args == s.submitted[c])
            && (s.mon.MExec? && Holding(s) ==> Consumed(s) < n)
  {
    hide SlotOf, Carries;
    var n, c := |s.requests|, Completed(s);
    if Consumed(s) <= c < n {
      assert Pending(s, c);
    } else if c == n {
      assert Vacant(s, c);
    }
  }

  lemma UserUnmoved(s: State, s': State)
    requires Inv(s) && WellFormed(s') && Consumed(s') == Consumed(s) && s.results <= s'.results
    requires s' == s.(monNext := s'.monNext, mon := s'.mon, executed := s'.executed, results := s'.results)
    requires Holding(s) && Consumed(s) == |s.requests| ==> s'.results == s.results
    ensures UserLocals(s')
  {
  }

  ghost predicate MonitorQuiet(s: State) {
    !s.mon.MClearStore? && !s.mon.MFreeStore? && !s.mon.MSetRet? && !s.mon.MRetStore?
  }

  /** A load, the call itself, or a move of the monitor's own variables. */
  lemma MonitorQuietStep(s: State, w: Word)
    requires WellFormed(s) && MonitorQuiet(s)
    ensures var s' := MonitorStep(s, w);
            && WellFormed(s')
            && s' == s.(monNext := s'.monNext, mon := s'.mon, executed := s'.executed, results := s'.results)
            && Consumed(s') == Consumed(s) && Taken(s') == Taken(s)
            && (Taken(s) ==> Completed(s') == Completed(s))
            && s.results <= s'.results && (!s.mon.MExec? ==> s'.results == s.results)
  {
    hide Advanced;
  }

  lemma MonitorQuietKeeps(s: State, w: Word)
    requires Inv(s) && MonitorQuiet(s)
    ensures Inv(MonitorStep(s, w))
  {
    hide SlotOf, Advanced, Carries, Pending, Vacant, UserLocals, Slots, MonitorLocals, MonitorStep, Consumed,
        Completed, Taken;
    MonitorReads(s);
    MonitorQuietStep(s, w);
    QuietKeepsSlots(s, MonitorStep(s, w));
    UserUnmoved(s, MonitorStep(s, w));
    MonitorQuietLocals(s, w);
  }

  lemma MonitorQuietLocals(s: State, w: Word)
    requires Inv(s) && MonitorQuiet(s)
    ensures |MonitorStep(s, w).submitted| == |MonitorStep(s, w).requests|
    ensures MonitorLocals(MonitorStep(s, w)) && History(MonitorStep(s, w))
  {
    hide SlotOf, Advanced, Carries, Pending, Vacant, UserLocals;
    MonitorReads(s);
    SlotSteps(|s.slots|, Completed(s));
    assert s.mon.MAdvance? ==> Completed(s) + 1 <= |s.requests|;
    hide Slots;
    match s.mon
    case MTest =>
    case MClearLoad =>
    case MRet =>
    case MCopy(want, got) =>
    case MFreeLoad(got) =>
    case MExec(want, got) => assert s.executed + [got] <= s.submitted;
    case MRetLoad =>
    case MAdvance =>
  }

  lemma MonitorAlone(s: State, w: Word)
    requires WellFormed(s)
    ensures MonitorStep(s, w).user == s.user && MonitorStep(s, w).requests == s.requests
  {
  }

  lemma MonitorKeeps(s: State, w: Word)
    requires Inv(s)
    ensures Inv(MonitorStep(s, w))
    ensures MonitorStep(s, w).user == s.user && MonitorStep(s, w).requests == s.requests
  {
    MonitorAlone(s, w);
    hide Inv, MonitorStep;
    match s.mon
    case MClearStore(f) => MClearStoreKeeps(s, w);
    case MFreeStore(got, f) => MFreeStoreKeeps(s, w);
    case MSetRet(v) => MSetRetKeeps(s, w);
    case MRetStore(f) => MRetStoreKeeps(s, w);
    case _ => MonitorQuietKeeps(s, w);
  }

  /** Every reachable state satisfies the invariant. */
  lemma {:induction false} RunKeeps(states: seq<State>, i: nat)
    requires Run(states) && i < |states|
    ensures Inv(states[i])
  {
    if i == 0 {
      InitHolds(states[0]);
    } else {
      RunKeeps(states, i - 1);
      var s, s' := states[i - 1], states[i];
      assert Next(s, s');
      if r :| s' == UserStep(s, r) {
        UserKeeps(s, r);
      } else {
        var w: Word :| s' == MonitorStep(s, w);
        MonitorKeeps(s, w);
      }
    }
  }

  /**
   In every interleaving the executed calls are a prefix of the submitted ones, in order and
   each once; each carries the words its request wrote; and a result the user picks up is the
   result of its own request.
   */
  lemma CallsInOrder(states: seq<State>, i: nat)
    requires Run(states) && i < |states|
    ensures var s := states[i];
            && s.executed <= s.submitted && |s.submitted| == |s.requests| && |s.results| == |s.executed|
            && (forall k :: 0 <= k < |s.executed| ==> Carries(s.executed[k], s.requests[k]))
            && (forall k :: 0 <= k < |s.returned| ==>
                  s.returned[k].0 < |s.results| && s.returned[k].1 == s.results[s.returned[k].0])
            && |s.requests| <= |s.executed| + |s.slots| + 1
  {
    RunKeeps(states, i);
  }

  /**
   Ownership of a flag is handed over: whenever one side is about to store a flag it loaded,
   the flag still has that value, so no update of the other side is lost.
   */
  lemma NoLostUpdate(states: seq<State>, i: nat)
    requires Run(states) && i < |states|
    ensures WellFormed(states[i])
    ensures var s := states[i];
            && (s.user.USetStore? ==> s.slots[s.userNext].flag == s.user.f)
            && (s.user.URetStore? || s.user.UCallStore? || s.user.UFreeStore? ==> s.slots[s.userSlot].flag == s.user.f)
            && (s.mon.MClearStore? || s.mon.MFreeStore? || s.mon.MRetStore? ==> s.slots[s.monNext].flag == s.mon.f)
  {
    RunKeeps(states, i);
    var s := states[i];
    Window(s);
    if s.mon.MClearStore? || s.mon.MFreeStore? || s.mon.MRetStore? {
      assert Pending(s, Completed(s));
    }
  }

  // Progress: a monitor that keeps polling never leaves the user waiting.

  /** How far the monitor is with its current call, of 20 steps. */
  ghost function Stage(m: MonitorPc): int {
    match m
    case MTest => 0
    case MClearLoad => 1
    case MClearStore(_) => 2
    case MRet => 3
    case MCopy(_, got) => 4 + |got|
    case MFreeLoad(_) => 13
    case MFreeStore(_, _) => 14
    case MExec(_, _) => 15
    case MSetRet(_) => 16
    case MRetLoad => 17
    case MRetStore(_) => 18
    case MAdvance => 19
  }

  /** A bound on the steps the monitor has left. */
  ghost function Work(s: State): int {
    20 * (|s.requests| - Completed(s)) - Stage(s.mon)
  }

  /** The user is polling a flag that only the monitor can change. */
  predicate Blocked(s: State)
    requires WellFormed(s)
  {
    (s.user.UTest? && s.slots[s.userNext].flag.inuse) || (s.user.UWait? && s.slots[s.userSlot].flag.ret)
  }

  /** What polling finds: the flag is up exactly when a call waits. */
  lemma PollFinds(s: State)
    requires Inv(s)
    ensures |s.requests| == |s.submitted| && 0 <= Completed(s) <= |s.requests|
    ensures s.mon.MTest? ==> (s.slots[s.monNext].flag.call <==> Completed(s) < |s.requests|)
    ensures s.mon.MTest? ==> (Completed(s) == |s.requests| <==> s.executed == s.submitted)
    ensures !s.mon.MTest? ==> Completed(s) < |s.requests|
  {
    var c := Completed(s);
    if s.mon.MTest? {
      assert c < |s.requests| ==> Pending(s, c);
      assert c == |s.requests| ==> Vacant(s, c);
    }
  }

  /** Each step takes the current call further. */
  lemma StageGrows(s: State, w: Word)
    requires WellFormed(s) && (s.mon.MTest? ==> s.slots[s.monNext].flag.call)
    ensures var s' := MonitorStep(s, w);
            s'.requests == s.requests && 20 * Completed(s') + Stage(s'.mon) > 20 * Completed(s) + Stage(s.mon)
  {
  }

  /** The monitor polls in vain exactly when it has done every call; otherwise its step is progress. */
  lemma MonitorProgress(s: State, w: Word)
    requires Inv(s)
    ensures Work(s) >= 0
    ensures MonitorStep(s, w) == s <==> Work(s) == 0
    ensures Work(s) == 0 <==> s.mon.MTest? && s.executed == s.submitted
    ensures Work(s) > 0 ==> Work(MonitorStep(s, w)) < Work(s)
  {
    PollFinds(s);
    assert MonitorStep(s, w) == s || !s.mon.MTest? || s.slots[s.monNext].flag.call;
    hide Inv, MonitorStep, Completed;
    if !s.mon.MTest? || s.slots[s.monNext].flag.call {
      StageGrows(s, w);
    }
  }

  /** With every call done the user is free to go on. */
  lemma IdleUnblocks(s: State)
    requires Inv(s) && s.mon.MTest? && s.executed == s.submitted
    ensures !Blocked(s)
  {
    Window(s);
  }

  /** The monitor alone, with the results of the calls it makes. */
  ghost function MonitorSteps(s: State, ws: seq<Word>): (s': State)
    requires Inv(s)
    ensures Inv(s') && s'.user == s.user && s'.requests == s.requests
    decreases |ws|
  {
    if ws == [] then s else MonitorKeeps(s, ws[0]); hide MonitorStep, Inv; MonitorSteps(MonitorStep(s, ws[0]), ws[1..])
  }

  lemma {:induction false} Drains(s: State, ws: seq<Word>)
    requires Inv(s) && Work(s) <= |ws|
    ensures var s' := MonitorSteps(s, ws); s'.executed == s'.submitted && !Blocked(s')
    decreases |ws|
  {
    if ws == [] {
      MonitorProgress(s, 0);
      IdleUnblocks(s);
    } else {
      MonitorProgress(s, ws[0]);
      MonitorKeeps(s, ws[0]);
      Drains(MonitorStep(s, ws[0]), ws[1..]);
    }
  }

  /**
   No deadlock: from any reachable state the monitor, stepping alone, has every submitted call
   executed after 20 steps for each slot and one call more, and then the user is not blocked.
   */
  lemma NeverStuck(states: seq<State>, i: nat, ws: seq<Word>)
    requires Run(states) && i < |states| && |ws| >= 20 * (|states[i].slots| + 1)
    ensures Inv(states[i])
    ensures var s := MonitorSteps(states[i], ws); s.executed == s.submitted && !Blocked(s)
  {
    RunKeeps(states, i);
    WorkBound(states[i]);
    hide Run, Inv, MonitorSteps, Blocked, Work;
    Drains(states[i], ws);
  }

  lemma WorkBound(s: State)
    requires Inv(s)
    ensures Work(s) <= 20 * (|s.slots| + 1)
  {
    hide Pending, Vacant, UserLocals, MonitorLocals;
    StageBound(s.mon);
    hide Stage;
  }

  lemma StageBound(m: MonitorPc)
    ensures Stage(m) >= 0
  {
  }
}
