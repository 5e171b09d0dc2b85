/**
 lib/rwlock.c: the split reader/writer lock.  Each step below is one atomic access of the
 lock by one thread; any number of threads run, several of them on the same reader slot.
 */
module RwLock {

  const SRW_NREADERS: nat := 16
  const COUNTER_RANGE: nat := 0x1_0000_0000

  datatype Pc =
    | Idle
    | ReadSpin | Reading | ReadLeave
    | WriteScan(i: nat) | WriteCas | WriteCheck(i: nat) | WriteBack | Writing | WriteLeave

  datatype Thread = Thread(pid: nat, pc: Pc)

  datatype State = State(writeLocked: nat, readers: seq<nat>, threads: seq<Thread>)

  function SlotOf(pid: nat): (j: nat)
    ensures j < SRW_NREADERS
  {
    pid % SRW_NREADERS
  }

  predicate WellFormed(s: State) {
    && |s.readers| == SRW_NREADERS
    && forall k :: 0 <= k < |s.threads| ==>
         var pc := s.threads[k].pc; (pc.WriteScan? || pc.WriteCheck? ==> pc.i < SRW_NREADERS)
  }

  function Goto(s: State, k: nat, pc: Pc): State
    requires k < |s.threads|
  {
    s.(threads := s.threads[k := s.threads[k].(pc := pc)])
  }

  /** The next step of thread k; `write` is the choice an idle thread makes. */
  function Step(s: State, k: nat, write: bool): State
    requires WellFormed(s) && k < |s.threads|
  {
    var t := s.threads[k];
    var j := SlotOf(t.pid);
    match t.pc
    case Idle =>
      if write then Goto(s, k, WriteScan(0))
      else Goto(s.(readers := s.readers[j := (s.readers[j] + 1) % COUNTER_RANGE]), k, ReadSpin)
    case ReadSpin => if s.writeLocked != 0 then s else Goto(s, k, Reading)
    case Reading => Goto(s, k, ReadLeave)
    case ReadLeave =>
      Goto(s.(readers := s.readers[j := (s.readers[j] + COUNTER_RANGE - 1) % COUNTER_RANGE]), k, Idle)
    case WriteScan(i) =>
      if s.readers[i] != 0 then Goto(s, k, WriteScan(0))
      else if i + 1 < SRW_NREADERS then Goto(s, k, WriteScan(i + 1))
      else Goto(s, k, WriteCas)
    case WriteCas =>
      if s.writeLocked == 1 then s
      else Goto(if s.writeLocked == 0 then s.(writeLocked := 1) else s, k, WriteCheck(0))
    case WriteCheck(i) =>
      if s.readers[i] != 0 then Goto(s, k, WriteBack)
      else if i + 1 < SRW_NREADERS then Goto(s, k, WriteCheck(i + 1))
      else Goto(s, k, Writing)
    case WriteBack => Goto(s.(writeLocked := 0), k, WriteScan(0))
    case Writing => Goto(s, k, WriteLeave)
    case WriteLeave => Goto(s.(writeLocked := 0), k, Idle)
  }

  ghost predicate Init(s: State) {
    && s.writeLocked == 0 && |s.readers| == SRW_NREADERS && |s.threads| < COUNTER_RANGE
    && (forall j :: 0 <= j < SRW_NREADERS ==> s.readers[j] == 0)
    && (forall k :: 0 <= k < |s.threads| ==> s.threads[k].pc == Idle)
  }

  ghost predicate Next(s: State, s': State) {
    WellFormed(s) && exists k: nat, write :: k < |s.threads| && s' == Step(s, k, write)
  }

  ghost predicate Run(states: seq<State>) {
    && |states| > 0 && Init(states[0])
    && forall i :: 0 < i < |states| ==> Next(states[i - 1], states[i])
  }

  // The invariant.

  /** Counted in a reader slot. */
  predicate Counted(t: Thread, j: nat) {
    (t.pc.ReadSpin? || t.pc.Reading? || t.pc.ReadLeave?) && SlotOf(t.pid) == j
  }

  /** Between a successful compare-and-exchange and the store that clears the word. */
  predicate Owner(t: Thread) {
    t.pc.WriteCheck? || t.pc.WriteBack? || t.pc.Writing? || t.pc.WriteLeave?
  }

  function Count(ts: seq<Thread>, j: nat): nat {
    if ts == [] then 0 else Count(ts[1..], j) + if Counted(ts[0], j) then 1 else 0
  }

  lemma {:induction false} CountUpdate(ts: seq<Thread>, k: nat, t: Thread, j: nat)
    requires k < |ts|
    ensures Count(ts[k := t], j) ==
            Count(ts, j) + (if Counted(t, j) then 1 else 0) - (if Counted(ts[k], j) then 1 else 0)
  {
    if k > 0 {
      CountUpdate(ts[1..], k - 1, t, j);
      assert ts[k := t][1..] == ts[1..][k - 1 := t];
    } else {
      assert ts[k := t][1..] == ts[1..];
    }
  }

  lemma {:induction false} CountPositive(ts: seq<Thread>, k: nat, j: nat)
    requires k < |ts|
    ensures Count(ts, j) <= |ts|
    ensures Counted(ts[k], j) ==> 0 < Count(ts, j)
  {
    if k > 0 {
      CountPositive(ts[1..], k - 1, j);
    } else if |ts| > 1 {
      CountPositive(ts[1..], 0, j);
    }
  }

  ghost predicate Inv(s: State) {
    && WellFormed(s) && |s.threads| < COUNTER_RANGE
    && (forall j :: 0 <= j < SRW_NREADERS ==> s.readers[j] == Count(s.threads, j))
    && (s.writeLocked == 0 || s.writeLocked == 1)
    && (forall k :: 0 <= k < |s.threads| && Owner(s.threads[k]) ==> s.writeLocked == 1)
    && (forall k, l :: 0 <= k < l < |s.threads| ==> !(Owner(s.threads[k]) && Owner(s.threads[l])))
    && (forall k, l :: 0 <= k < |s.threads| && 0 <= l < |s.threads| ==> Apart(s.threads[k], s.threads[l]))
  }

  /** A writer that has passed a reader slot has no reader of that slot inside. */
  predicate Apart(w: Thread, r: Thread) {
    r.pc.Reading? ==>
      && (w.pc.WriteCheck? ==> w.pc.i <= SlotOf(r.pid))
      && !w.pc.Writing? && !w.pc.WriteLeave?
  }

  lemma CountsKept(s: State, k: nat, write: bool, j: nat)
    requires Inv(s) && k < |s.threads| && j < SRW_NREADERS
    ensures Step(s, k, write).readers[j] == Count(Step(s, k, write).threads, j)
  {
    hide SlotOf, Count;
    var s' := Step(s, k, write);
    assert s'.threads == s.threads[k := s'.threads[k]];
    CountUpdate(s.threads, k, s'.threads[k], j);
    CountPositive(s.threads, k, j);
    CountPositive(s'.threads, k, j);
    var c, c' := Count(s.threads, j), Count(s'.threads, j);
    if s.threads[k].pc.Idle? && !write && SlotOf(s.threads[k].pid) == j {
      assert c' == c + 1 && (c + 1) % COUNTER_RANGE == c + 1;
    } else if s.threads[k].pc.ReadLeave? && SlotOf(s.threads[k].pid) == j {
      assert c' == c - 1 && (c + COUNTER_RANGE - 1) % COUNTER_RANGE == c - 1;
    }
  }

  /** A writer leaves a slot behind only when its count is zero. */
  lemma ApartKept(s: State, k: nat, write: bool, m: nat, l: nat)
    requires Inv(s) && k < |s.threads| && m < |s.threads| && l < |s.threads|
    ensures var s' := Step(s, k, write); Apart(s'.threads[m], s'.threads[l])
  {
    hide SlotOf, Count;
    assert Apart(s.threads[m], s.threads[l]);
    CountPositive(s.threads, l, SlotOf(s.threads[l].pid));
  }

  lemma StepKeeps(s: State, k: nat, write: bool)
    requires Inv(s) && k < |s.threads|
    ensures Inv(Step(s, k, write))
  {
    hide SlotOf, Count, Apart;
    var s' := Step(s, k, write);
    forall j | 0 <= j < SRW_NREADERS ensures s'.readers[j] == Count(s'.threads, j) {
      CountsKept(s, k, write, j);
    }
    forall m, l | 0 <= m < |s.threads| && 0 <= l < |s.threads| ensures Apart(s'.threads[m], s'.threads[l]) {
      ApartKept(s, k, write, m, l);
    }
  }

  lemma {:induction false} RunKeeps(states: seq<State>, i: nat)
    requires Run(states) && i < |states|
    ensures Inv(states[i])
  {
    if i == 0 {
      NothingCounted(states[0].threads);
    } else {
      RunKeeps(states, i - 1);
      assert Next(states[i - 1], states[i]);
      var k: nat, write :| k < |states[i - 1].threads| && states[i] == Step(states[i - 1], k, write);
      StepKeeps(states[i - 1], k, write);
    }
  }

  lemma {:induction false} NothingCounted(ts: seq<Thread>)
    requires forall k :: 0 <= k < |ts| ==> ts[k].pc == Idle
    ensures forall j :: Count(ts, j) == 0
  {
    if ts != [] {
      NothingCounted(ts[1..]);
    }
  }

  /**
   In every interleaving a writer inside excludes readers and other writers, and the
   assertions of both unlock functions hold.
   */
  lemma MutualExclusion(states: seq<State>, i: nat, k: nat, l: nat)
    requires Run(states) && i < |states| && k < |states[i].threads| && l < |states[i].threads| && k != l
    ensures var s := states[i];
            && (s.threads[k].pc.Writing? ==> !s.threads[l].pc.Writing? && !s.threads[l].pc.Reading?)
            && (s.threads[k].pc.Reading? ==> s.writeLocked <= 1)
            && (s.threads[k].pc.Writing? ==> s.writeLocked == 1)
  {
    RunKeeps(states, i);
    var s := states[i];
    assert Apart(s.threads[k], s.threads[l]);
    assert Owner(s.threads[k]) ==> !Owner(s.threads[l]);
  }

  // Progress: wherever a run stands, the threads inside can all be led out again.

  /** The word is set only while a thread owns it. */
  ghost predicate Held(s: State) {
    s.writeLocked != 0 ==> exists k :: 0 <= k < |s.threads| && Owner(s.threads[k])
  }

  lemma HeldKeeps(s: State, k: nat, write: bool)
    requires Inv(s) && Held(s) && k < |s.threads|
    ensures Held(Step(s, k, write))
  {
    hide SlotOf, Count;
    var s' := Step(s, k, write);
    if s'.writeLocked != 0 && s.writeLocked != 0 {
      var l :| 0 <= l < |s.threads| && Owner(s.threads[l]);
      assert Owner(s'.threads[l]);
    } else {
      assert s'.writeLocked != 0 ==> Owner(s'.threads[k]);
    }
  }

  lemma {:induction false} RunHeld(states: seq<State>, i: nat)
    requires Run(states) && i < |states|
    ensures Inv(states[i]) && Held(states[i])
  {
    RunKeeps(states, i);
    if i > 0 {
      RunHeld(states, i - 1);
      assert Next(states[i - 1], states[i]);
      var k: nat, write :| k < |states[i - 1].threads| && states[i] == Step(states[i - 1], k, write);
      HeldKeeps(states[i - 1], k, write);
    }
  }

  ghost predicate AnyReader(readers: seq<nat>) {
    exists j :: 0 <= j < |readers| && readers[j] != 0
  }

  /** A bound on the steps thread t needs, with readers about (r) or not. */
  ghost function Distance(t: Thread, r: bool): nat {
    match t.pc
    case Idle => 0
    case ReadLeave | WriteLeave => 1
    case Reading | Writing => 2
    case ReadSpin => 3
    case WriteCheck(i) => if i < SRW_NREADERS then (if r then 60 else 20) - i else 0
    case WriteCas => 21
    case WriteScan(i) => if i < SRW_NREADERS then 38 - i else 0
    case WriteBack => 40
  }

  ghost function Distances(ts: seq<Thread>, r: bool): nat {
    if ts == [] then 0 else Distance(ts[0], r) + Distances(ts[1..], r)
  }

  lemma {:induction false} DistancesUpdate(ts: seq<Thread>, k: nat, t: Thread, r: bool)
    requires k < |ts|
    ensures Distances(ts[k := t], r) == Distances(ts, r) - Distance(ts[k], r) + Distance(t, r)
  {
    if k > 0 {
      DistancesUpdate(ts[1..], k - 1, t, r);
      assert ts[k := t][1..] == ts[1..][k - 1 := t];
    } else {
      assert ts[k := t][1..] == ts[1..];
    }
  }

  lemma {:induction false} DistancesNoCheck(ts: seq<Thread>, r: bool, r': bool)
    requires forall k :: 0 <= k < |ts| ==> !ts[k].pc.WriteCheck?
    ensures Distances(ts, r) == Distances(ts, r')
  {
    if ts != [] {
      DistancesNoCheck(ts[1..], r, r');
    }
  }

  lemma {:induction false} NoReaderCounted(ts: seq<Thread>, j: nat)
    requires forall k :: 0 <= k < |ts| ==> !Counted(ts[k], j)
    ensures Count(ts, j) == 0
  {
    if ts != [] {
      NoReaderCounted(ts[1..], j);
    }
  }

  ghost function Remaining(s: State): nat {
    Distances(s.threads, AnyReader(s.readers))
  }

  /** A step of thread k that leaves the readers alone, or is taken while no writer checks them. */
  lemma StepCloser(s: State, k: nat)
    requires Inv(s) && k < |s.threads|
    requires var r := AnyReader(s.readers);
             Distance(Step(s, k, false).threads[k], r) < Distance(s.threads[k], r)
    requires Step(s, k, false).readers == s.readers || s.writeLocked == 0
    ensures Remaining(Step(s, k, false)) < Remaining(s)
  {
    var s' := Step(s, k, false);
    var r := AnyReader(s.readers);
    assert s'.threads == s.threads[k := s'.threads[k]];
    assert s.writeLocked == 0 ==> forall l :: 0 <= l < |s.threads| ==> !s.threads[l].pc.WriteCheck?;
    hide Inv, Count, SlotOf, Distances, AnyReader, Distance;
    DistancesUpdate(s.threads, k, s'.threads[k], r);
    if s'.readers != s.readers {
      assert !s'.threads[k].pc.WriteCheck?;
      DistancesNoCheck(s'.threads, r, AnyReader(s'.readers));
    }
  }

  /** Whom to run: the owner first, then the readers, then the writers. */
  lemma Helpful(s: State) returns (k: nat)
    requires Inv(s) && Held(s) && exists l :: 0 <= l < |s.threads| && !s.threads[l].pc.Idle?
    ensures k < |s.threads| && Remaining(Step(s, k, false)) < Remaining(s)
  {
    hide Count, SlotOf;
    if s.writeLocked != 0 {
      k :| 0 <= k < |s.threads| && Owner(s.threads[k]);
    } else if l :| 0 <= l < |s.threads| && Counted(s.threads[l], SlotOf(s.threads[l].pid)) {
      k := l;
    } else {
      forall j | 0 <= j < SRW_NREADERS ensures s.readers[j] == 0 {
        NoReaderCounted(s.threads, j);
      }
      k :| 0 <= k < |s.threads| && !s.threads[k].pc.Idle?;
    }
    StepCloser(s, k);
  }

  ghost predicate AllIdle(s: State) {
    forall l :: 0 <= l < |s.threads| ==> s.threads[l].pc.Idle?
  }

  /** No deadlock: every run extends to one in which every thread has come out. */
  lemma {:induction false} CanFinish(states: seq<State>) returns (run: seq<State>)
    requires Run(states)
    ensures Run(run) && states <= run && AllIdle(run[|run| - 1])
    decreases Remaining(states[|states| - 1])
  {
    var s := states[|states| - 1];
    RunHeld(states, |states| - 1);
    if AllIdle(s) {
      run := states;
    } else {
      hide Inv, Held, Init, Step, Remaining;
      var k := Helpful(s);
      assert Next(s, Step(s, k, false));
      run := CanFinish(states + [Step(s, k, false)]);
    }
  }
}
