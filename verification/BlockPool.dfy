/**
 inc/lifo.h and the block pool of fs/vfs0cache.c: one lock-free stack of free blocks per
 core, with compare-and-swap pushes by any thread and double-word compare-and-swap pops
 by the thread of the core.  Each step below is one access of the shared memory.  The
 link of a block shares its memory with the block's data, so a holder may overwrite it.
 */
module BlockPool {

  const NDATA_BUF: nat := 8
  const HDR_BYTES: nat := 64
  const BLK_BYTES: nat := 4096
  const POP_RANGE: nat := 0x1_0000_0000_0000_0000

  type Block = nat

  datatype Link = Null | To(b: Block)

  /** Where a block is: on its home list, or with one thread. */
  datatype Place = Free | Held(t: nat)

  datatype Pc =
    | Idle
    | PushLoad(b: Block) | PushWrite(b: Block, first: Link) | PushCas(b: Block)
    | PopFirst | PopCount(first: Link) | PopNext(b: Block, count: nat) | PopCas(b: Block, count: nat, next: Link)

  /** The atomic stack operations that the steps stand for. */
  datatype Event = Pushed(list: nat, b: Block) | Popped(list: nat, b: Block) | FoundEmpty(list: nat)

  /** first and count are per list, next and place per block; thread t pops from list pops[t]. */
  datatype State = State(
    first: seq<Link>, count: seq<nat>, next: seq<Link>, place: seq<Place>,
    pops: seq<nat>, threads: seq<Pc>, log: seq<Event>)

  /** What an idle thread does next, or a write to a block it holds, or passing a block on. */
  datatype Choice = Run | Alloc | FreeBlock(b: Block) | Scribble(b: Block, v: Link) | Pass(b: Block, to: nat)

  // The free path finds the home list from the address of the buffer.

  function BufAddress(base: nat, b: Block): nat {
    base + b * (HDR_BYTES + BLK_BYTES) + HDR_BYTES
  }

  /** data_block_free: the header address, its offset in the array, its index, its core. */
  function HomeOfAddress(base: nat, buf: nat): (core: nat)
    requires base + HDR_BYTES <= buf
  {
    (buf - HDR_BYTES - base) / (HDR_BYTES + BLK_BYTES) / NDATA_BUF
  }

  function Home(b: Block): nat {
    b / NDATA_BUF
  }

  /** The offset arithmetic meets its assertions and recovers the core the block came from. */
  lemma FreeFindsHome(base: nat, b: Block, ncpu: nat)
    requires b < ncpu * NDATA_BUF
    ensures (BufAddress(base, b) - HDR_BYTES - base) % (HDR_BYTES + BLK_BYTES) == 0
    ensures HomeOfAddress(base, BufAddress(base, b)) == Home(b) < ncpu
  {
    var size := HDR_BYTES + BLK_BYTES;
    assert (b * size) / size == b && (b * size) % size == 0;
  }

  predicate WellFormed(s: State) {
    && |s.count| == |s.first| && |s.place| == |s.next| == |s.first| * NDATA_BUF
    && |s.pops| == |s.threads|
    && (forall t :: 0 <= t < |s.threads| ==> PcFits(s.threads[t], |s.next|))
    && (forall t :: 0 <= t < |s.threads| && Popping(s.threads[t]) ==> s.pops[t] < |s.first|)
  }

  predicate PcFits(pc: Pc, blocks: nat) {
    match pc
    case PushLoad(b) => b < blocks
    case PushWrite(b, _) => b < blocks
    case PushCas(b) => b < blocks
    case PopNext(b, _) => b < blocks
    case PopCas(b, _, _) => b < blocks
    case PopCount(first) => first.To? ==> first.b < blocks
    case _ => true
  }

  predicate Popping(pc: Pc) {
    pc.PopFirst? || pc.PopCount? || pc.PopNext? || pc.PopCas?
  }

  function Goto(s: State, t: nat, pc: Pc): State
    requires t < |s.threads|
  {
    s.(threads := s.threads[t := pc])
  }

  function Holds(s: State, t: nat, b: Block): bool {
    b < |s.place| && s.place[b] == Held(t)
  }

  /** The next step of thread t. */
  function Step(s: State, t: nat, c: Choice): State
    requires WellFormed(s) && t < |s.threads|
  {
    match s.threads[t]
    case Idle => IdleStep(s, t, c)
    case PushLoad(b) => Goto(s, t, PushWrite(b, s.first[Home(b)]))
    case PushWrite(b, f) => Goto(s.(next := s.next[b := f]), t, PushCas(b))
    case PushCas(b) =>
      var l := Home(b);
      if s.first[l] == s.next[b] then
        Goto(s.(first := s.first[l := To(b)], place := s.place[b := Free], log := s.log + [Pushed(l, b)]), t, Idle)
      else Goto(s, t, PushLoad(b))
    case PopFirst =>
      var l := s.pops[t];
      Goto(if s.first[l] == Null then s.(log := s.log + [FoundEmpty(l)]) else s, t,
           if s.first[l].To? && s.first[l].b >= |s.next| then PopFirst else PopCount(s.first[l]))
    case PopCount(f) => Goto(s, t, if f == Null then Idle else PopNext(f.b, s.count[s.pops[t]]))
    case PopNext(b, n) => Goto(s, t, PopCas(b, n, s.next[b]))
    case PopCas(b, n, nx) =>
      var l := s.pops[t];
      if s.first[l] == To(b) && s.count[l] == n then
        Goto(s.(first := s.first[l := nx], count := s.count[l := (n + 1) % POP_RANGE],
                place := s.place[b := Held(t)], log := s.log + [Popped(l, b)]), t, Idle)
      else Goto(s, t, PopFirst)
  }

  function IdleStep(s: State, t: nat, c: Choice): State
    requires WellFormed(s) && t < |s.threads|
  {
    match c
    case Run => s
    case Alloc => if s.pops[t] < |s.first| then Goto(s, t, PopFirst) else s
    case FreeBlock(b) => if Holds(s, t, b) then Goto(s, t, PushLoad(b)) else s
    case Scribble(b, v) => if Holds(s, t, b) then s.(next := s.next[b := v]) else s
    case Pass(b, to) => if Holds(s, t, b) && to < |s.threads| then s.(place := s.place[b := Held(to)]) else s
  }

  /** One thread per list pops from it. */
  ghost predicate OnePopper(s: State) {
    forall t, u :: 0 <= t < u < |s.pops| && s.pops[t] < |s.first| ==> s.pops[t] != s.pops[u]
  }

  /** Before the pool is filled: thread 0 has all blocks and the lists are empty. */
  ghost predicate Init(s: State) {
    && WellFormed(s) && |s.threads| > 0 && s.log == []
    && (forall l :: 0 <= l < |s.first| ==> s.first[l] == Null && s.count[l] == 0)
    && (forall b :: 0 <= b < |s.place| ==> s.place[b] == Held(0))
    && (forall t :: 0 <= t < |s.threads| ==> s.threads[t] == Idle)
  }

  ghost predicate Next(s: State, s': State) {
    WellFormed(s) && exists t: nat, c :: t < |s.threads| && s' == Step(s, t, c)
  }

  ghost predicate PoolRun(states: seq<State>) {
    && |states| > 0 && Init(states[0]) && OnePopper(states[0])
    && forall i :: 0 < i < |states| ==> Next(states[i - 1], states[i])
  }

  // The atomic stacks.

  /** The stacks after the events, or nothing if some event was not possible. */
  datatype Replayed = Broken | Stacks(s: seq<seq<Block>>)

  function Replay(lists: nat, log: seq<Event>): Replayed {
    if log == [] then Stacks(seq(lists, _ => []))
    else
      match Replay(lists, log[..|log| - 1])
      case Broken => Broken
      case Stacks(s) => Apply(s, log[|log| - 1])
  }

  function Apply(s: seq<seq<Block>>, e: Event): Replayed {
    if e.list >= |s| then Broken
    else
      match e
      case Pushed(l, b) => Stacks(s[l := [b] + s[l]])
      case Popped(l, b) => if s[l] != [] && s[l][0] == b then Stacks(s[l := s[l][1..]]) else Broken
      case FoundEmpty(l) => if s[l] == [] then Stacks(s) else Broken
  }

  lemma ReplayAppend(lists: nat, log: seq<Event>, e: Event)
    requires Replay(lists, log).Stacks?
    ensures Replay(lists, log + [e]) == Apply(Replay(lists, log).s, e)
  {
    assert (log + [e])[..|log|] == log;
  }

  // The invariant.

  /** The links from first spell out the stack. */
  ghost predicate Linked(first: Link, next: seq<Link>, stack: seq<Block>) {
    && (forall i :: 0 <= i < |stack| ==> stack[i] < |next|)
    && first == (if stack == [] then Null else To(stack[0]))
    && (forall i {:trigger stack[i]} :: 0 <= i < |stack| ==>
          next[stack[i]] == if i + 1 < |stack| then To(stack[i + 1]) else Null)
  }

  ghost predicate Distinct(stack: seq<Block>) {
    forall i, j :: 0 <= i < j < |stack| ==> stack[i] != stack[j]
  }

  /** List l is the stack, without repetition, of the free blocks at home there. */
  ghost predicate ListOk(s: State, l: nat, stack: seq<Block>)
    requires WellFormed(s) && l < |s.first|
  {
    && Linked(s.first[l], s.next, stack) && Distinct(stack)
    && (forall b {:trigger b in stack} :: b in stack <==> 0 <= b < |s.place| && s.place[b] == Free && Home(b) == l)
  }

  /** What a thread knows between its steps. */
  ghost predicate ThreadOk(s: State, t: nat, stacks: seq<seq<Block>>)
    requires WellFormed(s) && t < |s.threads| && |stacks| == |s.first|
  {
    PcOk(s, t, s.threads[t], stacks)
  }

  ghost predicate PcOk(s: State, t: nat, pc: Pc, stacks: seq<seq<Block>>)
    requires WellFormed(s) && t < |s.threads| && |stacks| == |s.first|
    requires PcFits(pc, |s.next|) && (Popping(pc) ==> s.pops[t] < |s.first|)
  {
    match pc
    case Idle => true
    case PushLoad(b) => Holds(s, t, b)
    case PushWrite(b, _) => Holds(s, t, b)
    case PushCas(b) => Holds(s, t, b)
    case PopFirst => true
    case PopCount(f) => f.To? ==> f.b in stacks[s.pops[t]]
    case PopNext(b, n) => b in stacks[s.pops[t]] && n == s.count[s.pops[t]]
    case PopCas(b, n, nx) => b in stacks[s.pops[t]] && n == s.count[s.pops[t]] && nx == s.next[b]
  }

  ghost predicate InvWith(s: State, stacks: seq<seq<Block>>) {
    && WellFormed(s) && OnePopper(s) && |stacks| == |s.first|
    && Replay(|s.first|, s.log) == Stacks(stacks)
    && (forall l :: 0 <= l < |s.first| ==> ListOk(s, l, stacks[l]))
    && (forall t :: 0 <= t < |s.threads| ==> ThreadOk(s, t, stacks))
  }

  /** A write to the link of a block that is on no list. */
  lemma LinkedFrame(first: Link, next: seq<Link>, stack: seq<Block>, b: Block, v: Link)
    requires Linked(first, next, stack) && b < |next| && b !in stack
    ensures Linked(first, next[b := v], stack)
  {
  }

  /** Only thread t moves, and no list, link, count or place changes. */
  lemma MoveKeeps(s: State, t: nat, pc: Pc, stacks: seq<seq<Block>>)
    requires InvWith(s, stacks) && t < |s.threads|
    requires PcFits(pc, |s.next|) && (Popping(pc) ==> s.pops[t] < |s.first|) && PcOk(s, t, pc, stacks)
    ensures InvWith(Goto(s, t, pc), stacks)
  {
    var s' := Goto(s, t, pc);
    assert WellFormed(s') && ThreadOk(s', t, stacks);
    forall l | 0 <= l < |s'.first| ensures ListOk(s', l, stacks[l]) { assert ListOk(s, l, stacks[l]); }
    forall u | 0 <= u < |s'.threads| ensures ThreadOk(s', u, stacks) { assert ThreadOk(s, u, stacks); }
  }

  lemma WriteKeeps(s: State, t: nat, b: Block, v: Link, stacks: seq<seq<Block>>)
    requires InvWith(s, stacks) && Holds(s, t, b)
    ensures InvWith(s.(next := s.next[b := v]), stacks)
  {
    var s' := s.(next := s.next[b := v]);
    forall l | 0 <= l < |s'.first| ensures ListOk(s', l, stacks[l]) && b !in stacks[l] {
      assert ListOk(s, l, stacks[l]);
      LinkedFrame(s.first[l], s.next, stacks[l], b, v);
    }
    forall u | 0 <= u < |s'.threads| ensures ThreadOk(s', u, stacks) { assert ThreadOk(s, u, stacks); }
  }

  lemma PassKeeps(s: State, t: nat, b: Block, to: nat, stacks: seq<seq<Block>>)
    requires InvWith(s, stacks) && t < |s.threads| && s.threads[t] == Idle && Holds(s, t, b)
    ensures InvWith(s.(place := s.place[b := Held(to)]), stacks)
  {
    var s' := s.(place := s.place[b := Held(to)]);
    forall l | 0 <= l < |s'.first| ensures ListOk(s', l, stacks[l]) { assert ListOk(s, l, stacks[l]); }
    forall u | 0 <= u < |s'.threads| ensures ThreadOk(s', u, stacks) { assert ThreadOk(s, u, stacks); }
  }

  lemma LinkedPush(first: Link, next: seq<Link>, stack: seq<Block>, b: Block)
    requires Linked(first, next, stack) && b < |next| && next[b] == first
    ensures Linked(To(b), next, [b] + stack)
  {
  }

  lemma LinkedPop(first: Link, next: seq<Link>, stack: seq<Block>)
    requires Linked(first, next, stack) && stack != []
    ensures Linked(next[stack[0]], next, stack[1..])
  {
  }

  lemma ListPush(s: State, s': State, l: nat, stack: seq<Block>, b: Block)
    requires WellFormed(s) && WellFormed(s') && l < |s.first| == |s'.first| && ListOk(s, l, stack)
    requires b < |s.place| && s.place[b] != Free && s'.place == s.place[b := Free] && Home(b) == l
    requires s'.next == s.next && s.next[b] == s.first[l] && s'.first[l] == To(b)
    ensures ListOk(s', l, [b] + stack)
  {
    hide Home;
    LinkedPush(s.first[l], s.next, stack, b);
  }

  lemma ListPop(s: State, s': State, l: nat, stack: seq<Block>, t: nat)
    requires WellFormed(s) && WellFormed(s') && l < |s.first| == |s'.first| && ListOk(s, l, stack) && stack != []
    requires s'.place == s.place[stack[0] := Held(t)] && s'.next == s.next && s'.first[l] == s.next[stack[0]]
    ensures ListOk(s', l, stack[1..])
  {
    hide Home, Linked;
    LinkedPop(s.first[l], s.next, stack);
    assert Distinct(stack[1..]);
    forall b: Block ensures b in stack[1..] <==> 0 <= b < |s'.place| && s'.place[b] == Free && Home(b) == l {
      TailElement(stack, b);
      assert b in stack <==> 0 <= b < |s.place| && s.place[b] == Free && Home(b) == l;
    }
  }

  lemma TailElement(stack: seq<Block>, b: Block)
    requires Distinct(stack) && stack != []
    ensures b in stack[1..] <==> b in stack && b != stack[0]
  {
    assert stack == [stack[0]] + stack[1..];
  }

  /** The place of a block matters only to its home list. */
  lemma ListFrame(s: State, s': State, l: nat, stack: seq<Block>, b: Block)
    requires WellFormed(s) && WellFormed(s') && l < |s.first| == |s'.first| && ListOk(s, l, stack)
    requires b < |s.place| && s'.place == s.place[b := s'.place[b]] && Home(b) != l
    requires s'.next == s.next && s'.first[l] == s.first[l]
    ensures ListOk(s', l, stack)
  {
    hide Home, Linked;
  }

  lemma PushKeeps(s: State, t: nat, b: Block, stacks: seq<seq<Block>>)
    requires InvWith(s, stacks) && t < |s.threads| && s.threads[t] == PushCas(b) && s.first[Home(b)] == s.next[b]
    ensures InvWith(Step(s, t, Choice.Run), stacks[Home(b) := [b] + stacks[Home(b)]])
  {
    var l := Home(b);
    var s', stacks' := Step(s, t, Choice.Run), stacks[l := [b] + stacks[l]];
    hide Step, Home, Replay;
    assert ThreadOk(s, t, stacks);
    ReplayAppend(|s.first|, s.log, Pushed(l, b));
    forall k | 0 <= k < |s'.first| ensures ListOk(s', k, stacks'[k]) {
      if k == l { ListPush(s, s', l, stacks[l], b); } else { ListFrame(s, s', k, stacks[k], b); }
    }
    hide ListOk;
    forall u | 0 <= u < |s'.threads| ensures ThreadOk(s', u, stacks') { assert ThreadOk(s, u, stacks); }
  }

  lemma PopKeeps(s: State, t: nat, b: Block, n: nat, nx: Link, stacks: seq<seq<Block>>)
    requires InvWith(s, stacks) && t < |s.threads| && s.threads[t] == PopCas(b, n, nx) && s.first[s.pops[t]] == To(b)
    ensures var l := s.pops[t];
            stacks[l] != [] && stacks[l][0] == b && InvWith(Step(s, t, Choice.Run), stacks[l := stacks[l][1..]])
  {
    var l := s.pops[t];
    assert ThreadOk(s, t, stacks) && ListOk(s, l, stacks[l]);
    assert Home(b) == l;
    var s', stacks' := Step(s, t, Choice.Run), stacks[l := stacks[l][1..]];
    hide Step, Home, Replay;
    ReplayAppend(|s.first|, s.log, Popped(l, b));
    forall k | 0 <= k < |s'.first| ensures ListOk(s', k, stacks'[k]) {
      if k == l { ListPop(s, s', l, stacks[l], t); } else { ListFrame(s, s', k, stacks[k], b); }
    }
    hide ListOk;
    forall u | 0 <= u < |s'.threads| ensures ThreadOk(s', u, stacks') { assert ThreadOk(s, u, stacks); }
  }

  lemma IdleKeeps(s: State, t: nat, c: Choice, stacks: seq<seq<Block>>)
    requires InvWith(s, stacks) && t < |s.threads| && s.threads[t] == Idle
    ensures InvWith(IdleStep(s, t, c), stacks)
  {
    assert WellFormed(s) && |stacks| == |s.first|;
    hide InvWith;
    match c
    case Run =>
    case Alloc =>
      if s.pops[t] < |s.first| { MoveKeeps(s, t, PopFirst, stacks); }
    case FreeBlock(b) =>
      if Holds(s, t, b) { MoveKeeps(s, t, PushLoad(b), stacks); }
    case Scribble(b, v) =>
      if Holds(s, t, b) { WriteKeeps(s, t, b, v, stacks); }
    case Pass(b, to) =>
      if Holds(s, t, b) && to < |s.threads| { PassKeeps(s, t, b, to, stacks); }
  }

  /** Each step keeps the invariant, and the stacks change by at most one atomic operation. */
  lemma StepKeeps(s: State, t: nat, c: Choice, stacks: seq<seq<Block>>) returns (stacks': seq<seq<Block>>)
    requires InvWith(s, stacks) && t < |s.threads|
    ensures InvWith(Step(s, t, c), stacks')
  {
    stacks' := stacks;
    assert WellFormed(s) && |stacks| == |s.first| && ThreadOk(s, t, stacks);
    assert PcFits(s.threads[t], |s.next|) && (Popping(s.threads[t]) ==> s.pops[t] < |s.first|);
    hide InvWith, WellFormed, IdleStep;
    match s.threads[t]
    case Idle => IdleKeeps(s, t, c, stacks);
    case PushLoad(b) => MoveKeeps(s, t, PushWrite(b, s.first[Home(b)]), stacks);
    case PushWrite(b, f) =>
      WriteKeeps(s, t, b, f, stacks);
      WriteFits(s, b, f);
      MoveKeeps(s.(next := s.next[b := f]), t, PushCas(b), stacks);
    case PushCas(b) =>
      if s.first[Home(b)] == s.next[b] {
        PushKeeps(s, t, b, stacks);
        stacks' := stacks[Home(b) := [b] + stacks[Home(b)]];
      } else {
        MoveKeeps(s, t, PushLoad(b), stacks);
      }
    case PopFirst => PopFirstKeeps(s, t, stacks);
    case PopCount(f) => MoveKeeps(s, t, if f == Null then Idle else PopNext(f.b, s.count[s.pops[t]]), stacks);
    case PopNext(b, n) => MoveKeeps(s, t, PopCas(b, n, s.next[b]), stacks);
    case PopCas(b, n, nx) =>
      if s.first[s.pops[t]] == To(b) {
        PopKeeps(s, t, b, n, nx, stacks);
        stacks' := stacks[s.pops[t] := stacks[s.pops[t]][1..]];
      } else {
        MoveKeeps(s, t, PopFirst, stacks);
      }
  }

  lemma WriteFits(s: State, b: Block, v: Link)
    requires WellFormed(s) && b < |s.next|
    ensures WellFormed(s.(next := s.next[b := v]))
  {
  }

  lemma PopFirstKeeps(s: State, t: nat, stacks: seq<seq<Block>>)
    requires InvWith(s, stacks) && t < |s.threads| && s.threads[t] == PopFirst
    ensures InvWith(Step(s, t, Choice.Run), stacks)
  {
    var l := s.pops[t];
    assert ListOk(s, l, stacks[l]);
    var s1 := s;
    if s.first[l] == Null {
      ReplayAppend(|s.first|, s.log, FoundEmpty(l));
      s1 := s.(log := s.log + [FoundEmpty(l)]);
      forall k | 0 <= k < |s.first| ensures ListOk(s1, k, stacks[k]) { assert ListOk(s, k, stacks[k]); }
      forall u | 0 <= u < |s.threads| ensures ThreadOk(s1, u, stacks) { assert ThreadOk(s, u, stacks); }
    }
    MoveKeeps(s1, t, PopCount(s.first[l]), stacks);
  }

  lemma InitHolds(s: State)
    requires Init(s) && OnePopper(s)
    ensures InvWith(s, seq(|s.first|, _ => []))
  {
    var stacks: seq<seq<Block>> := seq(|s.first|, _ => []);
    forall l | 0 <= l < |s.first| ensures ListOk(s, l, stacks[l]) {
      assert stacks[l] == [];
    }
  }

  lemma {:induction false} RunKeeps(states: seq<State>, i: nat) returns (stacks: seq<seq<Block>>)
    requires PoolRun(states) && i < |states|
    ensures InvWith(states[i], stacks)
  {
    if i == 0 {
      InitHolds(states[0]);
      stacks := seq(|states[0].first|, _ => []);
    } else {
      stacks := RunKeeps(states, i - 1);
      assert Next(states[i - 1], states[i]);
      var t: nat, c :| t < |states[i - 1].threads| && states[i] == Step(states[i - 1], t, c);
      stacks := StepKeeps(states[i - 1], t, c, stacks);
    }
  }

  /**
   With one popper per list, every interleaving of push and pop steps is a sequence of atomic
   pushes, pops of the top, and pops of an empty stack; the links in memory spell the stacks.
   */
  lemma RefinesAtomicStacks(states: seq<State>, i: nat)
    requires PoolRun(states) && i < |states|
    ensures var s := states[i];
            && Replay(|s.first|, s.log).Stacks?
            && |Replay(|s.first|, s.log).s| == |s.first|
            && forall l :: 0 <= l < |s.first| ==> Linked(s.first[l], s.next, Replay(|s.first|, s.log).s[l])
  {
    var stacks := RunKeeps(states, i);
    forall l | 0 <= l < |states[i].first| ensures Linked(states[i].first[l], states[i].next, stacks[l]) {
      assert ListOk(states[i], l, stacks[l]);
    }
  }

  /** A free block is on its home list, once, and on no other; a held block is on none. */
  lemma EveryBlockInOnePlace(states: seq<State>, i: nat, b: Block)
    requires PoolRun(states) && i < |states| && b < |states[i].place|
    ensures var s := states[i];
            && Replay(|s.first|, s.log).Stacks?
            && |Replay(|s.first|, s.log).s| == |s.first|
            && forall l :: 0 <= l < |s.first| ==>
                 && (b in Replay(|s.first|, s.log).s[l] <==> s.place[b] == Free && Home(b) == l)
                 && Distinct(Replay(|s.first|, s.log).s[l])
  {
    var stacks := RunKeeps(states, i);
    forall l | 0 <= l < |states[i].first|
      ensures (b in stacks[l] <==> states[i].place[b] == Free && Home(b) == l) && Distinct(stacks[l])
    {
      assert ListOk(states[i], l, stacks[l]);
    }
  }

  // Why one popper: with two, a stale first element can come back under a count read later.

  ghost predicate RunFrom(start: State, run: seq<State>) {
    && run != [] && run[0] == start && forall i :: 0 < i < |run| ==> Next(run[i - 1], run[i])
  }

  function Last(run: seq<State>): State
    requires run != []
  {
    run[|run| - 1]
  }

  /** A block is free and at home on a list that does not hold it. */
  ghost predicate BlockLost(s: State) {
    && |s.place| == |s.next|
    && exists l: nat, stack, b: Block :: Misses(s, l, stack, b)
  }

  ghost predicate Misses(s: State, l: nat, stack: seq<Block>, b: Block) {
    && l < |s.first| && Linked(s.first[l], s.next, stack)
    && b < |s.place| && s.place[b] == Free && Home(b) == l && b !in stack
  }

  /** The i-th block of list l. */
  function Nth(l: nat, i: nat): Block {
    NDATA_BUF * l + i
  }

  /** The part of the state that matters: list l, the links and places of its first three blocks, the threads. */
  datatype Part = Part(first: Link, count: nat, links: seq<Link>, places: seq<Place>, threads: seq<Pc>)

  predicate Is(s: State, start: State, l: nat, p: Part) {
    && WellFormed(s) && |s.first| == |start.first| && s.pops == start.pops && l < |s.first|
    && s.first[l] == p.first && s.count[l] == p.count && s.threads == p.threads
    && |p.links| == |p.places| == 3 && Nth(l, 2) < |s.next|
    && (forall i :: 0 <= i < 3 ==> s.next[Nth(l, i)] == p.links[i])
    && (forall i :: 0 <= i < 3 ==> s.place[Nth(l, i)] == p.places[i])
  }

  lemma Homes(l: nat, i: nat)
    requires i < 3
    ensures Home(Nth(l, i)) == l
  {
  }

  lemma Move(start: State, run: seq<State>, t: nat, c: Choice) returns (run': seq<State>)
    requires RunFrom(start, run) && WellFormed(Last(run)) && t < |Last(run).threads|
    ensures RunFrom(start, run') && Last(run') == Step(Last(run), t, c)
  {
    run' := run + [Step(Last(run), t, c)];
    assert Next(Last(run), Last(run'));
  }

  /** A held block is pushed without interruption. */
  lemma PushWhole(start: State, run: seq<State>, l: nat, p: Part, t: nat, i: nat) returns (run': seq<State>, q: Part)
    requires RunFrom(start, run) && Is(Last(run), start, l, p)
    requires t < |p.threads| && p.threads[t] == Idle && i < 3 && p.places[i] == Held(t)
    ensures RunFrom(start, run') && Is(Last(run'), start, l, q)
    ensures q == p.(first := To(Nth(l, i)), links := p.links[i := p.first], places := p.places[i := Free])
  {
    Homes(l, i);
    hide RunFrom, Last, Home;
    var b := Nth(l, i);
    run' := Move(start, run, t, FreeBlock(b));
    q := p.(threads := p.threads[t := PushLoad(b)]);
    assert Is(Last(run'), start, l, q);
    run' := Move(start, run', t, Choice.Run);
    q := p.(threads := p.threads[t := PushWrite(b, p.first)]);
    assert Is(Last(run'), start, l, q);
    run' := Move(start, run', t, Choice.Run);
    q := p.(links := p.links[i := p.first], threads := p.threads[t := PushCas(b)]);
    assert Is(Last(run'), start, l, q);
    run' := Move(start, run', t, Choice.Run);
    q := p.(first := To(b), links := p.links[i := p.first], places := p.places[i := Free]);
    assert p.threads[t := PushCas(b)][t := Idle] == p.threads;
  }

  /** A thread starts to pop and loads the first block. */
  lemma PopStarts(start: State, run: seq<State>, l: nat, p: Part, t: nat, i: nat) returns (run': seq<State>, q: Part)
    requires RunFrom(start, run) && Is(Last(run), start, l, p)
    requires t < |p.threads| && p.threads[t] == Idle && start.pops[t] == l && i < 3 && p.first == To(Nth(l, i))
    ensures RunFrom(start, run') && Is(Last(run'), start, l, q)
    ensures q == p.(threads := p.threads[t := PopCount(p.first)])
  {
    hide RunFrom, Last, Home;
    run' := Move(start, run, t, Alloc);
    q := p.(threads := p.threads[t := PopFirst]);
    assert Is(Last(run'), start, l, q);
    run' := Move(start, run', t, Choice.Run);
    q := p.(threads := p.threads[t := PopCount(p.first)]);
  }

  /** It loads the count and the link of that block. */
  lemma PopLoads(start: State, run: seq<State>, l: nat, p: Part, t: nat, i: nat) returns (run': seq<State>, q: Part)
    requires RunFrom(start, run) && Is(Last(run), start, l, p)
    requires t < |p.threads| && start.pops[t] == l && i < 3 && p.threads[t] == PopCount(To(Nth(l, i)))
    ensures RunFrom(start, run') && Is(Last(run'), start, l, q)
    ensures q == p.(threads := p.threads[t := PopCas(Nth(l, i), p.count, p.links[i])])
  {
    hide RunFrom, Last, Home;
    run' := Move(start, run, t, Choice.Run);
    q := p.(threads := p.threads[t := PopNext(Nth(l, i), p.count)]);
    assert Is(Last(run'), start, l, q);
    run' := Move(start, run', t, Choice.Run);
    q := p.(threads := p.threads[t := PopCas(Nth(l, i), p.count, p.links[i])]);
  }

  /** Its compare-and-swap succeeds. */
  lemma PopEnds(start: State, run: seq<State>, l: nat, p: Part, t: nat, i: nat, nx: Link)
    returns (run': seq<State>, q: Part)
    requires RunFrom(start, run) && Is(Last(run), start, l, p) && p.count + 1 < POP_RANGE
    requires t < |p.threads| && start.pops[t] == l && i < 3 && p.first == To(Nth(l, i))
    requires p.threads[t] == PopCas(Nth(l, i), p.count, nx)
    ensures RunFrom(start, run') && Is(Last(run'), start, l, q)
    ensures q == Part(nx, p.count + 1, p.links, p.places[i := Held(t)], p.threads[t := Idle])
  {
    hide RunFrom, Last, Home;
    run' := Move(start, run, t, Choice.Run);
    q := Part(nx, p.count + 1, p.links, p.places[i := Held(t)], p.threads[t := Idle]);
  }

  /** Thread 0 puts blocks 0 and 1 on the list and hands block 2 to thread b. */
  lemma Fill(start: State, l: nat, b: nat) returns (run: seq<State>, p: Part)
    requires Init(start) && l < |start.first| && b < |start.threads|
    ensures RunFrom(start, run) && Is(Last(run), start, l, p)
    ensures p.first == To(Nth(l, 1)) && p.count == 0 && p.threads == start.threads
    ensures |p.links| == 3 && p.links[0] == Null && p.links[1] == To(Nth(l, 0))
    ensures p.places == [Free, Free, Held(b)]
  {
    run := [start];
    assert forall i :: 0 <= i < 3 ==> Nth(l, i) < |start.next|;
    p := Part(Null, 0, [start.next[Nth(l, 0)], start.next[Nth(l, 1)], start.next[Nth(l, 2)]],
      [Held(0), Held(0), Held(0)], start.threads);
    assert Is(start, start, l, p);
    hide RunFrom, Next;
    assert RunFrom(start, run) by { RunStarts(start); }
    hide Is, Last;
    run, p := PushWhole(start, run, l, p, 0, 0);
    run, p := PushWhole(start, run, l, p, 0, 1);
    run, p := HandOver(start, run, l, p, b);
  }

  lemma RunStarts(start: State)
    ensures RunFrom(start, [start])
  {
  }

  lemma HandOver(start: State, run: seq<State>, l: nat, p: Part, b: nat) returns (run': seq<State>, q: Part)
    requires RunFrom(start, run) && Is(Last(run), start, l, p) && p.places[2] == Held(0)
    requires p.threads != [] && p.threads[0] == Idle && b < |p.threads|
    ensures RunFrom(start, run') && Is(Last(run'), start, l, q) && q == p.(places := p.places[2 := Held(b)])
  {
    hide RunFrom, Last, Home;
    run' := Move(start, run, 0, Pass(Nth(l, 2), b));
    q := p.(places := p.places[2 := Held(b)]);
  }

  /**
   Thread a loads block 1 as first; b pops it, a loads the new count, b pushes block 2 and
   block 1 again; and the pop of a succeeds with a link that skips block 2.
   */
  lemma ComesBack(start: State, run: seq<State>, l: nat, p: Part, a: nat, b: nat) returns (run': seq<State>, q: Part)
    requires RunFrom(start, run) && Is(Last(run), start, l, p)
    requires a != b && a < |p.threads| && b < |p.threads| && p.threads[a] == p.threads[b] == Idle
    requires start.pops[a] == start.pops[b] == l
    requires p.first == To(Nth(l, 1)) && p.count == 0 && p.places == [Free, Free, Held(b)]
    requires |p.links| == 3 && p.links[0] == Null && p.links[1] == To(Nth(l, 0))
    ensures RunFrom(start, run') && Is(Last(run'), start, l, q)
    ensures q.first == To(Nth(l, 0)) && q.places[2] == Free && q.links[0] == Null
  {
    hide RunFrom, Last, Is, Home, Nth;
    run', q := PopStarts(start, run, l, p, a, 1);
    run', q := PopStarts(start, run', l, q, b, 1);
    run', q := PopLoads(start, run', l, q, b, 1);
    run', q := PopEnds(start, run', l, q, b, 1, p.links[1]);
    run', q := PopLoads(start, run', l, q, a, 1);
    run', q := PushWhole(start, run', l, q, b, 2);
    run', q := PushWhole(start, run', l, q, b, 1);
    run', q := PopEnds(start, run', l, q, a, 1, p.links[1]);
  }

  lemma LostThere(s: State, start: State, l: nat, p: Part)
    requires Is(s, start, l, p) && p.first == To(Nth(l, 0)) && p.places[2] == Free && p.links[0] == Null
    ensures BlockLost(s)
  {
    assert Linked(s.first[l], s.next, [Nth(l, 0)]);
    Homes(l, 2);
    assert Misses(s, l, [Nth(l, 0)], Nth(l, 2));
  }

  /** Any two threads that pop from one list can lose a block of it. */
  lemma TwoPoppersLoseBlock(start: State, a: nat, b: nat) returns (run: seq<State>)
    requires Init(start) && a < |start.threads| && b < |start.threads| && a != b
    requires start.pops[a] == start.pops[b] < |start.first|
    ensures RunFrom(start, run) && BlockLost(Last(run))
  {
    hide Next, Last, Is, BlockLost, Nth;
    var l, p := start.pops[a], Part(Null, 0, [], [], []);
    run, p := Fill(start, l, b);
    run, p := ComesBack(start, run, l, p, a, b);
    LostThere(Last(run), start, l, p);
  }

  /** The links spell one stack only. */
  lemma {:induction false} LinkedOnce(first: Link, next: seq<Link>, a: seq<Block>, b: seq<Block>)
    requires Linked(first, next, a) && Linked(first, next, b)
    ensures a == b
    decreases |a|
  {
    if a != [] {
      LinkedPop(first, next, a);
      LinkedPop(first, next, b);
      LinkedOnce(next[a[0]], next, a[1..], b[1..]);
      assert a == [a[0]] + a[1..] && b == [b[0]] + b[1..];
    }
  }

  lemma NothingLost(states: seq<State>, i: nat)
    requires PoolRun(states) && i < |states|
    ensures !BlockLost(states[i])
  {
    var s := states[i];
    var stacks := RunKeeps(states, i);
    hide PoolRun, Home;
    forall l: nat, stack, b: Block ensures !Misses(s, l, stack, b) {
      if Misses(s, l, stack, b) {
        assert ListOk(s, l, stacks[l]);
        LinkedOnce(s.first[l], s.next, stack, stacks[l]);
      }
    }
  }

  /** One popper per list is exactly what it takes: then, and only then, no run loses a block. */
  lemma OnePopperExactly(start: State)
    requires Init(start)
    ensures OnePopper(start) <==> forall run :: RunFrom(start, run) ==> !BlockLost(Last(run))
  {
    hide BlockLost, Init;
    if OnePopper(start) {
      forall run | RunFrom(start, run) ensures !BlockLost(Last(run)) {
        assert PoolRun(run);
        NothingLost(run, |run| - 1);
      }
    } else {
      var a, b :| 0 <= a < b < |start.pops| && start.pops[a] < |start.first| && start.pops[a] == start.pops[b];
      assert |start.pops| == |start.threads| by { Sizes(start); }
      var run := TwoPoppersLoseBlock(start, a, b);
    }
  }

  lemma Sizes(s: State)
    requires Init(s)
    ensures |s.pops| == |s.threads|
  {
  }
}
