/**
 Whole runs of page-tree operations: each step moves the images as if every tree had its
 own pages, so a tree that no step addresses never changes, whatever it shares.
 */
module PageRuns {
  import opened PageMemory
  import opened PageIndex
  import opened PageTree
  import opened PageEntries
  import opened PagePaths
  import opened PageNodes
  import opened PageForest
  import opened PageSystem

  datatype Op =
    | Fetch(t: nat, n: nat, mode: Mode)       // pagetree_get_page
    | StoreAt(t: nat, n: nat, d: Data)        // get in mode cow, then write the page
    | PutNew(t: nat, n: nat, cpu: nat)        // page_alloc, pagetree_put_page, page_free on failure
    | Drop(t: nat, n: nat)                    // pagetree_put_page of no page
    | CopyTree(src: nat, dst: nat, mode: Mode)
    | FreeTree(t: nat)
    | PinPage(p: Page)
    | UnpinPage(p: Page)

  /** What an operation returns; a store is done only if there is a page to write. */
  datatype Reply = Reply(r: Outcome, done: bool)

  /** The kernel at some point of a run. */
  datatype State = State(mem: Mem, trees: seq<Tree>, loose: set<Page>)

  /** Counts, sharing modes, free lists and indirect pages all agree. */
  ghost predicate Fit(s: State) {
    Wells(s.trees) && CpusOk(s.trees, |s.mem.free|) && MemOk(s.mem, Ledger(s.trees, s.loose))
  }

  ghost function ImagesIn(s: State): seq<Image>
    requires Fit(s)
  {
    Images(s.mem, s.trees)
  }

  ghost function SpareIn(s: State): nat {
    Spare(s.mem.free)
  }

  predicate Possible(op: Op, s: State) {
    match op
    case Fetch(t, n, mode) => t < |s.trees|
    case StoreAt(t, n, d) => t < |s.trees|
    case PutNew(t, n, cpu) => t < |s.trees| && cpu < |s.mem.free|
    case Drop(t, n) => t < |s.trees|
    case CopyTree(src, dst, mode) => src < |s.trees| && dst < |s.trees| && src != dst && mode != Unset
    case FreeTree(t) => t < |s.trees|
    case PinPage(p) => p < |s.mem.nodeOf|
    case UnpinPage(p) => p < |s.mem.nodeOf|
  }

  // What an operation answers, as a function of the state before it.

  ghost function FetchAnswer(s: State, t: nat, n: nat, mode: Mode): Outcome
    requires Fit(s) && t < |s.trees|
  {
    if n >= CAPACITY then NoSpace
    else Fetched(Find(s.trees[t], n), mode, s.trees[t].demand, |LackOf(s.trees[t], n)|, SpareIn(s))
  }

  /** Whether page number n can be reached, with so many pages free. */
  ghost function OpenAnswer(s: State, t: nat, n: nat, spare: nat): Outcome
    requires Fit(s) && t < |s.trees|
  {
    if n >= CAPACITY then NoSpace else if |LackOf(s.trees[t], n)| > spare then NoMem else Ok
  }

  /** The pages nobody would have if tree t were freed. */
  ghost function SpareWithout(s: State, t: nat): nat
    requires t < |s.trees|
  {
    |Unclaimed(s.mem, Ledger(Without(s.trees, t), s.loose))|
  }

  ghost function Answer(op: Op, s: State): Outcome
    requires Fit(s) && Possible(op, s)
  {
    match op
    case Fetch(t, n, mode) => FetchAnswer(s, t, n, mode)
    case StoreAt(t, n, d) => FetchAnswer(s, t, n, Cow)
    case PutNew(t, n, cpu) => if SpareIn(s) == 0 then NoMem else OpenAnswer(s, t, n, SpareIn(s) - 1)
    case Drop(t, n) => OpenAnswer(s, t, n, SpareIn(s))
    case CopyTree(src, dst, mode) => if CopyCost(s.trees[src], mode) <= SpareWithout(s, dst) then Ok else NoMem
    case FreeTree(t) => Ok
    case PinPage(p) => if p < |s.mem.ref| && s.mem.ref[p] == 0 then Panic else Ok
    case UnpinPage(p) => if p < |s.mem.hw| && s.mem.hw[p] == 0 then Panic else Ok
  }

  ghost function Answers(op: Op, s: State): Reply
    requires Fit(s) && Possible(op, s)
  {
    var r := Answer(op, s);
    Reply(r, op.StoreAt? ==> r == Ok && (ImagesIn(s)[op.t][op.n] != Missing || s.trees[op.t].demand))
  }

  /** How many pages are free after it. */
  ghost function SpareAfter(op: Op, s: State): int
    requires Fit(s) && Possible(op, s)
  {
    var r := Answer(op, s);
    match op
    case Fetch(t, n, mode) => SpareFetched(s.mem, s.trees[t], n, mode)
    case StoreAt(t, n, d) => SpareFetched(s.mem, s.trees[t], n, Cow)
    case PutNew(t, n, cpu) =>
      if r == Ok then SpareIn(s) - 1 - Opening(s, t, n) else if r == NoMem && SpareIn(s) > 0 then 1 else SpareIn(s)
    case Drop(t, n) =>
      if r == Ok then SpareIn(s) - Opening(s, t, n) else if r == NoMem then 0 else SpareIn(s)
    case CopyTree(src, dst, mode) => SpareWithout(s, dst) - if r == Ok then CopyCost(s.trees[src], mode) else 0
    case FreeTree(t) => SpareWithout(s, t)
    case PinPage(p) => SpareIn(s)
    case UnpinPage(p) => SpareIn(s) + if r == Ok then LastRef(s.mem.ref, At(p)) else 0
  }

  /** The pages it takes to reach page n and to let go of the page there. */
  ghost function Opening(s: State, t: nat, n: nat): int
    requires Fit(s) && t < |s.trees| && n < CAPACITY
  {
    |LackOf(s.trees[t], n)| - LastRef(s.mem.ref, Find(s.trees[t], n).page)
  }

  // What it does to the state.

  /** One page of one tree now shows c. */
  ghost predicate OnePage(a: seq<Image>, b: seq<Image>, t: nat, n: nat, c: Contents) {
    t < |a| && n < |a[t]| && b == a[t := a[t][n := c]]
  }

  /** What a step does to the images of the trees: the specification, which knows nothing of sharing. */
  ghost predicate Effect(op: Op, reply: Reply, demand: bool, a: seq<Image>, b: seq<Image>) {
    match op
    case Fetch(t, n, mode) =>
      if reply.r == Ok && demand && t < |a| && n < |a[t]| && a[t][n] == Missing then
        exists d :: OnePage(a, b, t, n, Bytes(d))
      else b == a
    case StoreAt(t, n, d) =>
      if reply.done then OnePage(a, b, t, n, Bytes(d)) else b == a
    case PutNew(t, n, cpu) =>
      if reply.r == Ok then exists d :: OnePage(a, b, t, n, Bytes(d)) else b == a
    case Drop(t, n) =>
      if reply.r == Ok then OnePage(a, b, t, n, Missing) else b == a
    case CopyTree(src, dst, mode) =>
      src < |a| && dst < |a| && b == a[dst := if reply.r == Ok then a[src] else BlankImage()]
    case FreeTree(t) => t < |a| && b == a[t := BlankImage()]
    case PinPage(p) => b == a
    case UnpinPage(p) => b == a
  }

  predicate OnDemand(op: Op, s: State)
    requires Possible(op, s)
  {
    op.Fetch? && s.trees[op.t].demand
  }

  /** Only entry n of tree t may have changed. */
  ghost predicate OneEntry(s: State, s': State, t: nat, n: nat)
    requires Fit(s) && Fit(s')
  {
    && t < |s.trees| && |s'.trees| == |s.trees| && s'.trees == s.trees[t := s'.trees[t]]
    && forall k :: 0 <= k < CAPACITY && k != n ==> Find(s'.trees[t], k) == Find(s.trees[t], k)
  }

  /** What becomes of the entry that an operation addresses. */
  ghost predicate Turned(op: Op, r: Outcome, demand: bool, e: Entry, e': Entry) {
    if r != Ok then e' == e
    else match op
    case Fetch(t, n, mode) => EntryFetched(e, e', mode, demand)
    case StoreAt(t, n, d) => EntryFetched(e, e', Cow, demand)
    case PutNew(t, n, cpu) => e'.page.At? && e'.mode == Excl
    case Drop(t, n) => e' == Entry(Nil, Excl)
    case _ => true
  }

  /** The operation is on entry n of tree t, and opens the way to it. */
  ghost predicate OnEntry(op: Op, r: Outcome, s: State, s': State, t: nat, n: nat)
    requires Fit(s) && Fit(s')
  {
    && OneEntry(s, s', t, n) && Settings(s'.trees) == Settings(s.trees)
    && (n < CAPACITY ==> Turned(op, r, s.trees[t].demand, Find(s.trees[t], n), Find(s'.trees[t], n)))
    && (r == Ok && n < CAPACITY ==> OpenedTo(s.trees[t], s'.trees[t], n))
  }

  ghost predicate CopiedOver(r: Outcome, s: State, s': State, src: nat, dst: nat, mode: Mode)
    requires Fit(s) && Fit(s')
  {
    && src < |s.trees| == |s'.trees| && dst < |s.trees|
    && s'.trees == s.trees[src := s'.trees[src]][dst := s'.trees[dst]]
    && Settings(s'.trees) == Settings(s.trees)[dst := (s.trees[src].demand, s.trees[dst].cpu)]
    && SameTreePages(s.trees[src], s'.trees[src])
    && if r == Ok then TreeCopiedAs(s.trees[src], s'.trees[src], s'.trees[dst], mode) else Blank(s'.trees[dst])
  }

  /** The tree is emptied; its direct entries keep their modes. */
  ghost predicate Freed(s: State, s': State, t: nat)
    requires Fit(s) && Fit(s')
  {
    && t < |s.trees| == |s'.trees| && s'.trees == s.trees[t := s'.trees[t]]
    && Settings(s'.trees) == Settings(s.trees) && Blank(s'.trees[t])
    && forall i :: 0 <= i < DIRECT ==> s'.trees[t].direct[i].mode == s.trees[t].direct[i].mode
  }

  /** What a step does to the trees, pins and pages handed out, and what it leaves alone. */
  ghost predicate Changes(op: Op, r: Outcome, s: State, s': State)
    requires Fit(s) && Fit(s')
  {
    && s'.loose == s.loose && Shape(s'.mem) == Shape(s.mem) && |s'.trees| == |s.trees|
    && (op.PinPage? || op.UnpinPage? || s'.mem.hw == s.mem.hw)
    && match op
       case Fetch(t, n, mode) => OnEntry(op, r, s, s', t, n)
       case StoreAt(t, n, d) => OnEntry(op, r, s, s', t, n)
       case PutNew(t, n, cpu) => OnEntry(op, r, s, s', t, n)
       case Drop(t, n) => OnEntry(op, r, s, s', t, n)
       case CopyTree(src, dst, mode) => CopiedOver(r, s, s', src, dst, mode)
       case FreeTree(t) => Freed(s, s', t)
       case PinPage(p) =>
         s'.trees == s.trees && p < |s.mem.hw| && (r == Ok ==> s'.mem.hw == s.mem.hw[p := s.mem.hw[p] + 1])
       case UnpinPage(p) =>
         s'.trees == s.trees && p < |s.mem.hw| && (r == Ok ==> s'.mem.hw == s.mem.hw[p := s.mem.hw[p] - 1])
  }

  ghost predicate Step(op: Op, reply: Reply, s: State, s': State)
    requires Fit(s) && Fit(s')
  {
    && Possible(op, s) && reply == Answers(op, s) && SpareIn(s') == SpareAfter(op, s)
    && Effect(op, reply, OnDemand(op, s), ImagesIn(s), ImagesIn(s')) && Changes(op, reply.r, s, s')
  }

  ghost function StateOf(k: Kernel): State
    reads k
  {
    State(k.mem, k.trees, k.loose)
  }

  method Do(k: Kernel, op: Op) returns (reply: Reply)
    requires k.Valid() && Possible(op, StateOf(k))
    modifies k
    ensures k.Valid() && Fit(StateOf(k)) && old(Fit(StateOf(k)))
    ensures Step(op, reply, old(StateOf(k)), StateOf(k))
  {
    match op {
      case Fetch(t, n, mode) => reply := DoFetch(k, t, n, mode);
      case StoreAt(t, n, d) => reply := DoStore(k, t, n, d);
      case PutNew(t, n, cpu) => reply := DoPut(k, t, n, cpu);
      case Drop(t, n) => reply := DoDrop(k, t, n);
      case CopyTree(src, dst, mode) => reply := DoCopy(k, src, dst, mode);
      case FreeTree(t) => reply := DoFree(k, t);
      case PinPage(p) => reply := DoPin(k, p);
      case UnpinPage(p) => reply := DoUnpin(k, p);
    }
  }

  method DoFetch(k: Kernel, t: nat, n: nat, mode: Mode) returns (reply: Reply)
    requires k.Valid() && t < |k.trees|
    modifies k
    ensures k.Valid() && Fit(StateOf(k)) && old(Fit(StateOf(k)))
    ensures Step(Fetch(t, n, mode), reply, old(StateOf(k)), StateOf(k))
  {
    hide MemOk, WellTree, Ledger, Find, Settings, Fetched, LackOf, Spare, SpareFetched, OpenedTo, EntryFetched, Copies;
    var r, page := k.Get(t, n, mode);
    if r == Ok {
      ShownReaches(k.mem, k.trees, t, n, k.loose);
      ghost var c := View(k.mem, Entry(page, Excl));
      assert OnePage(old(k.Shown()), k.Shown(), t, n, c) && k.Shown()[t][n] == c;
      SetSame(old(k.Shown()), t, n);
    }
    reply := Reply(r, true);
  }

  method DoStore(k: Kernel, t: nat, n: nat, d: Data) returns (reply: Reply)
    requires k.Valid() && t < |k.trees|
    modifies k
    ensures k.Valid() && Fit(StateOf(k)) && old(Fit(StateOf(k)))
    ensures Step(StoreAt(t, n, d), reply, old(StateOf(k)), StateOf(k))
  {
    hide MemOk, WellTree, Ledger, Find, Settings, Fetched, LackOf, Spare, SpareFetched, OpenedTo, EntryFetched;
    var r, done := k.Store(t, n, d);
    reply := Reply(r, done);
  }

  /** page_alloc, pagetree_put_page, and page_free if that fails. */
  method DoPut(k: Kernel, t: nat, n: nat, cpu: nat) returns (reply: Reply)
    requires k.Valid() && t < |k.trees| && cpu < |k.mem.free|
    modifies k
    ensures k.Valid() && Fit(StateOf(k)) && old(Fit(StateOf(k)))
    ensures Step(PutNew(t, n, cpu), reply, old(StateOf(k)), StateOf(k))
  {
    hide MemOk, WellTree, Ledger, Find, Settings, LackOf, Spare, OpenedTo;
    var ok, p := k.Alloc(cpu);
    if !ok {
      return Reply(NoMem, true);
    }
    var r := k.Put(t, n, At(p));
    if r != Ok {
      k.FreePage(p);
    } else {
      assert OnePage(old(k.Shown()), k.Shown(), t, n, Bytes(k.mem.bytes[p]));
    }
    reply := Reply(r, true);
  }

  method DoDrop(k: Kernel, t: nat, n: nat) returns (reply: Reply)
    requires k.Valid() && t < |k.trees|
    modifies k
    ensures k.Valid() && Fit(StateOf(k)) && old(Fit(StateOf(k)))
    ensures Step(Drop(t, n), reply, old(StateOf(k)), StateOf(k))
  {
    hide MemOk, WellTree, Ledger, Find, Settings, LackOf, Spare, OpenedTo;
    var r := k.Put(t, n, Nil);
    reply := Reply(r, true);
  }

  method DoCopy(k: Kernel, src: nat, dst: nat, mode: Mode) returns (reply: Reply)
    requires k.Valid() && src < |k.trees| && dst < |k.trees| && src != dst && mode != Unset
    modifies k
    ensures k.Valid() && Fit(StateOf(k)) && old(Fit(StateOf(k)))
    ensures Step(CopyTree(src, dst, mode), reply, old(StateOf(k)), StateOf(k))
  {
    hide MemOk, WellTree, Ledger, Find, Settings, Spare, CopyCost, Unclaimed, SameTreePages, TreeCopiedAs, Blank;
    var ok := k.Copy(src, dst, mode);
    reply := Reply(if ok then Ok else NoMem, true);
  }

  method DoFree(k: Kernel, t: nat) returns (reply: Reply)
    requires k.Valid() && t < |k.trees|
    modifies k
    ensures k.Valid() && Fit(StateOf(k)) && old(Fit(StateOf(k)))
    ensures Step(FreeTree(t), reply, old(StateOf(k)), StateOf(k))
  {
    hide MemOk, WellTree, Ledger, Settings, Spare, Unclaimed;
    k.Free(t);
    reply := Reply(Ok, true);
  }

  method DoPin(k: Kernel, p: Page) returns (reply: Reply)
    requires k.Valid() && p < |k.mem.nodeOf|
    modifies k
    ensures k.Valid() && Fit(StateOf(k)) && old(Fit(StateOf(k)))
    ensures Step(PinPage(p), reply, old(StateOf(k)), StateOf(k))
  {
    hide MemOk, WellTree, Ledger, Spare;
    var r := k.Pin(p);
    reply := Reply(r, true);
  }

  method DoUnpin(k: Kernel, p: Page) returns (reply: Reply)
    requires k.Valid() && p < |k.mem.nodeOf|
    modifies k
    ensures k.Valid() && Fit(StateOf(k)) && old(Fit(StateOf(k)))
    ensures Step(UnpinPage(p), reply, old(StateOf(k)), StateOf(k))
  {
    hide MemOk, WellTree, Ledger, Spare;
    var r := k.Unpin(p);
    reply := Reply(r, true);
  }

  predicate Stops(reply: Reply) {
    reply.r in {Panic, Fault}
  }

  /** The books hold in every state, every step is as specified, and only a panic or a fault ends it early. */
  ghost predicate IsRun(ops: seq<Op>, replies: seq<Reply>, trace: seq<State>) {
    && |replies| <= |ops| && |trace| == |replies| + 1
    && (forall i :: 0 <= i < |trace| ==> Fit(trace[i]))
    && (forall i :: 0 <= i < |replies| ==> Step(ops[i], replies[i], trace[i], trace[i + 1]))
    && (forall i :: 0 <= i < |replies| - 1 ==> !Stops(replies[i]))
    && (|replies| < |ops| ==> replies != [] && Stops(replies[|replies| - 1]))
  }

  /** Every sequence of operations is such a run from the state before to the one after. */
  method Run(k: Kernel, ops: seq<Op>) returns (replies: seq<Reply>, ghost trace: seq<State>)
    requires k.Valid() && forall i :: 0 <= i < |ops| ==> Possible(ops[i], StateOf(k))
    modifies k
    ensures k.Valid() && IsRun(ops, replies, trace)
    ensures trace[0] == old(StateOf(k)) && trace[|replies|] == StateOf(k)
  {
    hide Kernel.Valid, Step, Fit, Possible;
    replies, trace := [], [StateOf(k)];
    FitNow(k);
    var i := 0;
    while i < |ops|
      invariant 0 <= i <= |ops| && |replies| == i && |trace| == i + 1
      invariant k.Valid() && forall j :: 0 <= j < |ops| ==> Possible(ops[j], StateOf(k))
      invariant trace[0] == old(StateOf(k)) && trace[i] == StateOf(k)
      invariant forall j :: 0 <= j <= i ==> Fit(trace[j])
      invariant forall j :: 0 <= j < i ==> Step(ops[j], replies[j], trace[j], trace[j + 1]) && !Stops(replies[j])
    {
      var reply := Do(k, ops[i]);
      StillPossible(ops, ops[i], reply, trace[i], StateOf(k));
      replies, trace := replies + [reply], trace + [StateOf(k)];
      i := i + 1;
      if reply.r == Panic || reply.r == Fault {
        return;
      }
    }
  }

  lemma FitNow(k: Kernel)
    requires k.Valid()
    ensures Fit(StateOf(k))
  {
  }

  lemma StillPossible(ops: seq<Op>, op: Op, reply: Reply, s: State, s': State)
    requires Fit(s) && Fit(s') && Step(op, reply, s, s') && forall j :: 0 <= j < |ops| ==> Possible(ops[j], s)
    ensures forall j :: 0 <= j < |ops| ==> Possible(ops[j], s')
  {
    hide Fit, Effect, Answers, SpareAfter, OnEntry;
  }

  // Enough memory.

  /** The pages an operation may take: a copy what it costs, any other a page and the indirect pages on a path. */
  ghost function Price(op: Op, s: State): nat {
    if op.CopyTree? && op.src < |s.trees| then CopyCost(s.trees[op.src], op.mode) else TREES + 1
  }

  /** What the first i steps of a run may take. */
  ghost function Prices(ops: seq<Op>, trace: seq<State>, i: nat): nat
    requires i <= |ops| && i <= |trace|
  {
    if i == 0 then 0 else Prices(ops, trace, i - 1) + Price(ops[i - 1], trace[i - 1])
  }

  /** A panic for which memory is not to blame: exclusive use of a shared page, or a count that is already zero. */
  ghost predicate Careless(op: Op, s: State)
    requires Fit(s) && Possible(op, s)
  {
    match op
    case Fetch(t, n, mode) => mode == Excl && n < CAPACITY && Shared(Find(s.trees[t], n).mode)
    case PinPage(p) => p < |s.mem.ref| && s.mem.ref[p] == 0
    case UnpinPage(p) => p < |s.mem.hw| && s.mem.hw[p] == 0
    case _ => false
  }

  /** Memory is not what a step fails for. */
  ghost predicate NotStarved(op: Op, reply: Reply, s: State)
    requires Fit(s) && Possible(op, s)
  {
    reply.r != NoMem && (reply.r == Panic ==> Careless(op, s))
  }

  lemma LackBound(t: Tree, n: nat)
    requires WellTree(t)
    ensures |LackOf(t, n)| <= TREES
  {
    hide Span, WellNode, AbsentAt, Lack;
    if DIRECT <= n < CAPACITY {
      LackSize(t, n);
    } else {
      assert LackOf(t, n) == {};
    }
  }

  lemma FreedLeaves(s: State, t: nat)
    requires Fit(s) && t < |s.trees|
    ensures SpareWithout(s, t) >= SpareIn(s)
  {
    hide MemOk, OfTree, Ledger, Spare, With, Unclaimed;
    FocusTree(s.trees, t, s.trees[t], s.loose);
    assert s.trees[t := s.trees[t]] == s.trees;
    SpareUnclaimed(s.mem, Ledger(s.trees, s.loose));
    MoreUnclaimed(s.mem, Ledger(Without(s.trees, t), s.loose), OfTree(s.trees[t]));
  }

  lemma MoreUnclaimed(m: Mem, base: Books, t: Tally)
    requires MemOk(m, With(base, t))
    ensures |Unclaimed(m, With(base, t))| <= |Unclaimed(m, base)|
  {
    forall p | p in Unclaimed(m, With(base, t)) ensures p in Unclaimed(m, base) {
      assert PageOk(m, With(base, t), p);
      assert With(base, t).named[p] == base.named[p] + t.named[p];
      assert With(base, t).frames[p] == base.frames[p] + t.frames[p];
    }
    MorePages(Unclaimed(m, With(base, t)), Unclaimed(m, base));
  }

  lemma {:induction false} MorePages(a: set<Page>, b: set<Page>)
    requires a <= b
    ensures |a| <= |b|
  {
    if x :| x in a {
      MorePages(a - {x}, b - {x});
    }
  }

  /** With its price in free pages, a step does not fail for memory and takes no more. */
  lemma Affordable(op: Op, s: State)
    requires Fit(s) && Possible(op, s) && Price(op, s) <= SpareIn(s)
    ensures NotStarved(op, Answers(op, s), s) && SpareAfter(op, s) >= SpareIn(s) - Price(op, s)
  {
    hide MemOk, WellTree, Ledger, Find, LackOf, Spare, Unclaimed, CopyCost;
    match op
    case Fetch(t, n, mode) => LackBound(s.trees[t], n);
    case StoreAt(t, n, d) => LackBound(s.trees[t], n);
    case PutNew(t, n, cpu) => LackBound(s.trees[t], n);
    case Drop(t, n) => LackBound(s.trees[t], n);
    case CopyTree(src, dst, mode) => FreedLeaves(s, dst);
    case FreeTree(t) => FreedLeaves(s, t);
    case PinPage(p) =>
    case UnpinPage(p) =>
  }

  /** A run whose price is free at the start never fails for lack of memory. */
  lemma {:induction false} EnoughMemory(ops: seq<Op>, replies: seq<Reply>, trace: seq<State>, i: nat)
    requires IsRun(ops, replies, trace) && i <= |replies| <= |ops| && |trace| == |replies| + 1
    requires Prices(ops, trace, i) <= SpareIn(trace[0])
    ensures SpareIn(trace[i]) >= SpareIn(trace[0]) - Prices(ops, trace, i)
    ensures forall j :: 0 <= j < i ==>
              Fit(trace[j]) && Possible(ops[j], trace[j]) && NotStarved(ops[j], replies[j], trace[j])
  {
    hide IsRun, Fit, Possible, Answers, SpareAfter, SpareIn, Price, NotStarved;
    if i > 0 {
      EnoughMemory(ops, replies, trace, i - 1);
      RunStep(ops, replies, trace, i - 1);
      Affordable(ops[i - 1], trace[i - 1]);
    }
  }

  /** What is used of step i of a run. */
  lemma RunStep(ops: seq<Op>, replies: seq<Reply>, trace: seq<State>, i: nat)
    requires IsRun(ops, replies, trace) && i < |replies|
    ensures i + 1 < |trace| && Fit(trace[i]) && Fit(trace[i + 1]) && Possible(ops[i], trace[i])
    ensures replies[i] == Answers(ops[i], trace[i]) && SpareIn(trace[i + 1]) == SpareAfter(ops[i], trace[i])
  {
    hide Fit, Possible, Effect, Changes, Answers, SpareAfter, SpareIn, OnDemand;
    assert Step(ops[i], replies[i], trace[i], trace[i + 1]);
  }

  /**
   Freeing a tree forgets the pages of its direct entries but not their modes.  A later
   fetch for writing fails, with a fault or for lack of memory, exactly when the entry had
   been shared; a tree that was never shared gives an empty or a demand page.
   */
  method FetchAfterFree(k: Kernel, t: nat, n: nat) returns (r: Outcome)
    requires k.Valid() && t < |k.trees| && n < DIRECT
    modifies k
    ensures k.Valid()
    ensures r in {Fault, NoMem} <==> Shared(old(k.trees[t]).direct[n].mode)
    ensures r == Ok || r == Panic <==> !Shared(old(k.trees[t]).direct[n].mode)
  {
    hide Kernel.Shown, MemOk, Ledger;
    k.Free(t);
    BaseMonotone(0, TREES);
    assert Find(k.trees[t], n) == k.trees[t].direct[n];
    DirectReached(k.trees[t], n);
    var page;
    r, page := k.Get(t, n, Cow);
  }

  /** Such a run: a page is put, the tree copied copy-on-write, freed, and fetched from again. */
  method FetchFaults() returns (r: Outcome)
    ensures r == Fault
  {
    hide Kernel.Valid, Kernel.Shown, Lookup;
    var k := PutAndCopied();
    k.Free(0);
    k.FreePage(1);
    r := FetchSparing(k);
  }

  /** The fetch at the end, with a page to spare for the copy. */
  method FetchSparing(k: Kernel) returns (r: Outcome)
    requires k.Valid() && |k.trees| > 0 && Spare(k.mem.free) > 0
    requires k.trees[0].direct[0] == Entry(Nil, Cow)
    modifies k
    ensures r == Fault
  {
    hide MemOk, Ledger, Kernel.Shown, OpenedTo, Spare, SpareFetched, EntryFetched, Settings;
    BaseMonotone(0, TREES);
    assert Find(k.trees[0], 0) == k.trees[0].direct[0];
    DirectReached(k.trees[0], 0);
    var page;
    r, page := k.Get(0, 0, Cow);
  }

  /** A kernel of two pages: page 0 is in a tree and in its copy, page 1 is handed out. */
  method PutAndCopied() returns (k: Kernel)
    ensures fresh(k) && k.Valid() && |k.trees| == 2 && 1 in k.loose && k.trees[0].direct[0].mode == Cow
  {
    hide MemOk, Ledger, Kernel.Shown, WellNode, OpenedTo, TreeCopiedAs, CopyCost, Spare, Lookup, Unclaimed, PutsBack;
    k := new Kernel([0, 0], 1, [[], []]);
    BaseMonotone(0, TREES);
    var t := k.NewTree(false, 0);
    var u := k.NewTree(false, 0);
    ghost var was := k.trees[t];
    DirectReached(was, 0);
    var r := k.Put(t, 0, At(0));
    StillNoIndirect(was, k.trees[t], 0);
    SharingIsFree(k.trees[t], Cow);
    ghost var put := k.trees[t];
    var ok := k.Copy(t, u, Cow);
    CopiedMode(put, k.trees[t], k.trees[u], Cow, 0);
  }

  lemma StillNoIndirect(t: Tree, t': Tree, n: nat)
    requires WellTree(t) && WellTree(t') && n < DIRECT && n < CAPACITY && OpenedTo(t, t', n)
    requires forall i :: 0 <= i < TREES ==> t.indir[i].Absent?
    ensures forall i :: 0 <= i < TREES ==> t'.indir[i].Absent?
  {
    forall i | 0 <= i < TREES ensures t'.indir[i].Absent? {
      assert SameNodes(t.indir[i], t'.indir[i], i) && Slots(i, []);
      assert AbsentAt(t.indir[i], []) && AbsentAt(t'.indir[i], []);
    }
  }

  /** Sharing a tree without indirect pages takes no page. */
  lemma SharingIsFree(t: Tree, mode: Mode)
    requires WellTree(t) && mode != Excl && forall i :: 0 <= i < TREES ==> t.indir[i].Absent?
    ensures CopyCost(t, mode) == 0
  {
    SharedEntries(t.direct, mode);
    AbsentKids(t.indir, mode);
  }

  lemma {:induction false} SharedEntries(es: seq<Entry>, mode: Mode)
    requires mode != Excl
    ensures EntriesCost(es, mode) == 0
  {
    if es != [] { SharedEntries(es[1..], mode); }
  }

  lemma {:induction false} AbsentKids(kids: seq<Node>, mode: Mode)
    requires forall i :: 0 <= i < |kids| ==> kids[i].Absent?
    ensures KidsCost(kids, mode) == 0
  {
    if kids != [] { AbsentKids(kids[1..], mode); }
  }

  lemma CopiedMode(src: Tree, src': Tree, dst: Tree, mode: Mode, n: nat)
    requires WellTree(src) && WellTree(src') && WellTree(dst) && TreeCopiedAs(src, src', dst, mode)
    requires n < DIRECT && n < CAPACITY && src.direct[n].page.At? && mode != Excl
    ensures src'.direct[n].mode == Cow
  {
    assert CopiedAs(Find(src, n), Find(src', n), Find(dst, n), mode);
  }

  /** The step addresses tree j. */
  predicate Addresses(op: Op, j: nat) {
    match op
    case Fetch(t, n, mode) => t == j
    case StoreAt(t, n, d) => t == j
    case PutNew(t, n, cpu) => t == j
    case Drop(t, n) => t == j
    case CopyTree(src, dst, mode) => dst == j
    case FreeTree(t) => t == j
    case PinPage(p) => false
    case UnpinPage(p) => false
  }

  lemma StepFrames(op: Op, reply: Reply, s: State, s': State, j: nat)
    requires Fit(s) && Fit(s') && Step(op, reply, s, s') && j < |s.trees| && !Addresses(op, j)
    ensures |s'.trees| == |s.trees| && ImagesIn(s')[j] == ImagesIn(s)[j]
  {
    hide Fit, Answers, SpareAfter, OnEntry;
  }

  /** Isolation: over any stretch of a run in which no step addresses a tree, it shows the same. */
  lemma {:induction false} Isolation(ops: seq<Op>, replies: seq<Reply>, trace: seq<State>, i: nat, j: nat, t: nat)
    requires IsRun(ops, replies, trace) && i <= j < |trace| && t < |trace[i].trees|
    requires forall k :: i <= k < j ==> !Addresses(ops[k], t)
    ensures |trace[j].trees| == |trace[i].trees| && ImagesIn(trace[j])[t] == ImagesIn(trace[i])[t]
  {
    hide Fit, Step, Addresses, ImagesIn;
    if i < j {
      Isolation(ops, replies, trace, i, j - 1, t);
      StepFrames(ops[j - 1], replies[j - 1], trace[j - 1], trace[j], t);
    }
  }

  /**
   Copy-on-write isolation: after a copy, for as long as no step addresses the original or
   no step addresses the copy, that one shows what the original showed when it was copied.
   */
  lemma CopyIsolated(ops: seq<Op>, replies: seq<Reply>, trace: seq<State>, i: nat, j: nat, t: nat)
    requires IsRun(ops, replies, trace) && i < j < |trace| && ops[i].CopyTree? && replies[i].r == Ok
    requires t == ops[i].src || t == ops[i].dst
    requires forall k :: i < k < j ==> !Addresses(ops[k], t)
    ensures ops[i].src < |trace[i].trees| && t < |trace[j].trees|
    ensures ImagesIn(trace[j])[t] == ImagesIn(trace[i])[ops[i].src]
  {
    hide Fit, Addresses, ImagesIn, Answers, SpareAfter, OnEntry, CopiedOver, Freed;
    assert Step(ops[i], replies[i], trace[i], trace[i + 1]);
    Copied(ops[i], replies[i], trace[i], trace[i + 1], t);
    Isolation(ops, replies, trace, i + 1, j, t);
  }

  lemma Copied(op: Op, reply: Reply, s: State, s': State, t: nat)
    requires Fit(s) && Fit(s') && Step(op, reply, s, s') && op.CopyTree? && reply.r == Ok
    requires t == op.src || t == op.dst
    ensures op.src < |s.trees| && t < |s'.trees| && ImagesIn(s')[t] == ImagesIn(s)[op.src]
  {
    hide Fit, Answers, SpareAfter, SameTreePages, TreeCopiedAs, Settings;
  }
}
