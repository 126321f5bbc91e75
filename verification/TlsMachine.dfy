/** emutls.c as a whole: any number of threads inside __emutls_get_address, thread
    exits, and the rest of the program, as an interleaving of steps. */
module TlsMachine {
  import opened Bytes
  import opened Counting
  import opened EmuMemory
  import opened TlsThread
  import N = TlsIndex

  datatype State = State(numbering: N.State, threads: seq<Thread>, blocks: map<nat, nat>, memory: Memory, aborted: bool)

  datatype Action =
    | Call(thread: nat, control: nat)
    | Number(thread: nat)
    | Numbered(thread: nat, index: nat)
    | Work(thread: nat)
    | Obtain(thread: nat, q: nat)
    | Abort(thread: nat, refused: bool)
    | Return(thread: nat, p: nat)
    | Exit(thread: nat)
    | Client

  /** Only thread t, memory and blocks may differ. */
  ghost predicate OnlyThread(s: State, t: nat, s': State)
    requires t < |s.threads|
  {
    && |s'.threads| == |s.threads|
    && s' == s.(threads := s.threads[t := s'.threads[t]], memory := s'.memory, blocks := s'.blocks)
  }

  ghost predicate Step(c: Config, s: State, a: Action, s': State)
    requires c.Valid()
  {
    !s.aborted &&
    match a
    case Call(t, k) =>
      && t < |s.threads| && s.threads[t].pc == Idle && k < |c.controls|
      && N.Step(s.numbering, N.Call(t, k), s'.numbering)
      && s' == s.(numbering := s'.numbering, threads := s.threads[t := s.threads[t].(pc := Indexing(k))])
    case Number(t) =>
      && t < |s.threads| && N.Step(s.numbering, N.Move(t), s'.numbering) && s' == s.(numbering := s'.numbering)
    case Numbered(t, i) =>
      && t < |s.threads| && s.threads[t].pc.Indexing?
      && N.Step(s.numbering, N.Return(t, i), s'.numbering)
      && s' == s.(numbering := s'.numbering,
                  threads := s.threads[t := s.threads[t].(pc := Fetching(s.threads[t].pc.control, i))])
    case Work(t) =>
      && t < |s.threads| && OnlyThread(s, t, s')
      && Works(c, s.memory, s.blocks, s.threads[t], s'.memory, s'.blocks, s'.threads[t])
    case Obtain(t, q) =>
      && t < |s.threads| && OnlyThread(s, t, s')
      && Obtains(c, s.memory, s.blocks, s.threads[t], q, s'.memory, s'.blocks, s'.threads[t])
    case Abort(t, refused) =>
      t < |s.threads| && Aborts(c, s.threads[t], refused) && s' == s.(aborted := true)
    case Return(t, p) =>
      && t < |s.threads| && s.threads[t].pc.Returning? && p == s.threads[t].pc.p
      && s' == s.(threads := s.threads[t := s.threads[t].(pc := Idle)])
    case Exit(t) =>
      && t < |s.threads| && s.threads[t].pc == Idle && s.threads[t].key != 0
      && s' == s.(threads := s.threads[t := Thread(0, Destroying(s.threads[t].key))])
    case Client =>
      && s' == s.(memory := s'.memory, blocks := s'.blocks)
      && AllocatorOk(s'.blocks)
      && forall t :: 0 <= t < |s.threads| ==> Respects(s.memory, s.blocks, s.threads[t], s'.memory, s'.blocks)
  }

  ghost predicate Init(c: Config, s: State) {
    && c.Valid() && N.Init(s.numbering) && AllocatorOk(s.blocks) && !s.aborted
    && |s.threads| == |s.numbering.threads| && |s.numbering.index| == |c.controls|
    && forall t :: 0 <= t < |s.threads| ==> s.threads[t] == Thread(0, Idle)
  }

  // ---- the invariant ----

  /** No block belongs to two threads. */
  ghost predicate Separate(m: Memory, threads: seq<Thread>) {
    forall t, u, b :: 0 <= t < |threads| && 0 <= u < |threads| && t != u && Owns(m, threads[t], b) ==> !Owns(m, threads[u], b)
  }

  /** A thread is numbering exactly while it is inside emutls_get_index. */
  ghost predicate Agreed(s: State) {
    && |s.threads| == |s.numbering.threads|
    && forall t :: 0 <= t < |s.threads| ==>
      if s.threads[t].pc.Indexing? then
        !s.numbering.threads[t].Ready? && s.numbering.threads[t].control == s.threads[t].pc.control
      else s.numbering.threads[t].Ready?
  }

  ghost predicate AllOk(c: Config, m: Memory, blocks: map<nat, nat>, index: seq<nat>, threads: seq<Thread>)
    requires c.Valid()
  {
    forall t :: 0 <= t < |threads| ==> ThreadOk(c, m, blocks, index, threads[t])
  }

  ghost predicate Inv(c: Config, s: State) {
    && c.Valid() && |s.numbering.index| == |c.controls| && N.Inv(s.numbering) && Agreed(s)
    && AllocatorOk(s.blocks) && Separate(s.memory, s.threads)
    && AllOk(c, s.memory, s.blocks, s.numbering.index, s.threads)
  }

  lemma NothingOwned(m: Memory, b: nat)
    ensures !Owns(m, Thread(0, Idle), b)
  {}

  lemma InitEstablishesInv(c: Config, s: State)
    requires Init(c, s)
    ensures Inv(c, s)
  {
    hide N.Inv, AllocatorOk, Owns, Slot, Size, Skip;
    N.InitEstablishesInv(s.numbering);
    forall t, b | 0 <= t < |s.threads| ensures !Owns(s.memory, s.threads[t], b) {
      NothingOwned(s.memory, b);
    }
  }

  lemma IndexFacts(n: N.State)
    requires N.Inv(n) && |n.index| < 0x100_0000_0000_0000
    ensures Injective(n.index) && Few(n.index)
  {
    N.StoredBound(n.index, N.Stored(n));
  }

  lemma NumberingGrows(n: N.State, a: N.Action, n': N.State)
    requires N.Inv(n) && N.Step(n, a, n')
    ensures Grows(n.index, n'.index) && |n'.index| == |n.index| && |n'.threads| == |n.threads| && N.Inv(n')
    ensures forall t :: 0 <= t < |n.threads| && t != a.thread ==> n'.threads[t] == n.threads[t]
  {
    N.StepKeepsInv(n, a, n');
    forall k | 0 <= k < |n.index| && n.index[k] != 0 ensures k < |n'.index| && n'.index[k] == n.index[k] {
      N.WriteOnce(n, a, n', k);
    }
  }

  /** A thread whose blocks the moving thread does not own is respected. */
  lemma Respected(c: Config, m: Memory, blocks: map<nat, nat>, index: seq<nat>, th: Thread, m': Memory,
                  blocks': map<nat, nat>,
                  mover: Thread)
    requires c.Valid() && ThreadOk(c, m, blocks, index, th) && AllocatorOk(blocks) && OnlyTouches(m, blocks, mover, m', blocks')
    requires forall b :: Owns(m, th, b) ==> !Owns(m, mover, b)
    ensures Respects(m, blocks, th, m', blocks')
  {
    hide Shape, PcOk, Owns, Same, VisibleSame, PendingSame, BlocksKept, AllocatorOk;
    ZeroIsNoBlock(blocks);
    Harmless(c, m, blocks, index, th, m', blocks');
  }

  lemma SameOwned(c: Config, m: Memory, m': Memory, blocks: map<nat, nat>, blocks': map<nat, nat>, index: seq<nat>,
                  th: Thread)
    requires c.Valid() && ThreadOk(c, m, blocks, index, th) && Respects(m, blocks, th, m', blocks')
    ensures forall b :: Owns(m', th, b) <==> Owns(m, th, b)
    ensures forall b :: Owns(m, th, b) ==> b in blocks
  {
    hide Shape, PcOk, Owns, VisibleSame, PendingSame, BlocksKept;
    ViewKept(c, m, m', blocks, index, th);
    OwnedLive(c, m, blocks, index, th);
  }

  /** When one thread moves, the others keep all they know, and nobody comes to own
      a block of somebody else. */
  lemma OneMoves(c: Config, s: State, t: nat, s': State)
    requires Inv(c, s) && t < |s.threads| == |s'.threads| && s'.threads == s.threads[t := s'.threads[t]]
    requires Grows(s.numbering.index, s'.numbering.index)
    requires ThreadOk(c, s'.memory, s'.blocks, s'.numbering.index, s'.threads[t])
    requires Moves(s.memory, s.blocks, s.threads[t], s'.memory, s'.blocks, s'.threads[t])
    ensures AllOk(c, s'.memory, s'.blocks, s'.numbering.index, s'.threads)
    ensures Separate(s'.memory, s'.threads) && AllocatorOk(s'.blocks)
  {
    hide ThreadOk, Owns, AllocatorOk, N.Inv, Respects, OnlyTouches, Injective, Grows;
    IndexFacts(s.numbering);
    forall u | 0 <= u < |s.threads| && u != t
      ensures ThreadOk(c, s'.memory, s'.blocks, s'.numbering.index, s'.threads[u])
      ensures forall b :: Owns(s'.memory, s'.threads[u], b) <==> Owns(s.memory, s.threads[u], b)
      ensures forall b :: Owns(s.memory, s.threads[u], b) ==> b in s.blocks
    {
      assert s'.threads[u] == s.threads[u];
      Respected(c, s.memory, s.blocks, s.numbering.index, s.threads[u], s'.memory, s'.blocks, s.threads[t]);
      ThreadKept(c, s.memory, s'.memory, s.blocks, s'.blocks, s.numbering.index, s'.numbering.index, s.threads[u]);
      SameOwned(c, s.memory, s'.memory, s.blocks, s'.blocks, s.numbering.index, s.threads[u]);
    }
  }

  /** A call, a return, a thread's exit, or numbering: only the place changes. */
  lemma PlaceChanges(c: Config, m: Memory, blocks: map<nat, nat>, index: seq<nat>, index': seq<nat>, th: Thread,
                     th': Thread)
    requires c.Valid() && ThreadOk(c, m, blocks, index, th) && AllocatorOk(blocks) && Injective(index) && Grows(index, index')
    requires th' == th || (Base(th') == Base(th) && Pending(th') == Pending(th) == 0 && First(m, th') == First(m, th))
    requires th' != th && Base(th) != 0 ==> Capacity(m, th') == Capacity(m, th)
    requires th' != th ==> PcOk(c, m, index', th')
    ensures ThreadOk(c, m, blocks, index', th') && Moves(m, blocks, th, m, blocks, th')
  {
    hide PcOk, AllocatorOk, Shape, Owns;
    Untouched(m, blocks, th);
    ThreadKept(c, m, m, blocks, blocks, index, index', th);
    StillOwned(m, th, th');
    Calm(c, m, blocks, index', th, th');
  }

  lemma Untouched(m: Memory, blocks: map<nat, nat>, th: Thread)
    ensures Respects(m, blocks, th, m, blocks)
  {}

  lemma NumberStepsKeepInv(c: Config, s: State, a: Action, s': State)
    requires Inv(c, s) && Step(c, s, a, s') && (a.Call? || a.Number? || a.Numbered?)
    ensures Inv(c, s')
  {
    hide AllocatorOk, N.Inv, Owns, Injective, Grows, Shape, Moves, Slot, Size, Skip;
    var t := a.thread;
    IndexFacts(s.numbering);
    var move := match a case Call(_, k) => N.Call(t, k) case Number(_) => N.Move(t) case Numbered(_, i) => N.Return(t, i) case _ => N.Move(t);
    NumberingGrows(s.numbering, move, s'.numbering);
    NumberingPlaces(c, s, a, s');
    PlaceChanges(c, s.memory, s.blocks, s.numbering.index, s'.numbering.index, s.threads[t], s'.threads[t]);
    OneMoves(c, s, t, s');
  }

  /** The two halves of a thread's place fit together. */
  lemma NumberingPlaces(c: Config, s: State, a: Action, s': State)
    requires Inv(c, s) && Step(c, s, a, s') && (a.Call? || a.Number? || a.Numbered?)
    ensures a.thread < |s.threads| == |s'.threads| && s'.threads == s.threads[a.thread := s'.threads[a.thread]]
    ensures Agreed(s') && (s'.threads[a.thread] != s.threads[a.thread] ==> PcOk(c, s.memory, s'.numbering.index, s'.threads[a.thread]))
  {
    hide AllocatorOk, Owns, Shape, Slot, Size, Skip, Separate, AllOk;
    assert s'.threads == s.threads[a.thread := s'.threads[a.thread]];
    if a.Numbered? {
      assert N.ThreadOk(s.numbering, s.numbering.threads[a.thread]);
    }
  }

  lemma PlaceStepsKeepInv(c: Config, s: State, a: Action, s': State)
    requires Inv(c, s) && Step(c, s, a, s') && (a.Return? || a.Exit?)
    ensures Inv(c, s')
  {
    hide AllocatorOk, N.Inv, Owns, Injective, Shape, Moves, Slot, Size, Skip;
    var t := a.thread;
    IndexFacts(s.numbering);
    PlaceChanges(c, s.memory, s.blocks, s.numbering.index, s'.numbering.index, s.threads[t], s'.threads[t]);
    OneMoves(c, s, t, s');
  }

  lemma StorageStepsKeepInv(c: Config, s: State, a: Action, s': State)
    requires Inv(c, s) && Step(c, s, a, s') && (a.Work? || a.Obtain?)
    ensures Moves(s.memory, s.blocks, s.threads[a.thread], s'.memory, s'.blocks, s'.threads[a.thread])
    ensures Inv(c, s')
  {
    hide AllocatorOk, N.Inv, Owns, Injective, ThreadOk, Moves, Works, Obtains, Separate;
    var t := a.thread;
    var th, th' := s.threads[t], s'.threads[t];
    IndexFacts(s.numbering);
    if a.Work? {
      WorkKeeps(c, s.memory, s.blocks, s.numbering.index, th, s'.memory, s'.blocks, th');
      WorkIsStorage(c, s.memory, s.blocks, th, s'.memory, s'.blocks, th');
    } else {
      ObtainKeeps(c, s.memory, s.blocks, s.numbering.index, th, a.q, s'.memory, s'.blocks, th');
      ObtainIsStorage(c, s.memory, s.blocks, th, a.q, s'.memory, s'.blocks, th');
    }
    OneMoves(c, s, t, s');
  }

  lemma WorkIsStorage(c: Config, m: Memory, blocks: map<nat, nat>, th: Thread, m': Memory, blocks': map<nat, nat>,
                      th': Thread)
    requires c.Valid() && Works(c, m, blocks, th, m', blocks', th')
    ensures !th.pc.Indexing? && !th'.pc.Indexing?
  {
    hide Slot, Size, Skip;
  }

  lemma ObtainIsStorage(c: Config, m: Memory, blocks: map<nat, nat>, th: Thread, q: nat, m': Memory,
                        blocks': map<nat, nat>, th': Thread)
    requires c.Valid() && Obtains(c, m, blocks, th, q, m', blocks', th')
    ensures !th.pc.Indexing? && !th'.pc.Indexing?
  {
    hide Slot, Size, Skip;
  }

  /** The rest of the program. */
  lemma ClientKeepsInv(c: Config, s: State, s': State)
    requires Inv(c, s) && Step(c, s, Client, s')
    ensures Inv(c, s')
  {
    hide AllocatorOk, N.Inv, Owns, Injective, ThreadOk, Respects;
    IndexFacts(s.numbering);
    forall t | 0 <= t < |s.threads|
      ensures ThreadOk(c, s'.memory, s'.blocks, s.numbering.index, s.threads[t])
      ensures forall b :: Owns(s'.memory, s.threads[t], b) <==> Owns(s.memory, s.threads[t], b)
    {
      ThreadKept(c, s.memory, s'.memory, s.blocks, s'.blocks, s.numbering.index, s.numbering.index, s.threads[t]);
      SameOwned(c, s.memory, s'.memory, s.blocks, s'.blocks, s.numbering.index, s.threads[t]);
    }
  }

  /** Every interleaving keeps the invariant. */
  lemma StepKeepsInv(c: Config, s: State, a: Action, s': State)
    requires Inv(c, s) && Step(c, s, a, s')
    ensures Inv(c, s')
  {
    hide Inv, Step;
    match a
    case Call(_, _) => NumberStepsKeepInv(c, s, a, s');
    case Number(_) => NumberStepsKeepInv(c, s, a, s');
    case Numbered(_, _) => NumberStepsKeepInv(c, s, a, s');
    case Work(_) => StorageStepsKeepInv(c, s, a, s');
    case Obtain(_, _) => StorageStepsKeepInv(c, s, a, s');
    case Return(_, _) => PlaceStepsKeepInv(c, s, a, s');
    case Exit(_) => PlaceStepsKeepInv(c, s, a, s');
    case Client => ClientKeepsInv(c, s, s');
    case Abort(_, _) => AbortKeepsInv(c, s, a, s');
  }

  lemma AbortKeepsInv(c: Config, s: State, a: Action, s': State)
    requires Inv(c, s) && Step(c, s, a, s') && a.Abort?
    ensures Inv(c, s')
  {
    hide AllocatorOk, N.Inv, Owns, ThreadOk;
  }

  // ---- whole runs ----

  ghost predicate Run(c: Config, states: seq<State>, actions: seq<Action>) {
    && c.Valid() && |states| == |actions| + 1 && Init(c, states[0])
    && forall n :: 0 <= n < |actions| ==> Step(c, states[n], actions[n], states[n + 1])
  }

  /** In every reachable state the invariant holds. */
  lemma {:induction false} ReachableInv(c: Config, states: seq<State>, actions: seq<Action>)
    requires Run(c, states, actions)
    ensures forall n :: 0 <= n < |states| ==> Inv(c, states[n]) && |states[n].threads| == |states[0].threads|
  {
    hide Inv, Init, Step;
    InitEstablishesInv(c, states[0]);
    var n := 0;
    while n < |actions|
      invariant 0 <= n <= |actions|
      invariant forall i :: 0 <= i <= n ==> Inv(c, states[i]) && |states[i].threads| == |states[0].threads|
    {
      StepKeepsInv(c, states[n], actions[n], states[n + 1]);
      ThreadsStay(c, states[n], actions[n], states[n + 1]);
      n := n + 1;
    }
  }

  lemma ThreadsStay(c: Config, s: State, a: Action, s': State)
    requires c.Valid() && Step(c, s, a, s')
    ensures |s'.threads| == |s.threads|
  {
    hide N.Step, Works, Obtains;
  }

  /** A step of thread t on the memory. */
  predicate OwnStep(a: Action, t: nat) { (a.Work? || a.Obtain?) && a.thread == t }

  /** Every other step leaves what is thread t's alone, and its table where it is. */
  lemma StepRespects(c: Config, s: State, a: Action, s': State, t: nat)
    requires Inv(c, s) && Step(c, s, a, s') && t < |s.threads| && !OwnStep(a, t)
    ensures t < |s'.threads| && Respects(s.memory, s.blocks, s.threads[t], s'.memory, s'.blocks)
    ensures Base(s'.threads[t]) == Base(s.threads[t])
    ensures s'.threads[t] == s.threads[t] || (s'.memory == s.memory && s'.blocks == s.blocks)
  {
    hide AllocatorOk, N.Inv, N.Step, Owns, ThreadOk, Respects, Works, Obtains, OnlyTouches;
    if a.Work? || a.Obtain? {
      StorageStepsKeepInv(c, s, a, s');
      MovesTouches(s.memory, s.blocks, s.threads[a.thread], s'.memory, s'.blocks, s'.threads[a.thread]);
      Respected(c, s.memory, s.blocks, s.numbering.index, s.threads[t], s'.memory, s'.blocks, s.threads[a.thread]);
    } else if !a.Client? {
      Untouched(s.memory, s.blocks, s.threads[t]);
    }
  }

  lemma MovesTouches(m: Memory, blocks: map<nat, nat>, th: Thread, m': Memory, blocks': map<nat, nat>, th': Thread)
    requires Moves(m, blocks, th, m', blocks', th')
    ensures OnlyTouches(m, blocks, th, m', blocks')
  {}

  /** Thread t's table is passed to free. */
  predicate TableFreed(s: State, a: Action, t: nat) {
    a.Work? && a.thread == t && t < |s.threads| && s.threads[t].pc.FreeingTable?
  }

  /** Slot i of thread t's table holds p. */
  predicate SlotHolds(s: State, t: nat, i: nat, p: nat) {
    t < |s.threads| && Holds(s.memory, s.threads[t], i, p)
  }

  /** A thread ends a round. */
  function Ended(a: Action, t: nat): nat { if a == Exit(t) then 1 else 0 }

  /** Until the table is freed every step of every thread, growth included, and the
      rest of the program leave its occupied slots as they are; and only the thread's
      own exits bring its end nearer. */
  lemma StepKeepsTable(c: Config, s: State, a: Action, s': State, t: nat)
    requires Inv(c, s) && Step(c, s, a, s') && t < |s.threads| && Base(s.threads[t]) != 0 && !TableFreed(s, a, t)
    ensures t < |s'.threads| && Base(s'.threads[t]) != 0
    ensures ExitsLeft(s.memory, s.threads[t]) == ExitsLeft(s'.memory, s'.threads[t]) + Ended(a, t)
    ensures forall i, p :: SlotHolds(s, t, i, p) ==> SlotHolds(s', t, i, p)
  {
    hide AllocatorOk, N.Inv, N.Step, Owns, Shape, PcOk, Works, Obtains, VisibleSame, PendingSame, BlocksKept, Injective, Slot, Size, Skip;
    var th, index := s.threads[t], s.numbering.index;
    IndexFacts(s.numbering);
    if OwnStep(a, t) {
      if a.Work? {
        WorkKeepsTable(c, s.memory, s.blocks, index, th, s'.memory, s'.blocks, s'.threads[t]);
      } else {
        ObtainKeepsTable(c, s.memory, s.blocks, index, th, a.q, s'.memory, s'.blocks, s'.threads[t]);
      }
    } else {
      StepRespects(c, s, a, s', t);
      ElsewhereKeepsTable(c, s.memory, s'.memory, s.blocks, index, th, th);
      PlaceAfter(c, s, a, s', t);
    }
  }

  /** The place of a thread after a step that is not on its memory. */
  lemma PlaceAfter(c: Config, s: State, a: Action, s': State, t: nat)
    requires Inv(c, s) && Step(c, s, a, s') && t < |s.threads| == |s'.threads| && !OwnStep(a, t)
    ensures Base(s'.threads[t]) == Base(s.threads[t])
    ensures ExitsLeft(s'.memory, s.threads[t]) == ExitsLeft(s'.memory, s'.threads[t]) + Ended(a, t)
  {
    hide AllocatorOk, N.Inv, N.Step, AllOk, Separate, Works, Obtains, Respects, Slot, Size, Skip;
  }

  /** One slot of it. */
  lemma StepKeepsSlot(c: Config, s: State, a: Action, s': State, t: nat, i: nat, p: nat)
    requires Inv(c, s) && Step(c, s, a, s') && SlotHolds(s, t, i, p) && !TableFreed(s, a, t)
    ensures SlotHolds(s', t, i, p)
  {
    hide Inv, Step, TableFreed, Slot, Size;
    StepKeepsTable(c, s, a, s', t);
  }

  lemma StepKeepsKnown(c: Config, s: State, a: Action, s': State, k: nat, i: nat)
    requires Inv(c, s) && Step(c, s, a, s') && Known(c, s.numbering.index, k, i)
    ensures Known(c, s'.numbering.index, k, i)
  {
    hide AllocatorOk, N.Inv, N.Step, Owns, ThreadOk, Works, Obtains, Respects;
    if a.Call? {
      NumberingGrows(s.numbering, N.Call(a.thread, a.control), s'.numbering);
    } else if a.Number? {
      NumberingGrows(s.numbering, N.Move(a.thread), s'.numbering);
    } else if a.Numbered? {
      NumberingGrows(s.numbering, N.Return(a.thread, a.index), s'.numbering);
    }
  }

  /** A call of thread t for control k returns p. */
  predicate Returns(s: State, a: Action, t: nat, k: nat, p: nat) {
    a == Return(t, p) && t < |s.threads| && s.threads[t].pc.Returning? && s.threads[t].pc.control == k
  }

  /** What a returning thread knows. */
  lemma ReturnHolds(c: Config, s: State, a: Action, s': State, t: nat, k: nat, p: nat) returns (i: nat)
    requires Inv(c, s) && Step(c, s, a, s') && Returns(s, a, t, k, p)
    ensures i > 0 && Known(c, s.numbering.index, k, i) && SlotHolds(s, t, i - 1, p) && i == s.threads[t].pc.index
  {
    hide AllocatorOk, N.Inv, Owns, Shape, Slot, Size, Skip;
    i := s.threads[t].pc.index;
    assert ThreadOk(c, s.memory, s.blocks, s.numbering.index, s.threads[t]);
  }

  /** From one state of a run to a later one, with no free of the table between. */
  lemma {:induction false} SlotStays(c: Config, states: seq<State>, actions: seq<Action>, from: nat, to: nat, t: nat,
                                     k: nat, i: nat, p: nat)
    requires Run(c, states, actions) && from <= to < |states| && i > 0
    requires SlotHolds(states[from], t, i - 1, p) && Known(c, states[from].numbering.index, k, i)
    requires forall n :: from <= n < to ==> !TableFreed(states[n], actions[n], t)
    ensures SlotHolds(states[to], t, i - 1, p) && Known(c, states[to].numbering.index, k, i)
  {
    hide Inv, Init, Step, SlotHolds, Known;
    ReachableInv(c, states, actions);
    var n := from;
    while n < to
      invariant from <= n <= to
      invariant SlotHolds(states[n], t, i - 1, p) && Known(c, states[n].numbering.index, k, i)
    {
      StepKeepsSlot(c, states[n], actions[n], states[n + 1], t, i - 1, p);
      StepKeepsKnown(c, states[n], actions[n], states[n + 1], k, i);
      n := n + 1;
    }
  }

  /** A thread keeps one address per control: two calls of one thread for one control
      return the same address unless the thread's table has been freed between,
      whatever other threads, growth, skipped destructor rounds and the rest of the
      program do meanwhile. */
  lemma OneAddress(c: Config, states: seq<State>, actions: seq<Action>, i: nat, j: nat, t: nat, k: nat, p: nat, q: nat)
    requires Run(c, states, actions) && i < j < |actions|
    requires Returns(states[i], actions[i], t, k, p) && Returns(states[j], actions[j], t, k, q)
    requires forall n :: i < n < j ==> !TableFreed(states[n], actions[n], t)
    ensures p == q != 0
  {
    hide Inv, Init, Step, Slot, Size;
    ReachableInv(c, states, actions);
    var index := ReturnHolds(c, states[i], actions[i], states[i + 1], t, k, p);
    var again := ReturnHolds(c, states[j], actions[j], states[j + 1], t, k, q);
    SlotStays(c, states, actions, i, j, t, k, index, p);
  }

  // ---- addresses never coincide ----

  /** Objects of different slots, of one thread or two, lie apart. */
  lemma ObjectsApart(c: Config, s: State, t: nat, u: nat, i: nat, j: nat, k: nat, l: nat)
    requires Inv(c, s) && t < |s.threads| && u < |s.threads| && (t != u || i != j)
    requires Live(s.memory, s.threads[t], i) && Live(s.memory, s.threads[u], j)
    requires Known(c, s.numbering.index, k, i + 1) && Known(c, s.numbering.index, l, j + 1)
    ensures var p, q := Address(s.memory, s.threads[t], i), Address(s.memory, s.threads[u], j);
      p != q && Apart(p, c.controls[k].size, q, c.controls[l].size)
  {
    hide N.Inv, Slot, Size, Skip, BackPointer, Injective, ObjectFor, PcOk, AllocatorOk, Apart, Live, Home, Address;
    IndexFacts(s.numbering);
    var m, blocks, index := s.memory, s.blocks, s.numbering.index;
    assert ThreadOk(c, m, blocks, index, s.threads[t]) && ThreadOk(c, m, blocks, index, s.threads[u]);
    var b, d := Home(m, s.threads[t], i), Home(m, s.threads[u], j);
    assert Owns(m, s.threads[t], b) && Owns(m, s.threads[u], d);
    ObjectOfControl(c, m, blocks, index, b, Address(m, s.threads[t], i), k, i + 1);
    ObjectOfControl(c, m, blocks, index, d, Address(m, s.threads[u], j), l, j + 1);
    InBlocksApart(m, blocks, b, Address(m, s.threads[t], i), c.controls[k], d, Address(m, s.threads[u], j), c.controls[l]);
  }

  lemma InBlocksApart(m: Memory, blocks: map<nat, nat>, b: nat, p: nat, e: Control, d: nat, q: nat, f: Control)
    requires AllocatorOk(blocks) && b != d && ObjectOk(m, blocks, b, p, e) && ObjectOk(m, blocks, d, q, f)
    ensures p != q && Apart(p, e.size, q, f.size)
  {
    assert Apart(b, blocks[b], d, blocks[d]);
  }

  /** Addresses handed out for different threads or controls never coincide or
      overlap, as long as the first thread is not at its end. */
  lemma AddressesApart(c: Config, states: seq<State>, actions: seq<Action>, i: nat, j: nat, t: nat, u: nat, k: nat,
                       l: nat, p: nat, q: nat)
    requires Run(c, states, actions) && i < j < |actions| && (t != u || k != l)
    requires Returns(states[i], actions[i], t, k, p) && Returns(states[j], actions[j], u, l, q)
    requires forall n :: i < n <= j && t < |states[n].threads| ==> !Ending(states[n].threads[t])
    ensures k < |c.controls| && l < |c.controls| && p != q && Apart(p, c.controls[k].size, q, c.controls[l].size)
  {
    hide Inv, Init, Step, Slot, Size, Apart;
    ReachableInv(c, states, actions);
    var index := ReturnHolds(c, states[i], actions[i], states[i + 1], t, k, p);
    var other := ReturnHolds(c, states[j], actions[j], states[j + 1], u, l, q);
    SlotStays(c, states, actions, i, j, t, k, index, p);
    HeldIsLive(states[j], t, index - 1, p);
    HeldIsLive(states[j], u, other - 1, q);
    DifferentSlots(c, states[j], k, l, index, other);
    ObjectsApart(c, states[j], t, u, index - 1, other - 1, k, l);
  }

  lemma HeldIsLive(s: State, t: nat, i: nat, p: nat)
    requires SlotHolds(s, t, i, p) && !Ending(s.threads[t])
    ensures Live(s.memory, s.threads[t], i) && Address(s.memory, s.threads[t], i) == p
  {}

  lemma DifferentSlots(c: Config, s: State, k: nat, l: nat, i: nat, j: nat)
    requires Inv(c, s) && Known(c, s.numbering.index, k, i) && Known(c, s.numbering.index, l, j)
    ensures i == j ==> k == l
  {
    hide N.Inv, AllOk, Separate, AllocatorOk;
    IndexFacts(s.numbering);
  }

  // ---- every block is freed once ----

  /** The blocks a step gives to free or realloc. */
  function Released(s: State, a: Action): seq<nat> {
    if (a.Work? || a.Obtain?) && a.thread < |s.threads| then Freed(s.memory, s.threads[a.thread]) else []
  }

  /** A step makes b a live block: malloc or realloc returns it to emutls or to the
      rest of the program. */
  predicate Gives(s: State, a: Action, s': State, b: nat) {
    (a.Obtain? && a.q == b) || (a.Client? && b !in s.blocks && b in s'.blocks)
  }

  /** Only live blocks are freed, and only by the thread they belong to. */
  lemma ReleasedIsLive(c: Config, s: State, a: Action, s': State, b: nat)
    requires Inv(c, s) && Step(c, s, a, s') && b in Released(s, a)
    ensures b in s.blocks && (b in s'.blocks ==> Gives(s, a, s', b))
    ensures (a.Work? || a.Obtain?) && a.thread < |s.threads| && Owns(s.memory, s.threads[a.thread], b)
    ensures forall u :: 0 <= u < |s.threads| && u != a.thread ==> !Owns(s.memory, s.threads[u], b)
  {
    hide N.Inv, AllocatorOk, Slot, Size, Skip, BackPointer, Shape, PcOk, Works, Elsewhere, Load, Available;
    var t := a.thread;
    var th, m, blocks, index := s.threads[t], s.memory, s.blocks, s.numbering.index;
    assert ThreadOk(c, m, blocks, index, th);
    FreedPlace(m, th, b);
    if a.Work? {
      WorkingPc(c, m, blocks, th, s'.memory, s'.blocks, s'.threads[t]);
      ShutdownStep(c, m, blocks, index, th, s'.memory, s'.blocks, s'.threads[t]);
    } else {
      OwnedLive(c, m, blocks, index, th);
      KeyIsTable(c, m, blocks, index, th);
    }
  }

  lemma FreedPlace(m: Memory, th: Thread, b: nat)
    requires b in Freed(m, th)
    ensures Ending(th) || (th.pc.Growing? && b == th.key)
  {}

  lemma KeyIsTable(c: Config, m: Memory, blocks: map<nat, nat>, index: seq<nat>, th: Thread)
    requires c.Valid() && ThreadOk(c, m, blocks, index, th) && th.pc.Growing?
    ensures Owns(m, th, th.key)
  {
    hide Shape, Size;
  }

  lemma NotGiven(c: Config, s: State, a: Action, s': State, b: nat)
    requires c.Valid() && Step(c, s, a, s') && b !in s.blocks && !Gives(s, a, s', b)
    ensures b !in s'.blocks
  {
    hide N.Step, Slot, Size, Skip, BackPointer, Elsewhere, Load, Available, AllocatorOk;
  }

  /** Between two frees of one block malloc or realloc has returned it again. */
  lemma {:induction false} FreedOnce(c: Config, states: seq<State>, actions: seq<Action>, i: nat, j: nat, b: nat)
    requires Run(c, states, actions) && i < j < |actions|
    requires b in Released(states[i], actions[i]) && b in Released(states[j], actions[j])
    ensures exists n :: i <= n < j && Gives(states[n], actions[n], states[n + 1], b)
  {
    hide Inv, Init, Step, Gives, Released, Owns;
    ReachableInv(c, states, actions);
    ReleasedIsLive(c, states[i], actions[i], states[i + 1], b);
    ReleasedIsLive(c, states[j], actions[j], states[j + 1], b);
    var n := i;
    while n < j && !Gives(states[n], actions[n], states[n + 1], b)
      invariant i <= n <= j && (n == i || b !in states[n].blocks)
    {
      if n > i {
        NotGiven(c, states[n], actions[n], states[n + 1], b);
      }
      n := n + 1;
    }
  }

  /** What thread t frees in the steps from lo up to hi. */
  function FreedBy(states: seq<State>, actions: seq<Action>, t: nat, lo: nat, hi: nat): seq<nat>
    requires hi <= |actions| <= |states|
    decreases hi - lo
  {
    if lo >= hi then []
    else (if OwnStep(actions[lo], t) then Released(states[lo], actions[lo]) else []) + FreedBy(states, actions, t, lo + 1, hi)
  }

  lemma EndingStep(c: Config, s: State, a: Action, s': State, t: nat)
    requires Inv(c, s) && Step(c, s, a, s') && t < |s.threads| && Ending(s.threads[t])
    ensures t < |s'.threads|
    ensures Remaining(s.memory, s.threads[t])
         == (if OwnStep(a, t) then Released(s, a) else []) + Remaining(s'.memory, s'.threads[t])
  {
    hide N.Inv, N.Step, AllocatorOk, Slot, Size, Skip, BackPointer, Shape, PcOk, Works, Remaining, VisibleSame, PendingSame, BlocksKept, Freed;
    var th, index := s.threads[t], s.numbering.index;
    assert ThreadOk(c, s.memory, s.blocks, index, th);
    if OwnStep(a, t) {
      ShutdownStep(c, s.memory, s.blocks, index, th, s'.memory, s'.blocks, s'.threads[t]);
    } else {
      StepRespects(c, s, a, s', t);
      assert s'.threads[t] == th;
      RemainingKept(c, s.memory, s'.memory, s.blocks, index, th);
    }
  }

  lemma LastFree(c: Config, s: State, a: Action, s': State, t: nat)
    requires Inv(c, s) && Step(c, s, a, s') && TableFreed(s, a, t)
    ensures t < |s'.threads| && Remaining(s'.memory, s'.threads[t]) == []
  {
    hide N.Inv, AllocatorOk, Slot, Size, Skip, BackPointer, Shape, Frees;
    assert ThreadOk(c, s.memory, s.blocks, s.numbering.index, s.threads[t]);
  }

  /** A completed destructor frees exactly what the thread owns, each block once: those
      of its live objects, in slot order, and then the table. */
  lemma {:induction false} DestructorFreesAll(c: Config, states: seq<State>, actions: seq<Action>, i: nat, j: nat,
                                              t: nat)
    requires Run(c, states, actions) && i <= j < |actions| && TableFreed(states[j], actions[j], t)
    requires forall n :: i <= n <= j ==> t < |states[n].threads| && Ending(states[n].threads[t])
    ensures FreedBy(states, actions, t, i, j + 1) == Remaining(states[i].memory, states[i].threads[t])
    ensures Distinct(FreedBy(states, actions, t, i, j + 1))
    ensures forall b :: b in FreedBy(states, actions, t, i, j + 1) <==> Owns(states[i].memory, states[i].threads[t], b)
    decreases j - i
  {
    hide Inv, Init, Step, Remaining, Released, Ending, Owns;
    ReachableInv(c, states, actions);
    EndingStep(c, states[i], actions[i], states[i + 1], t);
    if i == j {
      LastFree(c, states[j], actions[j], states[j + 1], t);
    } else {
      DestructorFreesAll(c, states, actions, i + 1, j, t);
    }
    RemainingIsDistinct(c, states[i], t);
  }

  lemma RemainingIsDistinct(c: Config, s: State, t: nat)
    requires Inv(c, s) && t < |s.threads| && Ending(s.threads[t])
    ensures Distinct(Remaining(s.memory, s.threads[t]))
    ensures forall b :: b in Remaining(s.memory, s.threads[t]) <==> Owns(s.memory, s.threads[t], b)
  {
    hide N.Inv, AllocatorOk, Shape, Remaining, Slot, Size, Skip, Owns;
    assert ThreadOk(c, s.memory, s.blocks, s.numbering.index, s.threads[t]);
    RemainingIsOwned(s.memory, s.threads[t]);
    RemainingDistinct(c, s.memory, s.blocks, s.numbering.index, s.threads[t]);
  }

  // ---- nothing leaks ----

  /** A block that a thread owns it keeps until it gives it up itself. */
  lemma StepRetains(c: Config, s: State, a: Action, s': State, t: nat, b: nat)
    requires Inv(c, s) && Step(c, s, a, s') && t < |s.threads| && Owns(s.memory, s.threads[t], b)
    requires !(OwnStep(a, t) && b in Released(s, a))
    ensures t < |s'.threads| && Owns(s'.memory, s'.threads[t], b)
  {
    hide AllocatorOk, N.Inv, N.Step, Owns, ThreadOk, Works, Obtains, Respects, OnlyTouches, Inherits, Freed;
    if OwnStep(a, t) {
      StorageStepsKeepInv(c, s, a, s');
    } else {
      StepRespects(c, s, a, s', t);
      SameOwned(c, s.memory, s'.memory, s.blocks, s'.blocks, s.numbering.index, s.threads[t]);
      PlaceRetains(c, s, a, s', t, b);
    }
  }

  lemma PlaceRetains(c: Config, s: State, a: Action, s': State, t: nat, b: nat)
    requires Inv(c, s) && Step(c, s, a, s') && t < |s.threads| == |s'.threads| && !OwnStep(a, t)
    requires Owns(s'.memory, s.threads[t], b)
    ensures Owns(s'.memory, s'.threads[t], b)
  {
    hide AllocatorOk, N.Inv, N.Step, AllOk, Separate, Works, Obtains, Respects, Slot, Size, Skip, BackPointer;
    if s'.threads[t] != s.threads[t] {
      StillOwned(s'.memory, s'.threads[t], s.threads[t]);
    }
  }

  /** When its table is freed a thread owns nothing else. */
  lemma OnlyTableLeft(c: Config, s: State, a: Action, s': State, t: nat, b: nat)
    requires Inv(c, s) && Step(c, s, a, s') && TableFreed(s, a, t) && Owns(s.memory, s.threads[t], b)
    ensures OwnStep(a, t) && b in Released(s, a)
  {
    hide AllocatorOk, N.Inv, Separate, Slot, Size, Skip, BackPointer, Shape, Works;
    assert ThreadOk(c, s.memory, s.blocks, s.numbering.index, s.threads[t]);
  }

  /** Nothing leaks, and nothing is freed too often: every block that malloc or realloc
      gives a thread is given up by that thread, and by nobody before it, at the latest
      when its table is freed; and by nobody again until the allocator has given the
      block out anew. */
  lemma {:induction false} EveryBlockFreed(c: Config, states: seq<State>, actions: seq<Action>, i: nat, j: nat, t: nat, q: nat)
    returns (n: nat)
    requires Run(c, states, actions) && i < j < |actions|
    requires actions[i] == Obtain(t, q) && TableFreed(states[j], actions[j], t)
    ensures i < n <= j && OwnStep(actions[n], t) && q in Released(states[n], actions[n])
    ensures forall k :: i < k < n ==> q !in Released(states[k], actions[k])
    ensures forall k :: n < k <= j && q in Released(states[k], actions[k]) ==>
      exists g :: n <= g < k && Gives(states[g], actions[g], states[g + 1], q)
  {
    hide Inv, Init, Step, Gives, Released, Owns;
    ReachableInv(c, states, actions);
    NowOwned(c, states[i], actions[i], states[i + 1], t, q);
    n := i + 1;
    while n < j && q !in Released(states[n], actions[n])
      invariant i < n <= j && t < |states[n].threads| && Owns(states[n].memory, states[n].threads[t], q)
      invariant forall k :: i < k < n ==> q !in Released(states[k], actions[k])
    {
      StepRetains(c, states[n], actions[n], states[n + 1], t, q);
      n := n + 1;
    }
    if n == j {
      OnlyTableLeft(c, states[j], actions[j], states[j + 1], t, q);
    } else {
      ReleasedIsLive(c, states[n], actions[n], states[n + 1], q);
    }
    forall k | n < k <= j && q in Released(states[k], actions[k])
      ensures exists g :: n <= g < k && Gives(states[g], actions[g], states[g + 1], q)
    {
      FreedOnce(c, states, actions, n, k, q);
    }
  }

  lemma NowOwned(c: Config, s: State, a: Action, s': State, t: nat, q: nat)
    requires Inv(c, s) && Step(c, s, a, s') && a == Obtain(t, q)
    ensures t < |s'.threads| && Owns(s'.memory, s'.threads[t], q)
  {
    hide AllocatorOk, N.Inv, Owns, ThreadOk, Obtains;
    ObtainedIsOwned(c, s.memory, s.blocks, s.threads[t], q, s'.memory, s'.blocks, s'.threads[t]);
  }

  // ---- first returns ----

  /** The call that made the object in slot i returns its address. */
  predicate FirstReturn(s: State, a: Action, t: nat, i: nat, p: nat) {
    a == Return(t, p) && t < |s.threads| && s.threads[t].pc.Returning? && s.threads[t].pc.made && s.threads[t].pc.index == i + 1
  }

  lemma OwnStepInherits(c: Config, s: State, a: Action, s': State, t: nat, i: nat)
    requires Inv(c, s) && Step(c, s, a, s') && OwnStep(a, t)
    requires t < |s.threads| == |s'.threads| && Live(s'.memory, s'.threads[t], i) && !Fresh(s'.threads[t], i)
    ensures Live(s.memory, s.threads[t], i) && Address(s'.memory, s'.threads[t], i) == Address(s.memory, s.threads[t], i)
    ensures !Fresh(s.threads[t], i)
  {
    hide Inv, Step, Live, Address, Fresh;
    StorageStepsKeepInv(c, s, a, s');
    OwnStepStaysFresh(c, s, a, s', t, i);
  }

  lemma OwnStepStaysFresh(c: Config, s: State, a: Action, s': State, t: nat, i: nat)
    requires Inv(c, s) && Step(c, s, a, s') && OwnStep(a, t) && t < |s.threads| == |s'.threads|
    ensures Fresh(s.threads[t], i) ==> Fresh(s'.threads[t], i)
  {
    hide Slot, Size, Skip, Elsewhere, Load, Available, N.Inv, AllOk, Separate, AllocatorOk;
  }

  lemma OtherStepInherits(c: Config, s: State, a: Action, s': State, t: nat, i: nat)
    requires Inv(c, s) && Step(c, s, a, s') && !OwnStep(a, t)
    requires t < |s.threads| == |s'.threads| && Live(s'.memory, s'.threads[t], i) && !Fresh(s'.threads[t], i)
    ensures Live(s.memory, s.threads[t], i) && Address(s'.memory, s'.threads[t], i) == Address(s.memory, s.threads[t], i)
    ensures Fresh(s.threads[t], i) ==> FirstReturn(s, a, t, i, Address(s.memory, s.threads[t], i))
  {
    hide N.Inv, N.Step, AllocatorOk, Slot, Size, Skip, BackPointer, Shape, Works, Obtains, Owns, VisibleSame, PendingSame, BlocksKept;
    StepRespects(c, s, a, s', t);
    assert ThreadOk(c, s.memory, s.blocks, s.numbering.index, s.threads[t]);
    ViewKept(c, s.memory, s'.memory, s.blocks, s.numbering.index, s.threads[t]);
  }

  lemma NothingLiveFirst(c: Config, states: seq<State>, actions: seq<Action>, n: nat, t: nat, i: nat)
    requires Run(c, states, actions) && n < |states| && t < |states[n].threads| && Live(states[n].memory, states[n].threads[t], i)
    ensures n > 0
  {
    hide Step;
  }

  /** Every object in a table, except one that a call has just made, has been returned
      to its thread by the call that made it. */
  lemma {:induction false} LiveWasReturned(c: Config, states: seq<State>, actions: seq<Action>, n: nat, t: nat,
                                           i: nat) returns (e: nat)
    requires Run(c, states, actions) && n < |states| && t < |states[n].threads|
    requires Live(states[n].memory, states[n].threads[t], i) && !Fresh(states[n].threads[t], i)
    ensures e < n && FirstReturn(states[e], actions[e], t, i, Address(states[n].memory, states[n].threads[t], i))
    decreases n
  {
    hide Inv, Init, Step, Live, Address, Fresh, FirstReturn;
    ReachableInv(c, states, actions);
    NothingLiveFirst(c, states, actions, n, t, i);
    e := n - 1;
    if OwnStep(actions[e], t) {
      OwnStepInherits(c, states[e], actions[e], states[n], t, i);
      e := LiveWasReturned(c, states, actions, e, t, i);
    } else {
      OtherStepInherits(c, states[e], actions[e], states[n], t, i);
      if !Fresh(states[e].threads[t], i) {
        e := LiveWasReturned(c, states, actions, e, t, i);
      }
    }
  }

  /** An aligned object with the control's initial bytes. */
  ghost predicate Initialised(c: Config, s: State, k: nat, p: nat)
    requires c.Valid()
  {
    k < |c.controls| && Aligned(p, c.controls[k].align)
    && Load(s.memory, p, c.controls[k].size) == InitialBytes(c.controls[k])
  }

  lemma FirstReturnIsInitialised(c: Config, s: State, a: Action, s': State, t: nat, i: nat, p: nat) returns (k: nat)
    requires Inv(c, s) && Step(c, s, a, s') && FirstReturn(s, a, t, i, p)
    ensures Returns(s, a, t, k, p) && Known(c, s.numbering.index, k, i + 1) && Initialised(c, s, k, p)
  {
    hide N.Inv, AllocatorOk, Slot, Size, Skip, BackPointer, Injective, ObjectFor, InitialBytes, Load;
    IndexFacts(s.numbering);
    k := s.threads[t].pc.control;
    var th, index := s.threads[t], s.numbering.index;
    assert ThreadOk(c, s.memory, s.blocks, index, th);
    assert Live(s.memory, th, i);
    ObjectOfControl(c, s.memory, s.blocks, index, Home(s.memory, th, i), p, k, i + 1);
    ControlIsOk(c, k);
    WholeInitial(s.memory, c.controls[k], p);
  }

  lemma WholeInitial(m: Memory, control: Control, p: nat)
    requires ControlOk(control) && Initial(m, control, p, control.size)
    ensures Load(m, p, control.size) == InitialBytes(control)
  {
    hide InitialBytes, Load;
    assert InitialBytes(control)[..control.size] == InitialBytes(control);
  }

  lemma {:induction false} KnownStays(c: Config, states: seq<State>, actions: seq<Action>, i: nat, j: nat, k: nat,
                                      index: nat)
    requires Run(c, states, actions) && i <= j < |states| && Known(c, states[i].numbering.index, k, index)
    ensures Known(c, states[j].numbering.index, k, index)
  {
    hide Inv, Init, Step, Known;
    ReachableInv(c, states, actions);
    var n := i;
    while n < j
      invariant i <= n <= j && Known(c, states[n].numbering.index, k, index)
    {
      StepKeepsKnown(c, states[n], actions[n], states[n + 1], k, index);
      n := n + 1;
    }
  }

  lemma SameControl(c: Config, s: State, k: nat, l: nat, i: nat)
    requires Inv(c, s) && Known(c, s.numbering.index, k, i) && Known(c, s.numbering.index, l, i)
    ensures k == l
  {
    hide Inv;
    DifferentSlots(c, s, k, l, i, i);
  }

  /** A variable starts with its initial value: whatever address a call returns, the
      first call of the thread that returned it, for the same control, returned it as
      an aligned object with the control's initial bytes. */
  lemma StartsInitialised(c: Config, states: seq<State>, actions: seq<Action>, i: nat, t: nat, k: nat,
                          p: nat) returns (e: nat)
    requires Run(c, states, actions) && i < |actions| && Returns(states[i], actions[i], t, k, p)
    ensures e <= i && Returns(states[e], actions[e], t, k, p) && states[e].threads[t].pc.made
    ensures k < |c.controls| && |states[e].threads| == |states[i].threads|
    ensures p % 8 == 0 && (c.controls[k].align >= 8 ==> p % c.controls[k].align == 0)
    ensures var d, m := c.controls[k], states[e].memory;
      && (d.template.Some? ==>
          |d.template.value| == d.size && forall x: nat :: p <= x < p + d.size ==> m.at(x) == d.template.value[x - p])
      && (d.template.None? ==> forall x: nat :: p <= x < p + d.size ==> m.at(x) == 0)
  {
    hide Inv, Init, Step, Slot, Size, Initialised, Known;
    ReachableInv(c, states, actions);
    var index := ReturnHolds(c, states[i], actions[i], states[i + 1], t, k, p);
    e := i;
    if !states[i].threads[t].pc.made {
      HeldIsLive(states[i], t, index - 1, p);
      e := LiveWasReturned(c, states, actions, i, t, index - 1);
    }
    var l := FirstReturnIsInitialised(c, states[e], actions[e], states[e + 1], t, index - 1, p);
    KnownStays(c, states, actions, e, i, l, index);
    SameControl(c, states[i], k, l, index);
    InitialisedMeans(c, states[e], k, p);
  }

  lemma InitialisedMeans(c: Config, s: State, k: nat, p: nat)
    requires c.Valid() && Initialised(c, s, k, p)
    ensures k < |c.controls|
    ensures p % 8 == 0 && (c.controls[k].align >= 8 ==> p % c.controls[k].align == 0)
    ensures var d, m := c.controls[k], s.memory;
      && (d.template.Some? ==>
          |d.template.value| == d.size && forall x: nat :: p <= x < p + d.size ==> m.at(x) == d.template.value[x - p])
      && (d.template.None? ==> forall x: nat :: p <= x < p + d.size ==> m.at(x) == 0)
  {
    hide InitialBytes, Load;
    InitialMeans(s.memory, p, c.controls[k]);
  }

  // ---- asking for an object ----

  /** A thread that needs an object aborts without asking malloc exactly when the
      alignment is at least a pointer's and no power of two. Otherwise it asks for the
      object, a back pointer and the slack of the alignment, and aborts only if that is
      refused; malloc may answer with any range that meets no live block. */
  lemma ObjectRequest(c: Config, states: seq<State>, actions: seq<Action>, n: nat, t: nat)
    requires Run(c, states, actions) && n < |actions| && t < |states[n].threads| && states[n].threads[t].pc.Allocating?
    ensures states[n].threads[t].pc.control < |c.controls|
    ensures var d := c.controls[states[n].threads[t].pc.control];
      var misaligned := d.align >= 8 && !PowerOfTwo(d.align);
      && (actions[n] == Abort(t, false) ==> misaligned)
      && (actions[n] == Abort(t, true) ==> !misaligned)
      && (Step(c, states[n], Abort(t, false), states[n].(aborted := true)) <==> misaligned)
      && forall q: nat :: actions[n] == Obtain(t, q) ==>
        && !misaligned
        && var bytes := (if d.align < 8 then 8 else d.align) + 7 + d.size;
           && states[n + 1].blocks == states[n].blocks[q := bytes]
           && forall b :: b in states[n].blocks ==> q + bytes <= b || b + states[n].blocks[b] <= q
    ensures var s, th := states[n], states[n].threads[t];
      var d := c.controls[th.pc.control];
      var bytes := (if d.align < 8 then 8 else d.align) + 7 + d.size;
      forall q: nat :: 0 < q && q + bytes < 0x1_0000_0000_0000_0000 && !(d.align >= 8 && !PowerOfTwo(d.align))
                       && (forall b :: b in s.blocks ==> q + bytes <= b || b + s.blocks[b] <= q) ==>
        var th' := th.(pc := Linking(th.pc.control, th.pc.index, q));
        Step(c, s, Obtain(t, q), s.(blocks := s.blocks[q := bytes], threads := s.threads[t := th']))
  {
    hide Init, Inv, AllocatorOk, N.Step, Works, PowerOfTwo, Elsewhere, Alignment;
    ReachableInv(c, states, actions);
    AllocatingControl(c, states[n], t);
    var k := states[n].threads[t].pc.control;
    AlignmentTest(c.controls[k].align);
    assert Step(c, states[n], actions[n], states[n + 1]);
    var s, th, d := states[n], states[n].threads[t], c.controls[k];
    var bytes := (if d.align < 8 then 8 else d.align) + 7 + d.size;
    forall q: nat | 0 < q && q + bytes < 0x1_0000_0000_0000_0000 && !(d.align >= 8 && !PowerOfTwo(d.align))
                    && (forall b :: b in s.blocks ==> q + bytes <= b || b + s.blocks[b] <= q)
      ensures Step(c, s, Obtain(t, q), s.(blocks := s.blocks[q := bytes], threads := s.threads[t := th.(pc := Linking(k, th.pc.index, q))]))
    {
      RequestAnswered(c, s, t, q, bytes);
    }
  }

  lemma NotAborted(c: Config, states: seq<State>, actions: seq<Action>, n: nat)
    requires Run(c, states, actions)
    ensures n < |actions| ==> !states[n].aborted
  {
    hide Init, N.Step, Works, Obtains, Aborts;
    if n < |actions| {
      assert Step(c, states[n], actions[n], states[n + 1]);
    }
  }

  /** Nothing else aborts: a process aborts only in a call of __emutls_get_address, when
      malloc or realloc refuses what the thread is asking for, or on a bad alignment. */
  lemma AbortsOnly(c: Config, states: seq<State>, actions: seq<Action>, n: nat, t: nat, refused: bool)
    requires Run(c, states, actions) && n < |actions| && actions[n] == Abort(t, refused)
    ensures n == |actions| - 1 && t < |states[n].threads|
    ensures var pc := states[n].threads[t].pc;
      || (refused && (pc.NewTable? || pc.Growing?))
      || (pc.Allocating? && pc.control < |c.controls|
          && refused == !(c.controls[pc.control].align >= 8 && !PowerOfTwo(c.controls[pc.control].align)))
  {
    hide Init, N.Step, Works, Obtains, PowerOfTwo, Alignment;
    NotAborted(c, states, actions, n + 1);
    assert Step(c, states[n], actions[n], states[n + 1]);
    var pc := states[n].threads[t].pc;
    if pc.Allocating? && pc.control < |c.controls| {
      AlignmentTest(c.controls[pc.control].align);
    }
  }

  lemma RequestAnswered(c: Config, s: State, t: nat, q: nat, bytes: nat)
    requires c.Valid() && !s.aborted && t < |s.threads| && s.threads[t].pc.Allocating? && s.threads[t].pc.control < |c.controls|
    requires 0 < q && q + bytes < 0x1_0000_0000_0000_0000 && forall b :: b in s.blocks ==> q + bytes <= b || b + s.blocks[b] <= q
    requires PowerOfTwo(Alignment(c.controls[s.threads[t].pc.control].align)) && bytes == BlockSize(c.controls[s.threads[t].pc.control])
    ensures var th' := s.threads[t].(pc := Linking(s.threads[t].pc.control, s.threads[t].pc.index, q));
      Step(c, s, Obtain(t, q), s.(blocks := s.blocks[q := bytes], threads := s.threads[t := th']))
  {
    hide PowerOfTwo, BlockSize;
  }

  lemma AllocatingControl(c: Config, s: State, t: nat)
    requires Inv(c, s) && t < |s.threads| && s.threads[t].pc.Allocating?
    ensures s.threads[t].pc.control < |c.controls|
  {
    hide AllocatorOk, N.Inv, Owns, Shape, Slot, Size, Skip;
    assert ThreadOk(c, s.memory, s.blocks, s.numbering.index, s.threads[t]);
  }

  // ---- the table as it lies in memory ----

  /** A thread's first table: the rounds to skip, the number of slots, one slot for each
      index up to it, all of them null, and the slots fill up sixteen words with the
      header. */
  lemma TableLaidOut(c: Config, states: seq<State>, actions: seq<Action>, n: nat, t: nat) returns (base: nat, slots: nat)
    requires Run(c, states, actions) && n < |actions| && TableMade(states[n], actions[n], t)
    ensures t < |states[n + 1].threads| && states[n + 1].threads[t].key == base != 0
    ensures base in states[n + 1].blocks && states[n + 1].blocks[base] == 16 + 8 * slots
    ensures states[n].threads[t].pc.index <= slots
    ensures var m := states[n + 1].memory;
      && LoadPointer(m, base) == c.rounds && LoadPointer(m, base + 8) == slots
      && forall i: nat :: i < slots ==> LoadPointer(m, base + 16 + 8 * i) == 0
  {
    hide Init, Inv, Step, Slot, Size, Skip, LoadPointer;
    ReachableInv(c, states, actions);
    base, slots := states[n].threads[t].pc.q, states[n].threads[t].pc.size;
    PublishedTable(c, states[n], actions[n], states[n + 1], t);
    var m := states[n + 1].memory;
    forall i: nat | i < slots ensures LoadPointer(m, base + 16 + 8 * i) == 0 {
      WordsOfTable(m, base, i);
    }
    WordsOfTable(m, base, 0);
  }

  lemma PublishedTable(c: Config, s: State, a: Action, s': State, t: nat)
    requires Inv(c, s) && Step(c, s, a, s') && TableMade(s, a, t)
    ensures var pc := s.threads[t].pc;
      && t < |s'.threads| && s'.threads[t].key == pc.q != 0 && pc.index <= pc.size
      && pc.q in s'.blocks && s'.blocks[pc.q] == 16 + 8 * pc.size
      && Skip(s'.memory, pc.q) == c.rounds && Size(s'.memory, pc.q) == pc.size && Null(s'.memory, pc.q, 0, pc.size)
  {
    hide AllocatorOk, N.Inv, Owns, ObjectsOk, Unshared, LoadPointer;
    assert ThreadOk(c, s.memory, s.blocks, s.numbering.index, s.threads[t]);
  }

  /** Where the words of a table are. */
  lemma WordsOfTable(m: Memory, base: nat, i: nat)
    ensures Skip(m, base) == LoadPointer(m, base) && Size(m, base) == LoadPointer(m, base + 8)
    ensures Slot(m, base, i) == LoadPointer(m, base + 16 + 8 * i)
  {}

  /** What a call returns is the word in the slot of the control's index, and the word
      before the object is the address of a live block that the object lies in. */
  lemma ReturnedFromSlot(c: Config, states: seq<State>, actions: seq<Action>, n: nat, t: nat, k: nat, p: nat)
    requires Run(c, states, actions) && n < |actions| && Returns(states[n], actions[n], t, k, p)
    ensures k < |states[n].numbering.index| && k < |c.controls| && 0 < states[n].numbering.index[k]
    ensures p >= 8
    ensures var s, index := states[n], states[n].numbering.index[k];
      var b := LoadPointer(s.memory, p - 8);
      && index <= LoadPointer(s.memory, s.threads[t].key + 8)
      && LoadPointer(s.memory, s.threads[t].key + 16 + 8 * (index - 1)) == p
      && b in s.blocks && b + 8 <= p && p + c.controls[k].size <= b + s.blocks[b]
  {
    hide Init, Inv, Step, LoadPointer;
    ReachableInv(c, states, actions);
    var index := ReturnHolds(c, states[n], actions[n], states[n + 1], t, k, p);
    HeldIsLive(states[n], t, index - 1, p);
    ReturnedObject(c, states[n], t, k, index, p);
    WordsOfTable(states[n].memory, states[n].threads[t].key, index - 1);
  }

  lemma ReturnedObject(c: Config, s: State, t: nat, k: nat, i: nat, p: nat)
    requires Inv(c, s) && t < |s.threads| && s.threads[t].pc.Returning? && i > 0 && Known(c, s.numbering.index, k, i)
    requires Live(s.memory, s.threads[t], i - 1) && Address(s.memory, s.threads[t], i - 1) == p
    ensures p >= 8 && Base(s.threads[t]) == s.threads[t].key
    ensures ObjectOk(s.memory, s.blocks, LoadPointer(s.memory, p - 8), p, c.controls[k])
  {
    hide N.Inv, AllocatorOk, Slot, Size, Skip, Injective, ObjectFor, PcOk, LoadPointer, Aligned;
    IndexFacts(s.numbering);
    var th := s.threads[t];
    assert ThreadOk(c, s.memory, s.blocks, s.numbering.index, th);
    ObjectOfControl(c, s.memory, s.blocks, s.numbering.index, Home(s.memory, th, i - 1), p, k, i);
  }

  // ---- what the rest of the program may do ----

  /** A block that no thread owns is the program's: it may write anything there. */
  lemma ProgramWrites(c: Config, s: State, b: nat, m: Memory)
    requires Inv(c, s) && !s.aborted && b in s.blocks && Elsewhere(s.memory, m, b, b + s.blocks[b])
    requires forall t :: 0 <= t < |s.threads| ==> !Owns(s.memory, s.threads[t], b)
    ensures Step(c, s, Client, s.(memory := m))
  {
    hide N.Inv, Owns, Shape, PcOk, Respects, Apart;
    ZeroIsNoBlock(s.blocks);
    forall t | 0 <= t < |s.threads| ensures Respects(s.memory, s.blocks, s.threads[t], m, s.blocks) {
      assert ThreadOk(c, s.memory, s.blocks, s.numbering.index, s.threads[t]);
      OthersSame(s.memory, s.blocks, m, b);
      Harmless(c, s.memory, s.blocks, s.numbering.index, s.threads[t], m, s.blocks);
    }
  }

  lemma OthersSame(m: Memory, blocks: map<nat, nat>, m': Memory, b: nat)
    requires AllocatorOk(blocks) && b in blocks && Elsewhere(m, m', b, b + blocks[b])
    ensures forall d :: d in blocks && d != b ==> Same(m, m', d, d + blocks[d])
  {
    forall d | d in blocks && d != b ensures Same(m, m', d, d + blocks[d]) {
      assert Apart(d, blocks[d], b, blocks[b]);
    }
  }

  /** It may ask malloc for any number of bytes and get any range that meets no live
      block, and free a block that is its own. */
  lemma ProgramAllocates(c: Config, s: State, q: nat, n: nat)
    requires Inv(c, s) && !s.aborted && 0 < n && 0 < q && q + n < 0x1_0000_0000_0000_0000
    requires forall b :: b in s.blocks ==> q + n <= b || b + s.blocks[b] <= q
    ensures Step(c, s, Client, s.(blocks := s.blocks[q := n]))
  {
    hide N.Inv, Owns, Shape, PcOk, Respects, AllocatorOk;
    AllocatorAfterMalloc(s.blocks, q, n);
    forall t | 0 <= t < |s.threads| ensures Respects(s.memory, s.blocks, s.threads[t], s.memory, s.blocks[q := n]) {
      assert ThreadOk(c, s.memory, s.blocks, s.numbering.index, s.threads[t]);
      ZeroIsNoBlock(s.blocks);
      Harmless(c, s.memory, s.blocks, s.numbering.index, s.threads[t], s.memory, s.blocks[q := n]);
    }
  }

  lemma ProgramFrees(c: Config, s: State, b: nat)
    requires Inv(c, s) && !s.aborted && b in s.blocks
    requires forall t :: 0 <= t < |s.threads| ==> !Owns(s.memory, s.threads[t], b)
    ensures Step(c, s, Client, s.(blocks := s.blocks - {b}))
  {
    hide N.Inv, Owns, Shape, PcOk, Respects, AllocatorOk;
    AllocatorAfterFree(s.blocks, {b});
    forall t | 0 <= t < |s.threads| ensures Respects(s.memory, s.blocks, s.threads[t], s.memory, s.blocks - {b}) {
      assert ThreadOk(c, s.memory, s.blocks, s.numbering.index, s.threads[t]);
      ZeroIsNoBlock(s.blocks);
      Harmless(c, s.memory, s.blocks, s.numbering.index, s.threads[t], s.memory, s.blocks - {b});
    }
  }

  /** It may write inside an object it has been given. */
  lemma ProgramUsesObject(c: Config, s: State, t: nat, i: nat, k: nat, offset: nat, bytes: seq<byte>)
    requires Inv(c, s) && !s.aborted && t < |s.threads|
    requires Live(s.memory, s.threads[t], i) && !Fresh(s.threads[t], i) && Known(c, s.numbering.index, k, i + 1)
    requires offset + |bytes| <= c.controls[k].size
    ensures Step(c, s, Client, s.(memory := Patch(s.memory, Address(s.memory, s.threads[t], i) + offset, bytes)))
  {
    hide N.Inv, Owns, Shape, PcOk, Respects, Separate, Patch, Live, Address, Fresh, Known, AllocatorOk;
    var p := Address(s.memory, s.threads[t], i);
    var m' := Patch(s.memory, p + offset, bytes);
    forall u | 0 <= u < |s.threads| ensures Respects(s.memory, s.blocks, s.threads[u], m', s.blocks) {
      assert ThreadOk(c, s.memory, s.blocks, s.numbering.index, s.threads[u]);
      assert ThreadOk(c, s.memory, s.blocks, s.numbering.index, s.threads[t]);
      IndexFacts(s.numbering);
      if u == t {
        OwnObjectWritten(c, s.memory, s.blocks, s.numbering.index, s.threads[t], i, k, offset, bytes);
      } else {
        OwnersApart(s.memory, s.threads, u, t);
        ObjectWritten(c, s.memory, s.blocks, s.numbering.index, s.threads[t], i, k, offset, bytes);
        Respected(c, s.memory, s.blocks, s.numbering.index, s.threads[u], m', s.blocks, s.threads[t]);
      }
    }
  }

  lemma OwnersApart(m: Memory, threads: seq<Thread>, t: nat, u: nat)
    requires Separate(m, threads) && t < |threads| && u < |threads| && t != u
    ensures forall b :: Owns(m, threads[t], b) ==> !Owns(m, threads[u], b)
  {
    hide Owns;
  }

  /** Such a write stays in the object's block, behind its head. */
  lemma ObjectWritten(c: Config, m: Memory, blocks: map<nat, nat>, index: seq<nat>, th: Thread, i: nat, k: nat,
                      offset: nat, bytes: seq<byte>)
    requires c.Valid() && ThreadOk(c, m, blocks, index, th) && AllocatorOk(blocks) && Injective(index)
    requires Live(m, th, i) && Known(c, index, k, i + 1) && offset + |bytes| <= c.controls[k].size
    ensures var b, p := Home(m, th, i), Address(m, th, i); var m' := Patch(m, p + offset, bytes);
      && b in blocks && Owns(m, th, b) && b <= p && Elsewhere(m, m', p, b + blocks[b]) && Elsewhere(m, m', b, b + blocks[b])
    ensures OnlyTouches(m, blocks, th, Patch(m, Address(m, th, i) + offset, bytes), blocks)
  {
    hide Slot, Size, Skip, BackPointer, ObjectFor, PcOk, AllocatorOk, Live, Home, Address, TableOk, Unshared, PendingOk, Same, LoadPointer;
    var b, p := Home(m, th, i), Address(m, th, i);
    ObjectOfControl(c, m, blocks, index, b, p, k, i + 1);
    OthersSame(m, blocks, Patch(m, p + offset, bytes), b);
  }

  lemma OwnObjectWritten(c: Config, m: Memory, blocks: map<nat, nat>, index: seq<nat>, th: Thread, i: nat, k: nat,
                         offset: nat, bytes: seq<byte>)
    requires c.Valid() && ThreadOk(c, m, blocks, index, th) && AllocatorOk(blocks) && Injective(index)
    requires Live(m, th, i) && !Fresh(th, i) && Known(c, index, k, i + 1) && offset + |bytes| <= c.controls[k].size
    ensures Respects(m, blocks, th, Patch(m, Address(m, th, i) + offset, bytes), blocks)
  {
    hide Slot, Size, Skip, BackPointer, ObjectFor, PcOk, AllocatorOk, Live, Home, Address, Patch, Owns, Same, Elsewhere, LoadPointer, Fresh;
    var b, p := Home(m, th, i), Address(m, th, i);
    var m' := Patch(m, p + offset, bytes);
    ObjectWritten(c, m, blocks, index, th, i, k, offset, bytes);
    OthersSame(m, blocks, m', b);
    forall j: nat | Live(m, th, j) ensures Same(m, m', Home(m, th, j), HeadEnd(m, blocks, th, j)) {
      ObjectForInBlocks(c, m, blocks, index, Home(m, th, j), Address(m, th, j), j);
      if j == i {
        HeadBelow(m, m', b, p, b + blocks[b]);
      } else {
        SamePart(m, m', Home(m, th, j), Home(m, th, j) + blocks[Home(m, th, j)], Home(m, th, j), HeadEnd(m, blocks, th, j));
      }
    }
    PendingNotZero(blocks, th);
  }

  lemma HeadBelow(m: Memory, m': Memory, b: nat, p: nat, end: nat)
    requires Elsewhere(m, m', p, end)
    ensures Same(m, m', b, p)
  {}

  lemma PendingNotZero(blocks: map<nat, nat>, th: Thread)
    requires AllocatorOk(blocks)
    ensures Pending(th) in blocks ==> Pending(th) != 0
    ensures Base(th) in blocks ==> Base(th) != 0
  {
    hide Pending, Base;
    ZeroIsNoBlock(blocks);
  }

  // ---- no store goes astray ----

  /** Whatever step a thread makes in emutls.c, every live block that is not its own
      stays allocated and keeps its bytes. */
  lemma StoresStayInside(c: Config, states: seq<State>, actions: seq<Action>, n: nat, b: nat)
    requires Run(c, states, actions) && n < |actions| && !actions[n].Client? && b in states[n].blocks
    requires actions[n].thread < |states[n].threads|
    requires !Owns(states[n].memory, states[n].threads[actions[n].thread], b)
    ensures b in states[n + 1].blocks && states[n + 1].blocks[b] == states[n].blocks[b]
    ensures Load(states[n + 1].memory, b, states[n].blocks[b]) == Load(states[n].memory, b, states[n].blocks[b])
  {
    hide Inv, Init, Owns, Works, Obtains, N.Step, Respects;
    ReachableInv(c, states, actions);
    var s, a, s' := states[n], actions[n], states[n + 1];
    assert Step(c, s, a, s');
    if a.Work? || a.Obtain? {
      StorageStepsKeepInv(c, s, a, s');
      LoadSame(s.memory, s'.memory, b, b + s.blocks[b], b, s.blocks[b]);
    }
  }

  // ---- rounds ----

  /** How often thread t exits in the steps from lo up to hi. */
  function Exits(actions: seq<Action>, t: nat, lo: nat, hi: nat): nat
    requires hi <= |actions|
    decreases hi - lo
  {
    if lo >= hi then 0 else Ended(actions[lo], t) + Exits(actions, t, lo + 1, hi)
  }

  lemma {:induction false} ExitsCount(c: Config, states: seq<State>, actions: seq<Action>, i: nat, j: nat, t: nat)
    requires Run(c, states, actions) && i <= j < |states| && t < |states[i].threads| && Base(states[i].threads[t]) != 0
    requires forall n :: i <= n < j ==> !TableFreed(states[n], actions[n], t)
    ensures t < |states[j].threads|
    ensures ExitsLeft(states[i].memory, states[i].threads[t])
         == Exits(actions, t, i, j) + ExitsLeft(states[j].memory, states[j].threads[t])
    decreases j - i
  {
    hide Inv, Init, Step, TableFreed, SlotHolds, ExitsLeft, Base;
    ReachableInv(c, states, actions);
    if i < j {
      StepKeepsTable(c, states[i], actions[i], states[i + 1], t);
      ExitsCount(c, states, actions, i + 1, j, t);
    }
  }

  /** The key takes a thread's first table. */
  predicate TableMade(s: State, a: Action, t: nat) {
    a == Work(t) && t < |s.threads| && s.threads[t].pc.Publishing? && s.threads[t].pc.first
  }

  lemma MadeWithRounds(c: Config, s: State, a: Action, s': State, t: nat)
    requires Inv(c, s) && Step(c, s, a, s') && TableMade(s, a, t)
    ensures t < |s'.threads| && Base(s'.threads[t]) != 0 && ExitsLeft(s'.memory, s'.threads[t]) == c.rounds + 1
  {
    hide AllocatorOk, N.Inv, Owns, Shape, PcOk, Works, Slot, Size, Skip;
    assert ThreadOk(c, s.memory, s.blocks, s.numbering.index, s.threads[t]);
    PublishKeepsTable(c, s.memory, s.blocks, s.numbering.index, s.threads[t], s'.memory, s'.blocks, s'.threads[t]);
  }

  /** A table is freed in the round after the configured number of skipped ones:
      between its making and its free its thread exits exactly once more often. */
  lemma RoundsSkipped(c: Config, states: seq<State>, actions: seq<Action>, i: nat, j: nat, t: nat)
    requires Run(c, states, actions) && i < j < |actions|
    requires TableMade(states[i], actions[i], t) && TableFreed(states[j], actions[j], t)
    requires forall n :: i < n < j ==> !TableFreed(states[n], actions[n], t)
    ensures Exits(actions, t, i + 1, j) == c.rounds + 1
  {
    hide Inv, Init, Step, Base;
    ReachableInv(c, states, actions);
    MadeWithRounds(c, states[i], actions[i], states[i + 1], t);
    ExitsCount(c, states, actions, i + 1, j, t);
  }
}
