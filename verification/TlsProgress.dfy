/** What runs of emutls.c can always be continued to: every call returns or aborts,
    every destructor comes to its end, and an access that nobody disturbs does what
    its specification says. */
module TlsProgress {
  import opened EmuMemory
  import opened TlsAccess
  import opened TlsCourse
  import opened TlsMachine
  import opened TlsThread
  import N = TlsIndex

  ghost predicate Continues(c: Config, states: seq<State>, actions: seq<Action>, more: seq<State>, moreActions: seq<Action>) {
    Run(c, more, moreActions) && states <= more && actions <= moreActions
  }

  function Last<T>(s: seq<T>): T
    requires s != []
  {
    s[|s| - 1]
  }

  /** From step n on only thread t moves. */
  ghost predicate Alone(actions: seq<Action>, n: nat, t: nat) {
    forall i :: n <= i < |actions| ==> !actions[i].Client? && actions[i].thread == t
  }

  lemma OneStepMore(c: Config, states: seq<State>, actions: seq<Action>, a: Action, s': State)
    requires Run(c, states, actions) && Step(c, Last(states), a, s')
    ensures Continues(c, states, actions, states + [s'], actions + [a])
  {
    hide Init, Step;
    var all, steps := states + [s'], actions + [a];
    forall i | 0 <= i < |steps| ensures Step(c, all[i], steps[i], all[i + 1]) {
      if i < |actions| {
        assert all[i] == states[i] && all[i + 1] == states[i + 1] && steps[i] == actions[i];
      }
    }
  }

  lemma LastInv(c: Config, states: seq<State>, actions: seq<Action>)
    requires Run(c, states, actions)
    ensures states != [] && Inv(c, Last(states))
  {
    hide Inv;
    ReachableInv(c, states, actions);
  }

  lemma ThreadFacts(c: Config, s: State, t: nat)
    requires Inv(c, s) && t < |s.threads|
    ensures c.Valid() && AllocatorOk(s.blocks) && Few(s.numbering.index)
    ensures ThreadOk(c, s.memory, s.blocks, s.numbering.index, s.threads[t])
  {
    hide N.Inv, Agreed, Separate, AllocatorOk, ThreadOk;
    IndexFacts(s.numbering);
  }

  // ---- one thread's steps ----

  /** The state after a step of thread t. */
  function After(s: State, t: nat, n: Stepped): State
    requires t < |s.threads|
  {
    s.(threads := s.threads[t := n.thread], memory := n.memory, blocks := n.blocks)
  }

  lemma WorkStep(c: Config, s: State, t: nat) returns (s': State)
    requires Inv(c, s) && t < |s.threads| && !s.aborted
    requires var pc := s.threads[t].pc; (InStorage(pc) && !Asks(pc) && !pc.Returning?) || InDestructor(pc)
    ensures c.Valid() && s' == After(s, t, Next(c, s.memory, s.blocks, s.threads[t])) && Step(c, s, Work(t), s')
  {
    hide Inv, Next, Works, ThreadOk, AllocatorOk;
    ThreadFacts(c, s, t);
    NextWorks(c, s.memory, s.blocks, s.numbering.index, s.threads[t]);
    s' := After(s, t, Next(c, s.memory, s.blocks, s.threads[t]));
  }

  lemma ObtainStep(c: Config, allocate: Policy, s: State, t: nat) returns (s': State)
    requires Inv(c, s) && t < |s.threads| && !s.aborted && Honest(allocate) && Asks(s.threads[t].pc)
    requires !Misaligned(c, s.threads[t].pc) && Answer(c, allocate, s.blocks, s.threads[t]) != 0
    ensures var q := Answer(c, allocate, s.blocks, s.threads[t]);
      c.Valid() && s' == After(s, t, Given(c, s.memory, s.blocks, s.threads[t], q)) && Step(c, s, Obtain(t, q), s')
  {
    hide Inv, Given, Answer, Obtains, ThreadOk, AllocatorOk, Honest, Misaligned;
    var q := Answer(c, allocate, s.blocks, s.threads[t]);
    ThreadFacts(c, s, t);
    GivenObtains(c, allocate, s.memory, s.blocks, s.numbering.index, s.threads[t]);
    s' := After(s, t, Given(c, s.memory, s.blocks, s.threads[t], q));
  }

  lemma AbortStep(c: Config, allocate: Policy, s: State, t: nat) returns (refused: bool)
    requires Inv(c, s) && t < |s.threads| && !s.aborted && Asks(s.threads[t].pc)
    requires Misaligned(c, s.threads[t].pc) || Answer(c, allocate, s.blocks, s.threads[t]) == 0
    ensures c.Valid() && Step(c, s, Abort(t, refused), s.(aborted := true))
  {
    hide N.Inv, Agreed, Separate, AllocatorOk, Shape, Slot, Size, PowerOfTwo;
    ThreadFacts(c, s, t);
    refused := !Misaligned(c, s.threads[t].pc);
  }

  /** How an access that is to end with `fate` has ended. */
  ghost predicate EndsAs(fate: Access, t: nat, a: Action, s': State)
    requires t < |s'.threads|
  {
    match fate
    case Refused => s'.aborted && a.Abort? && a.thread == t
    case Done(p, room) =>
      && !s'.aborted && a == Return(t, p) && s'.blocks == room.blocks
      && s'.threads[t] == Thread(room.table.base, Idle) && TableAt(s'.memory, room.table.base) == room.table
  }

  /** Everybody else is where they were. */
  predicate OthersStay(s: State, s': State, t: nat) {
    && s'.numbering == s.numbering && |s'.threads| == |s.threads|
    && forall u :: 0 <= u < |s.threads| && u != t ==> s'.threads[u] == s.threads[u]
  }

  /** The last step of an access. */
  lemma ReturnStep(c: Config, allocate: Policy, s: State, t: nat) returns (s': State)
    requires Inv(c, s) && t < |s.threads| && !s.aborted && s.threads[t].pc.Returning?
    ensures c.Valid() && Step(c, s, Return(t, s.threads[t].pc.p), s') && OthersStay(s, s', t)
    ensures EndsAs(Fate(c, allocate, s.memory, s.blocks, s.threads[t]), t, Return(t, s.threads[t].pc.p), s')
  {
    hide N.Inv, Agreed, Separate, AllocatorOk, AllOk, Slot, Size, Skip;
    s' := s.(threads := s.threads[t := s.threads[t].(pc := Idle)]);
  }

  /** A thread past emutls_get_index can come to the end of its call by its own steps,
      with malloc and realloc answering by the policy, and that end is its fate. */
  lemma {:induction false} FinishAccess(c: Config, allocate: Policy, states: seq<State>, actions: seq<Action>, t: nat)
    returns (more: seq<State>, moreActions: seq<Action>)
    requires Run(c, states, actions) && states != [] && Honest(allocate) && !Last(states).aborted
    requires t < |Last(states).threads| && InStorage(Last(states).threads[t].pc)
    ensures Continues(c, states, actions, more, moreActions) && actions < moreActions && more != []
    ensures Alone(moreActions, |actions|, t) && OthersStay(Last(states), Last(more), t)
    ensures c.Valid() && var s := Last(states);
      EndsAs(Fate(c, allocate, s.memory, s.blocks, s.threads[t]), t, Last(moreActions), Last(more))
    decreases Stage(Last(states).threads[t].pc), Loop(c, Last(states).memory, Last(states).threads[t].pc)
  {
    hide Run, Inv, Step, Fate, Next, Given, Answer, Stage, Loop, ThreadOk, AllocatorOk, Honest, Few, Misaligned, InStorage, TableAt;
    var s := Last(states);
    LastInv(c, states, actions);
    ThreadFacts(c, s, t);
    var pc, m, blocks := s.threads[t].pc, s.memory, s.blocks;
    if pc.Returning? {
      var s' := ReturnStep(c, allocate, s, t);
      OneStepMore(c, states, actions, Return(t, pc.p), s');
      more, moreActions := states + [s'], actions + [Return(t, pc.p)];
    } else if Asks(pc) {
      AnswerKeepsFate(c, allocate, m, blocks, s.numbering.index, s.threads[t]);
      var q := Answer(c, allocate, blocks, s.threads[t]);
      if Misaligned(c, pc) || q == 0 {
        var refused := AbortStep(c, allocate, s, t);
        OneStepMore(c, states, actions, Abort(t, refused), s.(aborted := true));
        more, moreActions := states + [s.(aborted := true)], actions + [Abort(t, refused)];
      } else {
        var s' := ObtainStep(c, allocate, s, t);
        GivenIsNearer(c, m, blocks, s.threads[t], q);
        OneStepMore(c, states, actions, Obtain(t, q), s');
        more, moreActions := FinishAccess(c, allocate, states + [s'], actions + [Obtain(t, q)], t);
      }
    } else {
      NextKeepsFate(c, allocate, m, blocks, s.numbering.index, s.threads[t]);
      StorageIsNearer(c, m, blocks, s.numbering.index, s.threads[t]);
      var s' := WorkStep(c, s, t);
      OneStepMore(c, states, actions, Work(t), s');
      more, moreActions := FinishAccess(c, allocate, states + [s'], actions + [Work(t)], t);
    }
  }

  // ---- numbering ----

  /** A move of thread t in emutls_get_index. */
  lemma NumberStep(c: Config, states: seq<State>, actions: seq<Action>, t: nat) returns (s': State)
    requires Run(c, states, actions) && states != [] && !Last(states).aborted
    requires t < |Last(states).threads| == |Last(states).numbering.threads|
    requires N.MovesLeft(Last(states).numbering.threads[t]) > 0
    requires Last(states).numbering.threads[t].Waiting? ==> !Last(states).numbering.locked
    ensures var s := Last(states);
      && N.Inv(s.numbering) && N.Inv(s'.numbering) && N.Step(s.numbering, N.Move(t), s'.numbering)
      && s' == s.(numbering := s'.numbering) && |s'.numbering.threads| == |s.numbering.threads|
      && |s'.numbering.index| == |s.numbering.index|
      && (forall u :: 0 <= u < |s.threads| && u != t ==> s'.numbering.threads[u] == s.numbering.threads[u])
      && N.MovesLeft(s'.numbering.threads[t]) < N.MovesLeft(s.numbering.threads[t])
      && !s'.numbering.threads[t].Ready? && s'.numbering.threads[t].control == s.numbering.threads[t].control
      && (N.Holding(s.numbering.threads[t]) ==>
          N.Holding(s'.numbering.threads[t]) || (s'.numbering.threads[t].Returning? && !s'.numbering.locked))
      && (!s.numbering.locked ==> N.Holding(s'.numbering.threads[t]) || !s'.numbering.locked)
    ensures Continues(c, states, actions, states + [s'], actions + [Number(t)])
  {
    hide Run, N.Inv, N.Step, AllOk, Separate, AllocatorOk, Agreed;
    LastInv(c, states, actions);
    var s := Last(states);
    var n := N.CanMove(s.numbering, t);
    N.StepKeepsInv(s.numbering, N.Move(t), n);
    s' := s.(numbering := n);
    OneStepMore(c, states, actions, Number(t), s');
  }

  /** Everything but the numbering is as it was. */
  predicate StorageStays(s: State, s': State) {
    && s'.threads == s.threads && s'.blocks == s.blocks && s'.aborted == s.aborted
    && |s'.numbering.threads| == |s.numbering.threads|
  }

  /** A holder of the mutex can give it back. */
  lemma {:induction false} ReleaseMutex(c: Config, states: seq<State>, actions: seq<Action>, u: nat)
    returns (more: seq<State>, moreActions: seq<Action>)
    requires Run(c, states, actions) && states != [] && !Last(states).aborted
    requires u < |Last(states).threads| == |Last(states).numbering.threads| && N.Holding(Last(states).numbering.threads[u])
    ensures Continues(c, states, actions, more, moreActions) && more != []
    ensures StorageStays(Last(states), Last(more)) && Last(more).memory == Last(states).memory
    ensures !Last(more).numbering.locked
    ensures forall v :: 0 <= v < |Last(states).threads| && v != u ==>
      Last(more).numbering.threads[v] == Last(states).numbering.threads[v]
    decreases N.MovesLeft(Last(states).numbering.threads[u])
  {
    hide Run, N.Inv, N.Step, N.MovesLeft;
    HolderCanMove(Last(states).numbering.threads[u]);
    var s' := NumberStep(c, states, actions, u);
    more, moreActions := states + [s'], actions + [Number(u)];
    if N.Holding(s'.numbering.threads[u]) {
      more, moreActions := ReleaseMutex(c, states + [s'], actions + [Number(u)], u);
    }
  }

  lemma HolderCanMove(p: N.Thread)
    requires N.Holding(p)
    ensures N.MovesLeft(p) > 0 && !p.Waiting?
  {}

  /** emutls_get_index returns its index. */
  lemma NumberedStep(c: Config, states: seq<State>, actions: seq<Action>, t: nat) returns (s': State, i: nat)
    requires Run(c, states, actions) && states != [] && !Last(states).aborted
    requires t < |Last(states).threads| == |Last(states).numbering.threads|
    requires Last(states).threads[t].pc.Indexing? && N.MovesLeft(Last(states).numbering.threads[t]) == 0
    ensures var s := Last(states); var k := s.threads[t].pc.control;
      && k < |s.numbering.index| && s.numbering.index[k] == i > 0 && |s'.threads| == |s.threads|
      && s' == s.(numbering := s'.numbering, threads := s.threads[t := Thread(s.threads[t].key, Fetching(k, i))])
      && N.Stand(s'.numbering) == N.Stand(s.numbering) && s'.numbering.locked == s.numbering.locked
      && !N.Holding(s.numbering.threads[t])
    ensures Continues(c, states, actions, states + [s'], actions + [Numbered(t, i)])
  {
    hide Run, AllOk, Separate, AllocatorOk, N.MutexInv, N.Numbered, N.InFlight;
    LastInv(c, states, actions);
    var s := Last(states);
    var p := s.numbering.threads[t];
    assert N.ThreadOk(s.numbering, p);
    i := p.index;
    var n := s.numbering.(threads := s.numbering.threads[t := N.Ready]);
    assert N.Step(s.numbering, N.Return(t, i), n);
    N.StepNumbersAtomically(s.numbering, N.Return(t, i), n);
    s' := s.(numbering := n, threads := s.threads[t := Thread(s.threads[t].key, Fetching(p.control, i))]);
    OneStepMore(c, states, actions, Numbered(t, i), s');
  }

  lemma NumberingThreads(c: Config, states: seq<State>, actions: seq<Action>)
    requires Run(c, states, actions)
    ensures states != [] && |Last(states).threads| == |Last(states).numbering.threads|
    ensures N.Inv(Last(states).numbering) && c.Valid() && |Last(states).numbering.index| == |c.controls|
    ensures forall t :: 0 <= t < |Last(states).threads| ==>
      if Last(states).threads[t].pc.Indexing? then
        !Last(states).numbering.threads[t].Ready? && Last(states).numbering.threads[t].control == Last(states).threads[t].pc.control
      else Last(states).numbering.threads[t].Ready?
  {
    hide Run, N.Inv, AllOk, Separate, AllocatorOk;
    LastInv(c, states, actions);
  }

  /** A thread in emutls_get_index comes out of it, once the holder of the mutex, if
      there is one, has given it back. */
  lemma {:induction false} FinishIndexing(c: Config, states: seq<State>, actions: seq<Action>, t: nat)
    returns (more: seq<State>, moreActions: seq<Action>)
    requires Run(c, states, actions) && states != [] && !Last(states).aborted
    requires t < |Last(states).threads| == |Last(states).numbering.threads| && Last(states).threads[t].pc.Indexing?
    ensures Continues(c, states, actions, more, moreActions) && actions < moreActions && more != []
    ensures !Last(more).aborted && t < |Last(more).threads| && Last(more).threads[t].pc.Fetching?
    decreases N.MovesLeft(Last(states).numbering.threads[t]), if Last(states).numbering.locked then 1 else 0
  {
    hide Run, N.Inv, N.Step, N.MovesLeft, N.Stand;
    NumberingThreads(c, states, actions);
    var s := Last(states);
    if N.MovesLeft(s.numbering.threads[t]) == 0 {
      var s', i := NumberedStep(c, states, actions, t);
      more, moreActions := states + [s'], actions + [Numbered(t, i)];
    } else if s.numbering.threads[t].Waiting? && s.numbering.locked {
      var u := N.HolderExists(s.numbering);
      more, moreActions := ReleaseMutex(c, states, actions, u);
      more, moreActions := FinishIndexing(c, more, moreActions, t);
    } else {
      var s' := NumberStep(c, states, actions, t);
      more, moreActions := FinishIndexing(c, states + [s'], actions + [Number(t)], t);
    }
  }

  /** Every call comes to an end: any run that has not aborted can be continued until
      the call of any thread inside __emutls_get_address returns, or aborts because its
      alignment is no power of two or the policy refuses what it asks for. */
  lemma CallFinishes(c: Config, allocate: Policy, states: seq<State>, actions: seq<Action>, t: nat)
    returns (more: seq<State>, moreActions: seq<Action>, n: nat)
    requires Run(c, states, actions) && states != [] && Honest(allocate) && !Last(states).aborted
    requires t < |Last(states).threads|
    requires Last(states).threads[t].pc.Indexing? || InStorage(Last(states).threads[t].pc)
    ensures Continues(c, states, actions, more, moreActions) && actions < moreActions && more != []
    ensures |actions| <= n < |more| && t < |more[n].threads| && InStorage(more[n].threads[t].pc) && t < |Last(more).threads|
    ensures c.Valid() && var s := more[n];
      EndsAs(Fate(c, allocate, s.memory, s.blocks, s.threads[t]), t, Last(moreActions), Last(more))
  {
    hide Run, Fate, EndsAs, Honest;
    var middle, middleActions := states, actions;
    NumberingThreads(c, states, actions);
    if Last(states).threads[t].pc.Indexing? {
      middle, middleActions := FinishIndexing(c, states, actions, t);
    }
    RunLength(c, states, actions);
    RunLength(c, middle, middleActions);
    n := |middle| - 1;
    more, moreActions := FinishAccess(c, allocate, middle, middleActions, t);
  }

  lemma RunLength(c: Config, states: seq<State>, actions: seq<Action>)
    requires Run(c, states, actions)
    ensures |states| == |actions| + 1
  {}

  // ---- an access that nobody disturbs ----

  /** Numbering by one thread while no other holds the mutex. */
  lemma {:induction false} NumberAlone(c: Config, states: seq<State>, actions: seq<Action>, t: nat, start: N.Numbering)
    returns (more: seq<State>, moreActions: seq<Action>)
    requires Run(c, states, actions) && states != [] && !Last(states).aborted
    requires t < |Last(states).threads| == |Last(states).numbering.threads| && Last(states).threads[t].pc.Indexing?
    requires N.Holding(Last(states).numbering.threads[t]) || !Last(states).numbering.locked
    requires Last(states).threads[t].pc.control < |start.index|
    requires var n := N.Stand(Last(states).numbering); n == start || n == N.Number(start, Last(states).threads[t].pc.control)
    ensures Continues(c, states, actions, more, moreActions) && more != [] && Alone(moreActions, |actions|, t)
    ensures !Last(more).aborted && Last(more).blocks == Last(states).blocks && Last(more).memory == Last(states).memory
    ensures !Last(more).numbering.locked
    ensures var k := Last(states).threads[t].pc.control; var after := N.Number(start, k);
      && N.Stand(Last(more).numbering) == after && after.index[k] > 0
      && Last(more).threads == Last(states).threads[t := Thread(Last(states).threads[t].key, Fetching(k, after.index[k]))]
    decreases N.MovesLeft(Last(states).numbering.threads[t])
  {
    hide Run, N.Inv, N.Step, N.MovesLeft, N.Stand, N.Stored;
    NumberingThreads(c, states, actions);
    var s, k := Last(states), Last(states).threads[t].pc.control;
    StandIndex(s.numbering);
    if N.MovesLeft(s.numbering.threads[t]) == 0 {
      var s', i := NumberedStep(c, states, actions, t);
      more, moreActions := states + [s'], actions + [Numbered(t, i)];
    } else {
      WaitingIsNotHolding(s.numbering.threads[t]);
      var s' := NumberStep(c, states, actions, t);
      StandIndex(s'.numbering);
      N.StepNumbersAtomically(s.numbering, N.Move(t), s'.numbering);
      more, moreActions := NumberAlone(c, states + [s'], actions + [Number(t)], t, start);
    }
  }

  lemma WaitingIsNotHolding(p: N.Thread)
    ensures p.Waiting? ==> !N.Holding(p)
  {}

  lemma StandIndex(n: N.State)
    ensures N.Stand(n).index == n.index
  {}

  lemma CallStep(c: Config, states: seq<State>, actions: seq<Action>, t: nat, k: nat) returns (s': State)
    requires Run(c, states, actions) && states != [] && !Last(states).aborted
    requires t < |Last(states).threads| && Last(states).threads[t].pc == Idle && k < |c.controls|
    ensures var s := Last(states);
      && |s.numbering.threads| == |s.threads| == |s'.threads| && |s.numbering.index| == |c.controls|
      && s' == s.(numbering := s.numbering.(threads := s.numbering.threads[t := N.Loading(k)]),
                  threads := s.threads[t := Thread(s.threads[t].key, Indexing(k))])
      && N.Stand(s'.numbering) == N.Stand(s.numbering)
    ensures Continues(c, states, actions, states + [s'], actions + [Call(t, k)])
  {
    hide Run, N.Inv, AllOk, Separate, AllocatorOk, N.Stored;
    LastInv(c, states, actions);
    var s := Last(states);
    var n := s.numbering.(threads := s.numbering.threads[t := N.Loading(k)]);
    assert N.Step(s.numbering, N.Call(t, k), n);
    N.StepNumbersAtomically(s.numbering, N.Call(t, k), n);
    s' := s.(numbering := n, threads := s.threads[t := Thread(s.threads[t].key, Indexing(k))]);
    OneStepMore(c, states, actions, Call(t, k), s');
  }

  /** A thread's call that nobody disturbs, made while the mutex is free, is one access
      of the specification: with the index the numbering step gives the control, the
      table and the live blocks become what `Accessed` says and its address is
      returned, or the process aborts exactly when it says so. */
  lemma AccessAlone(c: Config, allocate: Policy, states: seq<State>, actions: seq<Action>, t: nat, k: nat)
    returns (more: seq<State>, moreActions: seq<Action>)
    requires Run(c, states, actions) && states != [] && Honest(allocate) && !Last(states).aborted
    requires t < |Last(states).threads| && Last(states).threads[t].pc == Idle && k < |c.controls|
    requires !Last(states).numbering.locked
    ensures Continues(c, states, actions, more, moreActions) && more != [] && moreActions != []
    ensures Alone(moreActions, |actions|, t) && t < |Last(more).threads| == |Last(states).threads|
    ensures !Last(more).numbering.locked
    ensures forall u :: 0 <= u < |Last(states).threads| && u != t ==> Last(more).threads[u] == Last(states).threads[u]
    ensures c.Valid() && |N.Stand(Last(states).numbering).index| == |c.controls| && ControlOk(c.controls[k])
    ensures var s := Last(states); var after := N.Number(N.Stand(s.numbering), k);
      && N.Stand(Last(more).numbering) == after && 0 < after.index[k] < 0x200_0000_0000_0000
      && EndsAs(Accessed(allocate, c.rounds, s.blocks, Held(s.memory, s.threads[t].key), after.index[k], c.controls[k]),
                t, Last(moreActions), Last(more))
  {
    hide Run, Fate, EndsAs, Honest, N.Inv, N.Stand, Inv, Accessed, Held;
    var s := Last(states);
    NumberingThreads(c, states, actions);
    StandIndex(s.numbering);
    var called := CallStep(c, states, actions, t, k);
    var middle, middleActions := NumberAlone(c, states + [called], actions + [Call(t, k)], t, N.Stand(s.numbering));
    LastInv(c, middle, middleActions);
    FetchingFate(c, allocate, Last(middle), t);
    more, moreActions := FinishAccess(c, allocate, middle, middleActions, t);
  }

  lemma FetchingFate(c: Config, allocate: Policy, s: State, t: nat)
    requires Inv(c, s) && t < |s.threads| && s.threads[t].pc.Fetching?
    ensures c.Valid() && var th := s.threads[t]; var k, i := th.pc.control, th.pc.index;
      && k < |c.controls| && ControlOk(c.controls[k]) && 0 < i < 0x200_0000_0000_0000
      && Fate(c, allocate, s.memory, s.blocks, th) == Accessed(allocate, c.rounds, s.blocks, Held(s.memory, th.key), i, c.controls[k])
  {
    hide Shape, Accessed, Held, ControlOk, N.Inv, Separate, AllocatorOk, AllOk, Agreed;
    ThreadFacts(c, s, t);
    ControlIsOk(c, s.threads[t].pc.control);
  }

  /** What other threads hold at rest, one thread's steps leave as it is. */
  lemma {:induction false} HeldStays(c: Config, states: seq<State>, actions: seq<Action>, n: nat, t: nat, u: nat)
    requires Run(c, states, actions) && n < |states| && Alone(actions, n, t) && u != t
    requires u < |states[n].threads| && states[n].threads[u].pc == Idle
    ensures u < |Last(states).threads| && Last(states).threads[u] == states[n].threads[u]
    ensures Held(Last(states).memory, states[n].threads[u].key) == Held(states[n].memory, states[n].threads[u].key)
    decreases |states| - n
  {
    hide Inv, Init, Step, Held;
    ReachableInv(c, states, actions);
    if n + 1 < |states| {
      HeldAfterStep(c, states[n], actions[n], states[n + 1], t, u);
      HeldStays(c, states, actions, n + 1, t, u);
    }
  }

  lemma HeldAfterStep(c: Config, s: State, a: Action, s': State, t: nat, u: nat)
    requires Inv(c, s) && Step(c, s, a, s') && !a.Client? && a.thread == t != u
    requires u < |s.threads| && s.threads[u].pc == Idle
    ensures u < |s'.threads| && s'.threads[u] == s.threads[u]
    ensures Held(s'.memory, s.threads[u].key) == Held(s.memory, s.threads[u].key)
  {
    hide N.Inv, N.Step, AllocatorOk, Separate, Owns, Works, Obtains, Slot, Size, Skip, BackPointer, TableAt;
    StepRespects(c, s, a, s', u);
    var th := s.threads[u];
    assert ThreadOk(c, s.memory, s.blocks, s.numbering.index, th);
    ViewKept(c, s.memory, s'.memory, s.blocks, s.numbering.index, th);
    if th.key != 0 {
      SameTable(s.memory, th.key, s'.memory);
    }
  }

  // ---- destructors ----

  /** Every destructor comes to its end by its thread's own steps. */
  lemma {:induction false} DestructorFinishes(c: Config, states: seq<State>, actions: seq<Action>, t: nat)
    returns (more: seq<State>, moreActions: seq<Action>)
    requires Run(c, states, actions) && states != [] && !Last(states).aborted
    requires t < |Last(states).threads| && InDestructor(Last(states).threads[t].pc)
    ensures Continues(c, states, actions, more, moreActions) && actions < moreActions && more != []
    ensures Alone(moreActions, |actions|, t) && t < |Last(more).threads| && Last(more).threads[t].pc == Idle
    decreases Stage(Last(states).threads[t].pc), Loop(c, Last(states).memory, Last(states).threads[t].pc)
  {
    hide Run, Inv, Step, Next, Stage, Loop, ThreadOk, AllocatorOk, Few, InDestructor;
    var s := Last(states);
    LastInv(c, states, actions);
    ThreadFacts(c, s, t);
    DestructorIsNearer(c, s.memory, s.blocks, s.threads[t]);
    var s' := WorkStep(c, s, t);
    OneStepMore(c, states, actions, Work(t), s');
    more, moreActions := states + [s'], actions + [Work(t)];
    if s'.threads[t].pc != Idle {
      more, moreActions := DestructorFinishes(c, states + [s'], actions + [Work(t)], t);
    }
  }
}
