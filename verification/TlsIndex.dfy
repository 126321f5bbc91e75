/** How emutls.c numbers its variables: a double-checked allocation of indices
    by any number of threads, one memory access at a time. */
module TlsIndex {
  import opened Counting

  /** Where a thread stands in emutls_get_index for a control. */
  datatype Thread =
    | Ready
    | Loading(control: nat)
    | Waiting(control: nat)
    | Rechecking(control: nat)
    | Counting(control: nat)
    | Storing(control: nat, index: nat)
    | Unlocking(control: nat, index: nat)
    | Returning(control: nat, index: nat)

  /** The index word of each control, emutls_num_object, whether the mutex is
      taken, and the threads. */
  datatype State = State(index: seq<nat>, numObject: nat, locked: bool, threads: seq<Thread>)

  datatype Action = Call(thread: nat, control: nat) | Move(thread: nat) | Return(thread: nat, result: nat)

  predicate Holding(p: Thread) { p.Rechecking? || p.Counting? || p.Storing? || p.Unlocking? }

  ghost predicate Step(s: State, a: Action, s': State) {
    a.thread < |s.threads| &&
    var t, p := a.thread, s.threads[a.thread];
    match a
    case Call(_, c) => p.Ready? && c < |s.index| && s' == s.(threads := s.threads[t := Loading(c)])
    case Return(_, result) =>
      p.Returning? && result == p.index && s' == s.(threads := s.threads[t := Ready])
    case Move(_) =>
      match p
      case Loading(c) =>
        && c < |s.index|
        && s' == s.(threads := s.threads[t := if s.index[c] == 0 then Waiting(c) else Returning(c, s.index[c])])
      case Waiting(c) => !s.locked && s' == s.(locked := true, threads := s.threads[t := Rechecking(c)])
      case Rechecking(c) =>
        && c < |s.index|
        && s' == s.(threads := s.threads[t := if s.index[c] == 0 then Counting(c) else Unlocking(c, s.index[c])])
      case Counting(c) =>
        s' == s.(numObject := s.numObject + 1, threads := s.threads[t := Storing(c, s.numObject + 1)])
      case Storing(c, index) =>
        c < |s.index| && s' == s.(index := s.index[c := index], threads := s.threads[t := Unlocking(c, index)])
      case Unlocking(c, index) => s' == s.(locked := false, threads := s.threads[t := Returning(c, index)])
      case _ => false
  }

  predicate Init(s: State) {
    && s.numObject == 0 && !s.locked
    && (forall c :: 0 <= c < |s.index| ==> s.index[c] == 0)
    && (forall t :: 0 <= t < |s.threads| ==> s.threads[t] == Ready)
  }

  // ---- the invariant ----

  /** Some thread has taken a number and not yet stored it. */
  ghost predicate InFlight(s: State) {
    exists t :: 0 <= t < |s.threads| && s.threads[t].Storing?
  }

  predicate HasIndex(index: seq<nat>, k: nat) {
    exists c :: 0 <= c < |index| && index[c] == k
  }

  ghost predicate MutexInv(s: State) {
    && (forall t, u :: 0 <= t < |s.threads| && 0 <= u < |s.threads| && Holding(s.threads[t]) && Holding(s.threads[u]) ==> t == u)
    && (s.locked <==> exists t :: 0 <= t < |s.threads| && Holding(s.threads[t]))
  }

  /** What a thread knows of its control's index word. */
  predicate ThreadOk(s: State, p: Thread) {
    match p
    case Ready => true
    case Counting(c) => c < |s.index| && s.index[c] == 0
    case Storing(c, index) => c < |s.index| && s.index[c] == 0 && index == s.numObject > 0
    case Unlocking(c, index) => c < |s.index| && s.index[c] == index > 0
    case Returning(c, index) => c < |s.index| && s.index[c] == index > 0
    case _ => p.control < |s.index|
  }

  ghost predicate Numbered(index: seq<nat>, stored: nat) {
    && (forall c :: 0 <= c < |index| ==> index[c] <= stored)
    && (forall c, d :: 0 <= c < d < |index| && index[c] != 0 ==> index[c] != index[d])
    && (forall k :: 1 <= k <= stored ==> HasIndex(index, k))
  }

  ghost predicate Inv(s: State) {
    && MutexInv(s)
    && (forall t :: 0 <= t < |s.threads| ==> ThreadOk(s, s.threads[t]))
    && Numbered(s.index, Stored(s))
  }

  /** The numbers already stored in a control. */
  ghost function Stored(s: State): nat {
    if InFlight(s) && s.numObject > 0 then s.numObject - 1 else s.numObject
  }

  lemma InitEstablishesInv(s: State)
    requires Init(s)
    ensures Inv(s)
  {}

  /** Only a store changes the index words, and only one that was zero. */
  lemma WriteOnce(s: State, a: Action, s': State, c: nat)
    requires Inv(s) && Step(s, a, s') && c < |s.index| && s.index[c] != 0
    ensures |s'.index| == |s.index| && s'.index[c] == s.index[c]
  {}

  lemma InFlightAfter(s: State, s': State, t: nat, p: Thread)
    requires Inv(s) && t < |s.threads| && s'.threads == s.threads[t := p]
    requires p.Storing? ==> Holding(s.threads[t])
    ensures p.Storing? ==> InFlight(s')
    ensures s.threads[t].Storing? && !p.Storing? ==> InFlight(s) && !InFlight(s')
    ensures !s.threads[t].Storing? && !p.Storing? ==> (InFlight(s') <==> InFlight(s))
    ensures Holding(s.threads[t]) && !s.threads[t].Storing? ==> !InFlight(s)
  {
    if p.Storing? {
      assert s'.threads[t].Storing?;
    }
    if InFlight(s) && !s.threads[t].Storing? {
      var u :| 0 <= u < |s.threads| && s.threads[u].Storing?;
      assert s'.threads[u] == s.threads[u];
    }
  }

  lemma StepKeepsMutex(s: State, a: Action, s': State)
    requires Inv(s) && Step(s, a, s')
    ensures MutexInv(s')
  {
    var t, p, q := a.thread, s.threads[a.thread], s'.threads[a.thread];
    assert forall u :: 0 <= u < |s.threads| && u != t ==> s'.threads[u] == s.threads[u];
    if Holding(q) {
      assert s'.locked;
    } else if Holding(p) {
      assert !s'.locked;
    } else {
      assert s'.locked == s.locked;
    }
  }

  /** The numbers stored after a step. */
  lemma StepStores(s: State, a: Action, s': State)
    requires Inv(s) && Step(s, a, s')
    ensures if s.threads[a.thread].Storing? && a.Move? then Stored(s') == Stored(s) + 1 == s.numObject else Stored(s') == Stored(s)
  {
    var t := a.thread;
    InFlightAfter(s, s', t, s'.threads[t]);
  }

  lemma NumberingExtended(index: seq<nat>, stored: nat, c: nat)
    requires Numbered(index, stored) && c < |index| && index[c] == 0
    ensures Numbered(index[c := stored + 1], stored + 1)
  {
    var index' := index[c := stored + 1];
    forall k | 1 <= k <= stored + 1 ensures HasIndex(index', k) {
      if k <= stored {
        assert HasIndex(index, k);
        var d :| 0 <= d < |index| && index[d] == k;
        assert index'[d] == k;
      } else {
        assert index'[c] == k;
      }
    }
  }

  /** There are no more indices than controls. */
  lemma StoredBound(index: seq<nat>, stored: nat)
    requires Numbered(index, stored)
    ensures stored <= |index|
  {
    var owners: seq<nat> := [];
    while |owners| < stored
      invariant |owners| <= stored
      invariant forall k :: 0 <= k < |owners| ==> owners[k] < |index| && index[owners[k]] == k + 1
    {
      assert HasIndex(index, |owners| + 1);
      var c :| 0 <= c < |index| && index[c] == |owners| + 1;
      owners := owners + [c];
    }
    AtMost(owners, |index|);
  }

  /** The other threads' knowledge survives one thread's step. */
  lemma OthersKept(s: State, a: Action, s': State, u: nat)
    requires Inv(s) && Step(s, a, s') && u < |s.threads| && u != a.thread
    ensures ThreadOk(s', s'.threads[u])
  {
    hide Numbered, Stored;
    var t := a.thread;
    assert s'.threads[u] == s.threads[u] && ThreadOk(s, s.threads[u]);
  }

  lemma OwnKept(s: State, a: Action, s': State)
    requires Inv(s) && Step(s, a, s')
    ensures ThreadOk(s', s'.threads[a.thread])
  {
    hide Numbered, Stored;
    assert ThreadOk(s, s.threads[a.thread]);
  }

  /** Every interleaving keeps the invariant. */
  lemma StepKeepsInv(s: State, a: Action, s': State)
    requires Inv(s) && Step(s, a, s')
    ensures Inv(s')
  {
    hide Numbered, MutexInv, Stored;
    StepKeepsMutex(s, a, s');
    StepStores(s, a, s');
    OwnKept(s, a, s');
    forall u | 0 <= u < |s'.threads| ensures ThreadOk(s', s'.threads[u]) {
      if u != a.thread {
        OthersKept(s, a, s', u);
      }
    }
    var p := s.threads[a.thread];
    if p.Storing? && a.Move? {
      assert ThreadOk(s, p);
      NumberingExtended(s.index, Stored(s), p.control);
    }
  }

  /** Index words and how many numbers they hold. */
  datatype Numbering = Numbering(index: seq<nat>, stored: nat)

  /** What emutls_get_index does at one instant: the next number goes to a control
      that has none. */
  function Number(n: Numbering, c: nat): Numbering
    requires c < |n.index|
  {
    if n.index[c] == 0 then Numbering(n.index[c := n.stored + 1], n.stored + 1) else n
  }

  ghost function Stand(s: State): Numbering { Numbering(s.index, Stored(s)) }

  /** Numbering is atomic: a store numbers the control of the thread that makes it,
      which had no number, and no other step does anything. */
  lemma StepNumbersAtomically(s: State, a: Action, s': State)
    requires Inv(s) && Step(s, a, s')
    ensures if a.Move? && s.threads[a.thread].Storing? then
        var c := s.threads[a.thread].control;
        c < |s.index| && s.index[c] == 0 && Stand(s') == Number(Stand(s), c)
      else Stand(s') == Stand(s)
  {
    StepStores(s, a, s');
    assert ThreadOk(s, s.threads[a.thread]);
  }

  // ---- progress ----

  /** A thread's next move, if it is not kept waiting. */
  function Moved(s: State, t: nat): State
    requires t < |s.threads| && ThreadOk(s, s.threads[t])
  {
    match s.threads[t]
    case Loading(c) => s.(threads := s.threads[t := if s.index[c] == 0 then Waiting(c) else Returning(c, s.index[c])])
    case Waiting(c) => s.(locked := true, threads := s.threads[t := Rechecking(c)])
    case Rechecking(c) => s.(threads := s.threads[t := if s.index[c] == 0 then Counting(c) else Unlocking(c, s.index[c])])
    case Counting(c) => s.(numObject := s.numObject + 1, threads := s.threads[t := Storing(c, s.numObject + 1)])
    case Storing(c, index) => s.(index := s.index[c := index], threads := s.threads[t := Unlocking(c, index)])
    case Unlocking(c, index) => s.(locked := false, threads := s.threads[t := Returning(c, index)])
    case _ => s
  }

  /** How many moves a thread has before it. */
  function MovesLeft(p: Thread): nat {
    match p
    case Loading(_) => 6
    case Waiting(_) => 5
    case Rechecking(_) => 4
    case Counting(_) => 3
    case Storing(_, _) => 2
    case Unlocking(_, _) => 1
    case _ => 0
  }

  /** A thread that is inside and need not wait can move, and is nearer to its return. */
  lemma CanMove(s: State, t: nat) returns (s': State)
    requires Inv(s) && t < |s.threads| && MovesLeft(s.threads[t]) > 0 && (s.threads[t].Waiting? ==> !s.locked)
    ensures Step(s, Move(t), s') && s' == s.(index := s'.index, numObject := s'.numObject, locked := s'.locked,
                                             threads := s.threads[t := s'.threads[t]])
    ensures |s'.index| == |s.index|
    ensures MovesLeft(s'.threads[t]) < MovesLeft(s.threads[t]) && !s'.threads[t].Ready?
    ensures s'.threads[t].control == s.threads[t].control
    ensures Holding(s.threads[t]) ==> Holding(s'.threads[t]) || (s'.threads[t].Returning? && !s'.locked)
    ensures !s.locked ==> Holding(s'.threads[t]) || !s'.locked
  {
    hide Numbered;
    assert ThreadOk(s, s.threads[t]);
    s' := Moved(s, t);
  }

  /** The mutex is held by somebody. */
  lemma HolderExists(s: State) returns (u: nat)
    requires Inv(s) && s.locked
    ensures u < |s.threads| && Holding(s.threads[u])
  {
    hide Numbered, ThreadOk;
    u :| 0 <= u < |s.threads| && Holding(s.threads[u]);
  }

  // ---- whole runs ----

  ghost predicate Run(states: seq<State>, actions: seq<Action>) {
    && |states| == |actions| + 1 && Init(states[0])
    && forall i :: 0 <= i < |actions| ==> Step(states[i], actions[i], states[i + 1])
  }

  lemma {:induction false} ReachableInv(states: seq<State>, actions: seq<Action>)
    requires Run(states, actions)
    ensures forall i :: 0 <= i < |states| ==> Inv(states[i]) && |states[i].index| == |states[0].index|
  {
    hide Inv, Init;
    InitEstablishesInv(states[0]);
    var n := 0;
    while n < |actions|
      invariant 0 <= n <= |actions|
      invariant forall i :: 0 <= i <= n ==> Inv(states[i]) && |states[i].index| == |states[0].index|
    {
      StepKeepsInv(states[n], actions[n], states[n + 1]);
      n := n + 1;
    }
  }

  /** In every reachable state in which no thread holds the mutex the nonzero
      indices are exactly 1..emutls_num_object, each belonging to one control. */
  lemma IndicesAreExactly(states: seq<State>, actions: seq<Action>, i: nat, k: nat)
    requires Run(states, actions) && i < |states| && !states[i].locked
    ensures 1 <= k <= states[i].numObject <==> k > 0 && HasIndex(states[i].index, k)
    ensures k > 0 ==> forall c, d :: 0 <= c < d < |states[i].index| && states[i].index[c] == k ==> states[i].index[d] != k
  {
    hide Run;
    ReachableInv(states, actions);
  }

  /** A control keeps its index for the rest of the run. */
  lemma {:induction false} IndexIsForever(states: seq<State>, actions: seq<Action>, i: nat, j: nat, c: nat)
    requires Run(states, actions) && i <= j < |states| && c < |states[i].index| && states[i].index[c] != 0
    ensures |states[j].index| == |states[i].index| && states[j].index[c] == states[i].index[c]
  {
    hide Inv;
    ReachableInv(states, actions);
    var n := i;
    while n < j
      invariant i <= n <= j && states[n].index[c] == states[i].index[c]
    {
      WriteOnce(states[n], actions[n], states[n + 1], c);
      n := n + 1;
    }
  }

  /** Two calls in one run return the same index exactly when they were made for
      the same control. */
  lemma CallsAgree(states: seq<State>, actions: seq<Action>, i: nat, j: nat)
    requires Run(states, actions) && i <= j < |actions| && actions[i].Return? && actions[j].Return?
    ensures actions[i].thread < |states[i].threads| && actions[j].thread < |states[j].threads|
    ensures var p, q := states[i].threads[actions[i].thread], states[j].threads[actions[j].thread];
      && p.Returning? && q.Returning?
      && (actions[i].result == actions[j].result <==> p.control == q.control)
      && 0 < actions[i].result <= states[i].numObject
  {
    assert Step(states[i], actions[i], states[i + 1]) && Step(states[j], actions[j], states[j + 1]);
    ReachableInv(states, actions);
    var p := states[i].threads[actions[i].thread];
    IndexIsForever(states, actions, i, j, p.control);
  }
}
