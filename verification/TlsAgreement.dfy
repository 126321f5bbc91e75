/** The process of EmuTls and the state machine agree: a call of the process is a run
    of the machine that nobody disturbs. */
module TlsAgreement {
  import opened EmuMemory
  import opened Options
  import opened TlsAccess
  import opened TlsCourse
  import opened TlsMachine
  import opened TlsProgress
  import opened TlsThread
  import E = EmuTls
  import N = TlsIndex

  predicate SameControls(controls: seq<Control>, variables: seq<Control>) {
    && |controls| == |variables|
    && forall k :: 0 <= k < |variables| ==> controls[k].(index := 0) == variables[k].(index := 0)
  }

  /** A machine at rest stands for a process: same blocks, numbers and tables, the
      latter found in memory through the keys. */
  ghost predicate Mirrors(c: Config, s: State, p: E.Process)
    reads p
  {
    && c.rounds == p.skipRounds && s.blocks == p.blocks && !s.aborted && !s.numbering.locked
    && SameControls(p.controls, c.controls)
    && N.Stand(s.numbering) == N.Numbering(E.IndexWords(p.controls), p.numObject)
    && forall t :: 0 <= t < |s.threads| ==>
      s.threads[t].pc == Idle && Held(s.memory, s.threads[t].key) == E.TableOf(p.tables, t)
  }

  lemma AccessIgnoresIndex(allocate: Policy, rounds: nat, blocks: map<nat, nat>, table: Option<Table>, index: nat, c: Control, d: Control)
    requires 0 < index < 0x200_0000_0000_0000 && ControlOk(c) && c.(index := 0) == d.(index := 0)
    ensures ControlOk(d) && Accessed(allocate, rounds, blocks, table, index, c) == Accessed(allocate, rounds, blocks, table, index, d)
  {
    hide TableFor, Placed, PowerOfTwo;
  }

  /** The index of the process is that of the numbering step. */
  lemma SameIndex(controls: seq<Control>, numObject: nat, k: nat)
    requires k < |controls|
    ensures E.IndexFor(controls, numObject, k) == N.Number(N.Numbering(E.IndexWords(controls), numObject), k).index[k]
  {}

  lemma StillTheSameControls(before: seq<Control>, after: seq<Control>, variables: seq<Control>)
    requires SameControls(before, variables) && E.SameButIndices(before, after)
    ensures SameControls(after, variables)
  {}

  lemma TableHasPlace(allocate: Policy, rounds: nat, blocks: map<nat, nat>, table: Option<Table>, index: nat, control: Control)
    requires 0 < index < 0x200_0000_0000_0000 && ControlOk(control)
    requires table.Some? ==> table.value.base != 0
    ensures match Accessed(allocate, rounds, blocks, table, index, control)
      case Refused => true
      case Done(_, room) => room.table.base != 0
  {
    hide Placed, PowerOfTwo, NewDataArraySize;
  }

  lemma HeldHasPlace(m: Memory, key: nat)
    ensures Held(m, key).Some? ==> Held(m, key).value.base != 0
  {
    hide TableAt;
    assert key != 0 ==> TableAt(m, key).base == key by { PlaceOfTable(m, key); }
  }

  lemma PlaceOfTable(m: Memory, key: nat)
    ensures TableAt(m, key).base == key
  {}

  lemma HeldAt(m: Memory, base: nat, table: Table)
    requires base != 0 && TableAt(m, base) == table
    ensures Held(m, base) == Some(table)
  {}

  lemma AfterAccess(s: State, s': State, tables: map<nat, Table>, tables': map<nat, Table>, t: nat, fate: Access, a: Action)
    requires t < |s.threads| == |s'.threads| && fate.Done? && EndsAs(fate, t, a, s') && fate.room.table.base != 0
    requires tables' == tables[t := fate.room.table]
    ensures s'.threads[t].pc == Idle && Held(s'.memory, s'.threads[t].key) == E.TableOf(tables', t)
    ensures s'.blocks == fate.room.blocks && !s'.aborted && a == Return(t, fate.p)
    ensures forall u :: u != t ==> E.TableOf(tables', u) == E.TableOf(tables, u)
  {
    hide TableAt, Held;
    HeldAt(s'.memory, fate.room.table.base, fate.room.table);
  }

  /** __emutls_get_address of the process, beside the run it is: the run ends in the
      return of the same address, or aborts when the process does, and the machine
      stands for the process again. */
  method GetAddress(p: E.Process, t: nat, k: nat, allocate: Policy,
                    ghost c: Config, ghost states: seq<State>, ghost actions: seq<Action>)
    returns (r: E.Got, ghost more: seq<State>, ghost moreActions: seq<Action>)
    requires p.Valid() && Honest(allocate) && Run(c, states, actions) && states != [] && Mirrors(c, Last(states), p)
    requires t < |Last(states).threads| && k < |c.controls|
    modifies p
    ensures Continues(c, states, actions, more, moreActions) && Alone(moreActions, |actions|, t) && more != [] && moreActions != []
    ensures match r
      case Aborted => Last(more).aborted && Last(moreActions).Abort? && Last(moreActions).thread == t
      case Address(a) => Last(moreActions) == Return(t, a) && p.Valid() && Mirrors(c, Last(more), p)
  {
    hide Run, p.Valid, Accessed, Held, N.Stand, Honest, ControlOk, E.SameButIndices, TableFor, NewBlock, E.AddressOf, TableAt, EndsAs,
      E.IndexFor, E.IndexWords, N.Number, E.TableOf, SameControls;
    ghost var s := Last(states);
    more, moreActions := AccessAlone(c, allocate, states, actions, t, k);
    NumberOf(p.controls, c.controls, k);
    SameIndex(p.controls, p.numObject, k);
    HeldHasPlace(s.memory, s.threads[t].key);
    ghost var tables, controls, index := p.tables, p.controls, E.IndexFor(p.controls, p.numObject, k);
    r := p.GetAddress(t, k, allocate);
    AccessIgnoresIndex(allocate, c.rounds, s.blocks, E.TableOf(tables, t), index, c.controls[k], controls[k]);
    TableHasPlace(allocate, c.rounds, s.blocks, E.TableOf(tables, t), index, c.controls[k]);
    ghost var fate := Accessed(allocate, c.rounds, s.blocks, E.TableOf(tables, t), index, c.controls[k]);
    if fate.Done? {
      AfterAccess(s, Last(more), tables, p.tables, t, fate, Last(moreActions));
      StillTheSameControls(controls, p.controls, c.controls);
      OthersHold(c, states, actions, more, moreActions, t);
      forall u | 0 <= u < |s.threads|
        ensures Last(more).threads[u].pc == Idle && Held(Last(more).memory, Last(more).threads[u].key) == E.TableOf(p.tables, u)
      {
        assert u != t ==> AtRest(s, Last(more), u);
      }
    } else {
      AfterRefusal(fate, t, Last(moreActions), Last(more));
    }
  }

  lemma AfterRefusal(fate: Access, t: nat, a: Action, s': State)
    requires t < |s'.threads| && fate.Refused? && EndsAs(fate, t, a, s')
    ensures s'.aborted && a.Abort? && a.thread == t
  {}

  lemma NumberOf(controls: seq<Control>, variables: seq<Control>, k: nat)
    requires SameControls(controls, variables) && k < |variables|
    ensures k < |controls| && controls[k].(index := 0) == variables[k].(index := 0)
  {}

  /** Thread u has not moved, and its table is as it was. */
  ghost predicate AtRest(s: State, s': State, u: nat) {
    && u < |s.threads| == |s'.threads| && s'.threads[u] == s.threads[u]
    && Held(s'.memory, s.threads[u].key) == Held(s.memory, s.threads[u].key)
  }

  lemma OthersHold(c: Config, states: seq<State>, actions: seq<Action>, more: seq<State>, moreActions: seq<Action>, t: nat)
    requires Run(c, states, actions) && states != [] && Continues(c, states, actions, more, moreActions)
    requires Alone(moreActions, |actions|, t) && more != [] && |Last(more).threads| == |Last(states).threads|
    requires forall u :: 0 <= u < |Last(states).threads| ==> Last(states).threads[u].pc == Idle
    ensures forall u :: 0 <= u < |Last(states).threads| && u != t ==> AtRest(Last(states), Last(more), u)
  {
    hide Run, Held, Alone;
    RunLength(c, states, actions);
    RunLength(c, more, moreActions);
    var n := |actions|;
    assert more[n] == Last(states);
    forall u | 0 <= u < |Last(states).threads| && u != t
      ensures AtRest(Last(states), Last(more), u)
    {
      HeldStays(c, more, moreActions, n, t, u);
    }
  }
}
