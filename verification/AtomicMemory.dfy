/** What the generic atomics promise: every operation takes effect on its whole
    object at one instant. The specification the lock table is proved to meet. */
module AtomicMemory {
  import opened Arithmetic
  import opened Bytes
  import B = Bits

  // ---- the operations on one object ----

  datatype Rmw = Add | Sub | And | Or | Xor

  datatype Op =
    | Load
    | Store(value: seq<byte>)
    | Exchange(value: seq<byte>)
    | CompareExchange(expected: seq<byte>, desired: seq<byte>)
    | Fetch(rmw: Rmw, operand: nat)

  /** The int a call returns, and what it leaves in the caller's buffer. */
  datatype Result = Result(flag: int, out: seq<byte>)

  datatype Outcome = Outcome(value: seq<byte>, result: Result)

  /** Operands as large as the object. */
  predicate Fits(op: Op, size: nat) {
    match op
    case Load => true
    case Store(v) => |v| == size
    case Exchange(v) => |v| == size
    case CompareExchange(e, d) => |e| == size && |d| == size
    case Fetch(_, x) => x < Radix(size)
  }

  /** tmp op val, cut to the object's size. */
  function Combine(rmw: Rmw, size: nat, x: nat, y: nat): nat {
    match rmw
    case Add => (x + y) % Radix(size)
    case Sub => (x - y) % Radix(size)
    case And => B.And(x, y) % Radix(size)
    case Or => B.Or(x, y) % Radix(size)
    case Xor => B.Xor(x, y) % Radix(size)
  }

  function Combined(rmw: Rmw, value: seq<byte>, operand: nat): (bytes: seq<byte>)
    ensures |bytes| == |value|
  {
    Digits(|value|, Combine(rmw, |value|, Number(value), operand))
  }

  function Apply(op: Op, value: seq<byte>): Outcome {
    match op
    case Load => Outcome(value, Result(0, value))
    case Store(v) => Outcome(v, Result(0, []))
    case Exchange(v) => Outcome(v, Result(0, value))
    case CompareExchange(e, d) =>
      if value == e then Outcome(d, Result(1, e)) else Outcome(value, Result(0, value))
    case Fetch(rmw, x) => Outcome(Combined(rmw, value, x), Result(0, value))
  }

  lemma ApplyKeepsSize(op: Op, value: seq<byte>)
    requires Fits(op, |value|)
    ensures |Apply(op, value).value| == |value|
  {}

  // ---- histories ----

  datatype Event = Event(thread: nat, target: nat, op: Op, result: Result)

  /** Events name existing objects and fit them. */
  predicate Sound(sizes: seq<nat>, history: seq<Event>) {
    forall i :: 0 <= i < |history| ==> history[i].target < |sizes| && Fits(history[i].op, sizes[history[i].target])
  }

  predicate Sized(sizes: seq<nat>, values: seq<seq<byte>>) {
    |values| == |sizes| && forall o :: 0 <= o < |sizes| ==> |values[o]| == sizes[o]
  }

  /** The values after the events, one at a time. */
  function Replay(initial: seq<seq<byte>>, history: seq<Event>): (values: seq<seq<byte>>)
    ensures |values| == |initial|
  {
    if history == [] then initial
    else
      var values := Replay(initial, history[..|history| - 1]);
      var e := history[|history| - 1];
      if e.target < |values| then values[e.target := Apply(e.op, values[e.target]).value] else values
  }

  /** Every result is what the operation gives on the value left by the events before it. */
  ghost predicate Legal(initial: seq<seq<byte>>, history: seq<Event>) {
    forall i :: 0 <= i < |history| ==>
      && history[i].target < |initial|
      && history[i].result == Apply(history[i].op, Replay(initial, history[..i])[history[i].target]).result
  }

  // ---- the machine ----

  datatype Status = Idle | Pending(target: nat, op: Op) | Done(target: nat, op: Op, result: Result)

  datatype Memory = Memory(values: seq<seq<byte>>, calls: seq<Status>, history: seq<Event>)

  datatype Label = Invoke(thread: nat, target: nat, op: Op) | Commit(thread: nat) | Respond(thread: nat, result: Result) | Internal

  predicate Init(sizes: seq<nat>, m: Memory) {
    Sized(sizes, m.values) && m.history == [] && forall t :: 0 <= t < |m.calls| ==> m.calls[t] == Idle
  }

  ghost predicate Step(sizes: seq<nat>, m: Memory, l: Label, m': Memory) {
    match l
    case Internal => m' == m
    case Invoke(t, o, op) =>
      && t < |m.calls| && m.calls[t] == Idle && o < |sizes| && Fits(op, sizes[o])
      && m' == m.(calls := m.calls[t := Pending(o, op)])
    case Commit(t) =>
      && t < |m.calls| && m.calls[t].Pending? && m.calls[t].target < |m.values|
      && (var o, op := m.calls[t].target, m.calls[t].op;
          var outcome := Apply(op, m.values[o]);
          m' == Memory(m.values[o := outcome.value],
                       m.calls[t := Done(o, op, outcome.result)],
                       m.history + [Event(t, o, op, outcome.result)]))
    case Respond(t, result) =>
      && t < |m.calls| && m.calls[t].Done? && m.calls[t].result == result
      && m' == m.(calls := m.calls[t := Idle])
  }

  /** The last event of a thread. */
  function LastOf(history: seq<Event>, t: nat): seq<Event> {
    if history == [] then []
    else if history[|history| - 1].thread == t then history[|history| - 1..]
    else LastOf(history[..|history| - 1], t)
  }

  ghost predicate Inv(sizes: seq<nat>, initial: seq<seq<byte>>, m: Memory) {
    && Sized(sizes, initial) && Sized(sizes, m.values) && Sound(sizes, m.history)
    && m.values == Replay(initial, m.history)
    && Legal(initial, m.history)
    && (forall t :: 0 <= t < |m.calls| && m.calls[t].Pending? ==>
        m.calls[t].target < |sizes| && Fits(m.calls[t].op, sizes[m.calls[t].target]))
    && (forall t :: 0 <= t < |m.calls| && m.calls[t].Done? ==>
        LastOf(m.history, t) == [Event(t, m.calls[t].target, m.calls[t].op, m.calls[t].result)])
  }

  lemma InitEstablishes(sizes: seq<nat>, m: Memory)
    requires Init(sizes, m)
    ensures Inv(sizes, m.values, m)
  {}

  lemma LegalExtends(initial: seq<seq<byte>>, history: seq<Event>, e: Event)
    requires Legal(initial, history) && e.target < |initial|
    requires e.result == Apply(e.op, Replay(initial, history)[e.target]).result
    ensures Legal(initial, history + [e])
    ensures Replay(initial, history + [e])
         == Replay(initial, history)[e.target := Apply(e.op, Replay(initial, history)[e.target]).value]
    ensures forall t :: LastOf(history + [e], t) == if e.thread == t then [e] else LastOf(history, t)
  {
    var h := history + [e];
    assert h[..|history|] == history;
    forall i | 0 <= i < |h| ensures h[..i] == if i < |history| then history[..i] else history {}
  }

  lemma CommitKeepsInv(sizes: seq<nat>, initial: seq<seq<byte>>, m: Memory, t: nat, m': Memory)
    requires Inv(sizes, initial, m) && Step(sizes, m, Commit(t), m')
    ensures Inv(sizes, initial, m')
  {
    hide Apply, Fits, Replay, Legal, LastOf;
    var o, op := m.calls[t].target, m.calls[t].op;
    var e := Event(t, o, op, Apply(op, m.values[o]).result);
    ApplyKeepsSize(op, m.values[o]);
    LegalExtends(initial, m.history, e);
  }

  /** Every run of the atomic memory has a legal history, whose replay is the
      memory, and answers each call with the result of that call's own event. */
  lemma StepKeepsInv(sizes: seq<nat>, initial: seq<seq<byte>>, m: Memory, l: Label, m': Memory)
    requires Inv(sizes, initial, m) && Step(sizes, m, l, m')
    ensures Inv(sizes, initial, m')
  {
    hide Apply, Fits, Replay, Legal, LastOf;
    if l.Commit? {
      CommitKeepsInv(sizes, initial, m, l.thread, m');
    }
  }

  // ---- what legality means for single events ----

  function Before(initial: seq<seq<byte>>, history: seq<Event>, i: nat): seq<byte>
    requires i < |history| && history[i].target < |initial|
  {
    Replay(initial, history[..i])[history[i].target]
  }

  function After(initial: seq<seq<byte>>, history: seq<Event>, i: nat): seq<byte>
    requires i < |history| && history[i].target < |initial|
  {
    Replay(initial, history[..i + 1])[history[i].target]
  }

  /** A compare-exchange answers 1 exactly when it found the expected value and
      replaced it by the desired one; otherwise it changed nothing and hands back
      the value it found. */
  lemma CompareExchangeReports(initial: seq<seq<byte>>, history: seq<Event>, i: nat)
    requires Legal(initial, history) && i < |history| && history[i].op.CompareExchange?
    ensures var e := history[i]; var before, after := Before(initial, history, i), After(initial, history, i);
      && (e.result.flag == 1 || e.result.flag == 0)
      && (e.result.flag == 1 <==> before == e.op.expected)
      && (e.result.flag == 1 ==> after == e.op.desired && e.result.out == e.op.expected)
      && (e.result.flag == 0 ==> after == before && e.result.out == before)
  {
    assert history[..i + 1][..i] == history[..i];
  }

  /** Loads are not torn: a load returns one value the object had as a whole. */
  lemma LoadIsWhole(initial: seq<seq<byte>>, history: seq<Event>, i: nat)
    requires Legal(initial, history) && i < |history| && history[i].op.Load?
    ensures history[i].result == Result(0, Before(initial, history, i))
    ensures Before(initial, history, i) == After(initial, history, i)
  {
    assert history[..i + 1][..i] == history[..i];
  }

  /** An event is one application of its operation, and touches no other object. */
  lemma EventApplies(initial: seq<seq<byte>>, history: seq<Event>, i: nat)
    requires Legal(initial, history) && i < |history|
    ensures history[i].target < |initial|
    ensures var e := history[i]; var before := Before(initial, history, i);
      After(initial, history, i) == Apply(e.op, before).value && e.result == Apply(e.op, before).result
    ensures forall o :: 0 <= o < |initial| && o != history[i].target ==>
      Replay(initial, history[..i + 1])[o] == Replay(initial, history[..i])[o]
  {
    hide Apply;
    assert history[..i + 1][..i] == history[..i];
  }

  /** A store leaves its value and reports nothing; an exchange leaves its value and
      hands back the one it found. */
  lemma StoreAndExchange(initial: seq<seq<byte>>, history: seq<Event>, i: nat)
    requires Legal(initial, history) && i < |history|
    ensures var e := history[i]; var before, after := Before(initial, history, i), After(initial, history, i);
      && (e.op.Store? ==> after == e.op.value && e.result == Result(0, []))
      && (e.op.Exchange? ==> after == e.op.value && e.result == Result(0, before))
  {
    hide Replay, Combined;
    EventApplies(initial, history, i);
  }

  /** The values and results of the read-modify-write operations, bit by bit: each
      hands back the number it found and leaves the sum, difference, conjunction,
      disjunction or exclusive disjunction of it and the operand, in the size of the
      object. */
  lemma FetchCombines(sizes: seq<nat>, initial: seq<seq<byte>>, history: seq<Event>, i: nat)
    requires Sized(sizes, initial) && Sound(sizes, history) && Legal(initial, history)
    requires i < |history| && history[i].op.Fetch?
    ensures history[i].target < |sizes|
    ensures var e := history[i]; var before, after := Before(initial, history, i), After(initial, history, i);
      && e.result == Result(0, before)
      && |before| == |after| == sizes[e.target]
      && var x, y, z, width := Number(before), e.op.operand, Number(after), 8 * sizes[e.target];
         match e.op.rmw
         case Add => z == (x + y) % B.Pow2(width)
         case Sub => z == (x - y) % B.Pow2(width)
         case And => forall k :: 0 <= k < width ==> (B.Bit(z, k) == 1 <==> B.Bit(x, k) == 1 && B.Bit(y, k) == 1)
         case Or => forall k :: 0 <= k < width ==> (B.Bit(z, k) == 1 <==> B.Bit(x, k) == 1 || B.Bit(y, k) == 1)
         case Xor => forall k :: 0 <= k < width ==> (B.Bit(z, k) == 1 <==> B.Bit(x, k) != B.Bit(y, k))
  {
    hide Replay, Number, Digits, Legal, B.Bit, B.Pow2, Combine, Combined;
    EventApplies(initial, history, i);
    ReplayKeepsSize(sizes, initial, history, i);
    var op, before := history[i].op, Before(initial, history, i);
    CombinedNumber(op.rmw, before, op.operand);
    CombineBits(op.rmw, |before|, Number(before), op.operand);
  }

  lemma {:induction false} ReplayKeepsSize(sizes: seq<nat>, initial: seq<seq<byte>>, history: seq<Event>, n: nat)
    requires Sized(sizes, initial) && Sound(sizes, history) && n <= |history|
    ensures Sized(sizes, Replay(initial, history[..n]))
  {
    if n == 0 {
      assert history[..n] == [];
    } else {
      ReplayKeepsSize(sizes, initial, history, n - 1);
      assert history[..n][..n - 1] == history[..n - 1];
    }
  }

  lemma CombinedNumber(rmw: Rmw, value: seq<byte>, operand: nat)
    ensures Number(Combined(rmw, value, operand)) == Combine(rmw, |value|, Number(value), operand)
  {
    hide Number, Digits, Radix, B.And, B.Or, B.Xor;
    var combined := Combine(rmw, |value|, Number(value), operand);
    NumberOfDigits(|value|, combined);
    DivModIdentity(combined, Radix(|value|));
    CombineReduced(rmw, |value|, Number(value), operand);
  }

  lemma CombineReduced(rmw: Rmw, size: nat, x: nat, y: nat)
    ensures Combine(rmw, size, x, y) % Radix(size) == Combine(rmw, size, x, y)
  {
    hide Radix, B.And, B.Or, B.Xor;
    DivModUnique(Combine(rmw, size, x, y), Radix(size), 0, Combine(rmw, size, x, y));
  }

  lemma CombineBits(rmw: Rmw, size: nat, x: nat, y: nat)
    ensures var z := Combine(rmw, size, x, y);
      match rmw
      case Add => z == (x + y) % B.Pow2(8 * size)
      case Sub => z == (x - y) % B.Pow2(8 * size)
      case And => forall k :: 0 <= k < 8 * size ==> (B.Bit(z, k) == 1 <==> B.Bit(x, k) == 1 && B.Bit(y, k) == 1)
      case Or => forall k :: 0 <= k < 8 * size ==> (B.Bit(z, k) == 1 <==> B.Bit(x, k) == 1 || B.Bit(y, k) == 1)
      case Xor => forall k :: 0 <= k < 8 * size ==> (B.Bit(z, k) == 1 <==> B.Bit(x, k) != B.Bit(y, k))
  {
    hide B.And, B.Or, B.Xor, B.Bit, B.Pow2;
    var z := Combine(rmw, size, x, y);
    forall k: nat | k < 8 * size
      ensures rmw == And ==> (B.Bit(z, k) == 1 <==> B.Bit(x, k) == 1 && B.Bit(y, k) == 1)
      ensures rmw == Or ==> (B.Bit(z, k) == 1 <==> B.Bit(x, k) == 1 || B.Bit(y, k) == 1)
      ensures rmw == Xor ==> (B.Bit(z, k) == 1 <==> B.Bit(x, k) != B.Bit(y, k))
    {
      match rmw
      case And => B.BitOfLow(B.And(x, y), 8 * size, k); B.AndBits(x, y, k);
      case Or => B.BitOfLow(B.Or(x, y), 8 * size, k); B.OrBits(x, y, k);
      case Xor => B.BitOfLow(B.Xor(x, y), 8 * size, k); B.XorBit(x, y, k);
      case _ =>
    }
  }

  // ---- conservation ----

  /** What one event adds to the number in object o, modulo the object's size. */
  function Contribution(e: Event, o: nat): int {
    if e.target == o && e.op.Fetch? && e.op.rmw == Add then e.op.operand
    else if e.target == o && e.op.Fetch? && e.op.rmw == Sub then 0 - e.op.operand
    else 0
  }

  function Total(history: seq<Event>, o: nat): int {
    if history == [] then 0
    else Total(history[..|history| - 1], o) + Contribution(history[|history| - 1], o)
  }

  /** Object o is only added to, subtracted from and read. */
  predicate OnlyCounts(history: seq<Event>, o: nat) {
    forall i :: 0 <= i < |history| && history[i].target == o ==>
      match history[i].op
      case Load => true
      case Fetch(rmw, _) => rmw == Add || rmw == Sub
      case _ => false
  }

  lemma CountOnce(value: seq<byte>, e: Event, o: nat, sum: int)
    requires OnlyCounts([e], o) && e.target == o
    requires Number(value) == sum % Radix(|value|)
    ensures Number(Apply(e.op, value).value) == (sum + Contribution(e, o)) % Radix(|value|)
  {
    hide Number, Digits, Radix, B.And, B.Or, B.Xor;
    var r := Radix(|value|);
    assert [e][0].target == o;
    if e.op.Fetch? {
      var x := Contribution(e, o);
      var combined := Combine(e.op.rmw, |value|, Number(value), e.op.operand);
      assert combined == (Number(value) + x) % r;
      ReducedSum(sum, x, r);
      NumberOfDigits(|value|, combined);
      DivModUnique(combined, r, 0, combined);
    }
  }

  lemma ReducedSum(sum: int, x: int, r: nat)
    requires 0 < r
    ensures (sum % r + x) % r == (sum + x) % r
  {
    DivModIdentity(sum, r);
    ModAddMultiple(sum % r + x, sum / r, r);
  }

  /** No update is lost: after any legal history of additions and subtractions
      the object holds its first value plus everything added and minus everything
      subtracted, modulo 2^(8 size). */
  lemma {:induction false} Conservation(sizes: seq<nat>, initial: seq<seq<byte>>, history: seq<Event>, o: nat)
    requires Sized(sizes, initial) && Sound(sizes, history) && o < |sizes| && OnlyCounts(history, o)
    ensures |Replay(initial, history)[o]| == sizes[o]
    ensures Number(Replay(initial, history)[o]) == (Number(initial[o]) + Total(history, o)) % Radix(sizes[o])
  {
    if history == [] {
      NumberBound(initial[o]);
      DivModUnique(Number(initial[o]), Radix(sizes[o]), 0, Number(initial[o]));
    } else {
      var n := |history| - 1;
      var e := history[n];
      Conservation(sizes, initial, history[..n], o);
      if e.target == o {
        assert [e][0] == history[n];
        CountOnce(Replay(initial, history[..n])[o], e, o, Number(initial[o]) + Total(history[..n], o));
        ApplyKeepsSize(e.op, Replay(initial, history[..n])[o]);
      }
    }
  }
}
