/** The lock table of atomic.c as an interleaving of steps: a compare-and-swap
    that may fail for no reason, copies and comparisons one byte at a time, and
    an unlock. It is proved to refine the atomic memory. */
module LockTable {
  import opened Arithmetic
  import opened AtomicMemory
  import opened Bytes
  import B = Bits

  const SPINLOCK_COUNT: nat := 1024

  // ---- lock_for_pointer ----

  /** The index of the lock for a pointer, on w-bit pointers. */
  function LockForPointer(w: nat, ptr: nat): nat
    requires 0 < w
  {
    var hash := B.Sar(w, ptr, 4);
    var low := B.And(hash, SPINLOCK_COUNT - 1);
    var perturbed := B.Xor(B.Sar(w, hash, 16), low);
    B.And(perturbed, SPINLOCK_COUNT - 1)
  }

  lemma LowTenBits(x: nat)
    ensures B.And(x, SPINLOCK_COUNT - 1) == x % 1024
    ensures B.Pow2(10) == 1024 && B.Pow2(26) == 0x400_0000 && B.Pow2(16) == 0x1_0000 && B.Pow2(4) == 16
  {
    B.Pow2Values();
    B.Pow2Add(8, 2);
    B.Pow2Add(16, 10);
    assert B.Pow2(2) == 4;
    B.AndMask(x, 10);
  }

  /** The hash is the exclusive or of bits 4 to 13 and bits 20 to 29 of the
      pointer, whatever its sign. */
  lemma LockIsBits(w: nat, ptr: nat)
    requires 30 <= w && ptr < B.Pow2(w)
    ensures LockForPointer(w, ptr) == B.Xor(ptr / 0x10_0000 % 1024, ptr / 0x10 % 1024) < SPINLOCK_COUNT
  {
    hide B.And, B.Xor, B.Sar, B.Pow2;
    var hash := B.Sar(w, ptr, 4);
    var low := B.And(hash, SPINLOCK_COUNT - 1);
    LowTenBits(hash);
    B.SarLow(w, ptr, 4, 10);
    B.SarLow(w, ptr, 4, 26);
    B.SarLow(w, hash, 16, 10);
    DigitOfRemainder(hash, 0x1_0000, 1024);
    DigitOfRemainder(ptr / 16, 0x1_0000, 1024);
    DivideTwice(ptr, 16, 0x1_0000);
    var high := B.Sar(w, hash, 16);
    assert high % 1024 == ptr / 0x10_0000 % 1024;
    assert low == ptr / 0x10 % 1024;
    DivModUnique(low, 1024, 0, low);
    B.XorLow(B.Sar(w, hash, 16), low, 10);
    LowTenBits(B.Xor(B.Sar(w, hash, 16), low));
  }

  /** All pointers into one 16-byte granule use one lock of the table. */
  lemma GranuleSharesLock(w: nat, p: nat, q: nat)
    requires 30 <= w && p < B.Pow2(w) && q < B.Pow2(w) && p / 16 == q / 16
    ensures LockForPointer(w, p) == LockForPointer(w, q) < SPINLOCK_COUNT
  {
    hide B.Xor, LockForPointer;
    LockIsBits(w, p);
    LockIsBits(w, q);
    DivideTwice(p, 16, 0x1_0000);
    DivideTwice(q, 16, 0x1_0000);
  }

  // ---- the machine ----

  /** An object: always accessed with this base pointer and this size. */
  datatype Cell = Cell(base: nat, size: nat)

  datatype Config = Config(width: nat, cells: seq<Cell>, memorySize: nat) {

    ghost predicate Valid() {
      && 30 <= width && memorySize <= B.Pow2(width)
      && (forall o :: 0 <= o < |cells| ==> cells[o].base + cells[o].size <= memorySize && cells[o].base < B.Pow2(width))
      && (forall o, o' :: 0 <= o < o' < |cells| ==> Disjoint(cells[o], cells[o']))
    }

    /** The lock that guards an object. */
    function Lock(o: nat): nat
      requires o < |cells| && 0 < width
    {
      LockForPointer(width, cells[o].base)
    }

    function Sizes(): (sizes: seq<nat>)
      ensures |sizes| == |cells|
    {
      seq(|cells|, o requires 0 <= o < |cells| => cells[o].size)
    }
  }

  predicate Disjoint(c: Cell, d: Cell) { c.base + c.size <= d.base || d.base + d.size <= c.base }

  /** Where a thread stands. Buffers of the caller are the thread's own. */
  datatype Thread =
    | Ready
    | Locking(target: nat, op: Op, seen: nat)
    | Retrying(target: nat, op: Op, seen: nat)
    | Comparing(target: nat, op: Op, i: nat)
    | Reading(target: nat, op: Op, buffer: seq<byte>)
    | Writing(target: nat, op: Op, result: Result, source: seq<byte>, i: nat)
    | Unlocking(target: nat, op: Op, result: Result)
    | Returning(target: nat, op: Op, result: Result)

  /** Between taking the lock and giving it back. */
  predicate Inside(p: Thread) { p.Comparing? || p.Reading? || p.Writing? || p.Unlocking? }

  datatype State = State(locks: seq<nat>, memory: seq<byte>, threads: seq<Thread>)

  function Slice(c: Config, memory: seq<byte>, o: nat): (value: seq<byte>)
    requires o < |c.cells| && c.cells[o].base + c.cells[o].size <= |memory|
    ensures |value| == c.cells[o].size
  {
    memory[c.cells[o].base..c.cells[o].base + c.cells[o].size]
  }

  /** The first thing done under the lock. */
  function Enter(o: nat, op: Op): Thread {
    match op
    case Store(v) => Writing(o, op, Result(0, []), v, 0)
    case CompareExchange(_, _) => Comparing(o, op, 0)
    case _ => Reading(o, op, [])
  }

  /** What follows a completed copy out of the object. */
  function AfterCopy(o: nat, op: Op, buffer: seq<byte>): Thread {
    match op
    case Exchange(v) => Writing(o, op, Result(0, buffer), v, 0)
    case Fetch(rmw, x) => Writing(o, op, Result(0, buffer), Combined(rmw, buffer, x), 0)
    case _ => Unlocking(o, op, Result(0, buffer))
  }

  /** One byte, or the end of a copy or comparison, given the object's bytes. */
  function Advance(p: Thread, value: seq<byte>): Thread
    requires p.Comparing? || p.Reading? || p.Writing?
  {
    match p
    case Comparing(o, op, i) =>
      if op.CompareExchange? && i < |value| && i < |op.expected| then
        if value[i] == op.expected[i] then Comparing(o, op, i + 1) else Reading(o, op, [])
      else if op.CompareExchange? then Writing(o, op, Result(1, op.expected), op.desired, 0)
      else p
    case Reading(o, op, buffer) =>
      if |buffer| < |value| then Reading(o, op, buffer + [value[|buffer|]]) else AfterCopy(o, op, buffer)
    case Writing(o, op, result, source, i) =>
      if i < |source| then Writing(o, op, result, source, i + 1) else Unlocking(o, op, result)
  }

  /** The step stores a byte into the object at base. */
  predicate Stores(p: Thread, size: nat) { p.Writing? && p.i < |p.source| && p.i < size }

  /** The object's bytes after the step. */
  function Stored(p: Thread, value: seq<byte>): seq<byte> {
    if Stores(p, |value|) then value[p.i := p.source[p.i]] else value
  }

  /** The memory after the step. */
  function StoreByte(cell: Cell, p: Thread, memory: seq<byte>): (m: seq<byte>)
    requires cell.base + cell.size <= |memory|
    ensures |m| == |memory|
  {
    if Stores(p, cell.size) then memory[cell.base + p.i := p.source[p.i]] else memory
  }

  datatype Action =
    | Call(thread: nat, target: nat, op: Op)
    | CompareAndSwap(thread: nat, succeeds: bool)
    | ResetOld(thread: nat)
    | Work(thread: nat)
    | Unlock(thread: nat)
    | Return(thread: nat)

  ghost predicate WellFormed(c: Config, s: State) {
    && c.Valid() && |s.locks| == SPINLOCK_COUNT && |s.memory| == c.memorySize
    && (forall t :: 0 <= t < |s.threads| && !s.threads[t].Ready? ==>
        s.threads[t].target < |c.cells| && Fits(s.threads[t].op, c.cells[s.threads[t].target].size))
    && (forall o :: 0 <= o < |c.cells| ==> c.Lock(o) < SPINLOCK_COUNT)
  }

  ghost predicate Step(c: Config, s: State, a: Action, s': State)
    requires WellFormed(c, s)
  {
    a.thread < |s.threads| &&
    var t, p := a.thread, s.threads[a.thread];
    match a
    case Call(_, o, op) =>
      && p.Ready? && o < |c.cells| && Fits(op, c.cells[o].size)
      && s' == s.(threads := s.threads[t := Locking(o, op, 0)])
    case CompareAndSwap(_, succeeds) =>
      && p.Locking?
      && (var k := c.Lock(p.target);
          if succeeds then
            && s.locks[k] == p.seen
            && s' == s.(locks := s.locks[k := 1], threads := s.threads[t := Enter(p.target, p.op)])
          else
            s' == s.(threads := s.threads[t := Retrying(p.target, p.op, s.locks[k])]))
    case ResetOld(_) =>
      p.Retrying? && s' == s.(threads := s.threads[t := Locking(p.target, p.op, 0)])
    case Work(_) =>
      && (p.Comparing? || p.Reading? || p.Writing?)
      && s' == s.(
        memory := StoreByte(c.cells[p.target], p, s.memory),
        threads := s.threads[t := Advance(p, Slice(c, s.memory, p.target))])
    case Unlock(_) =>
      && p.Unlocking?
      && s' == s.(locks := s.locks[c.Lock(p.target) := 0],
                  threads := s.threads[t := Returning(p.target, p.op, p.result)])
    case Return(_) =>
      p.Returning? && s' == s.(threads := s.threads[t := Ready])
  }

  ghost predicate Init(c: Config, s: State) {
    && c.Valid() && |s.memory| == c.memorySize
    && s.locks == seq(SPINLOCK_COUNT, _ => 0)
    && forall t :: 0 <= t < |s.threads| ==> s.threads[t] == Ready
  }

  // ---- one thread under its lock ----

  /** What a thread inside knows of its object's bytes. */
  predicate Consistent(p: Thread, value: seq<byte>) {
    match p
    case Comparing(_, op, i) => op.CompareExchange? && i <= |value| && |op.expected| == |value| && value[..i] == op.expected[..i]
    case Reading(_, op, buffer) =>
      && !op.Store? && |buffer| <= |value| && buffer == value[..|buffer|]
      && (op.CompareExchange? ==> value != op.expected)
    case Writing(_, _, _, source, i) => |source| == |value| && i <= |value| && value[..i] == source[..i]
    case _ => true
  }

  /** The value and result the operation under way will end with. */
  function Final(p: Thread, value: seq<byte>): Outcome
    requires Inside(p)
  {
    match p
    case Comparing(_, op, _) => Apply(op, value)
    case Reading(_, op, _) => Apply(op, value)
    case Writing(_, _, result, source, _) => Outcome(source, result)
    case Unlocking(_, _, result) => Outcome(value, result)
  }

  /** Entering, the thread is set to end with the operation applied at once. */
  lemma EnterStarts(o: nat, op: Op, value: seq<byte>)
    requires Fits(op, |value|)
    ensures Inside(Enter(o, op)) && Consistent(Enter(o, op), value)
    ensures Final(Enter(o, op), value) == Apply(op, value)
  {}

  /** Each byte keeps it on course to the same end. */
  lemma AdvanceKeepsCourse(p: Thread, value: seq<byte>)
    requires (p.Comparing? || p.Reading? || p.Writing?) && Fits(p.op, |value|) && Consistent(p, value)
    ensures Inside(Advance(p, value)) && |Stored(p, value)| == |value|
    ensures Advance(p, value).target == p.target && Advance(p, value).op == p.op
    ensures Consistent(Advance(p, value), Stored(p, value))
    ensures Final(Advance(p, value), Stored(p, value)) == Final(p, value)
  {
    match p
    case Comparing(o, op, i) =>
      if i == |value| {
        assert value == value[..i] && op.expected == op.expected[..i];
      }
    case Reading(o, op, buffer) =>
      if |buffer| == |value| {
        assert buffer == value;
      }
    case Writing(o, op, result, source, i) =>
      if i == |source| {
        assert value == value[..i] && source == source[..i];
      }
  }

  // ---- the invariant ----

  ghost predicate Holds(c: Config, s: State, t: nat, k: nat)
    requires c.Valid()
  {
    t < |s.threads| && Inside(s.threads[t]) && s.threads[t].target < |c.cells| && c.Lock(s.threads[t].target) == k
  }

  /** A lock word is one exactly while one thread is inside. */
  ghost predicate Exclusive(c: Config, s: State)
    requires c.Valid()
  {
    && (forall k :: 0 <= k < |s.locks| ==> s.locks[k] == 0 || s.locks[k] == 1)
    && (forall t, k :: 0 <= k < |s.locks| && Holds(c, s, t, k) ==> s.locks[k] == 1)
    && (forall t, u, k :: Holds(c, s, t, k) && Holds(c, s, u, k) ==> t == u)
    && (forall k :: 0 <= k < |s.locks| && s.locks[k] == 1 ==> exists t :: Holds(c, s, t, k))
    && (forall t :: 0 <= t < |s.threads| && s.threads[t].Locking? ==> s.threads[t].seen == 0)
  }

  ghost predicate Coherent(c: Config, s: State)
    requires WellFormed(c, s)
  {
    forall t :: 0 <= t < |s.threads| && Inside(s.threads[t]) ==>
      Consistent(s.threads[t], Slice(c, s.memory, s.threads[t].target))
  }

  ghost predicate Inv(c: Config, s: State) {
    WellFormed(c, s) && Exclusive(c, s) && Coherent(c, s)
  }

  lemma InitEstablishesInv(c: Config, s: State)
    requires Init(c, s)
    ensures Inv(c, s)
  {
    hide LockForPointer;
    forall o | 0 <= o < |c.cells| ensures c.Lock(o) < SPINLOCK_COUNT {
      LockIsBits(c.width, c.cells[o].base);
    }
  }

  /** Two threads inside one object are one thread. */
  lemma AloneInside(c: Config, s: State, t: nat, u: nat)
    requires WellFormed(c, s) && Exclusive(c, s)
    requires t < |s.threads| && u < |s.threads| && Inside(s.threads[t]) && Inside(s.threads[u])
    requires s.threads[t].target == s.threads[u].target
    ensures t == u
  {
    hide LockForPointer;
    var k := c.Lock(s.threads[t].target);
    assert Holds(c, s, t, k) && Holds(c, s, u, k);
  }

  lemma SliceAfter(c: Config, p: Thread, memory: seq<byte>, o: nat)
    requires c.Valid() && |memory| == c.memorySize && o < |c.cells| && !p.Ready? && p.target < |c.cells|
    ensures Slice(c, StoreByte(c.cells[p.target], p, memory), o)
         == if o == p.target then Stored(p, Slice(c, memory, o)) else Slice(c, memory, o)
  {
    if o != p.target {
      assert Disjoint(c.cells[o], c.cells[p.target]);
    }
  }

  /** Who holds which lock after one thread has moved. */
  lemma HoldsAfter(c: Config, s: State, s': State, t: nat, p: Thread)
    requires c.Valid() && t < |s.threads| && s'.threads == s.threads[t := p]
    ensures forall u, k :: u != t ==> (Holds(c, s', u, k) <==> Holds(c, s, u, k))
    ensures forall k :: Holds(c, s', t, k) <==> Inside(p) && p.target < |c.cells| && c.Lock(p.target) == k
  {
    hide LockForPointer;
  }

  lemma StepKeepsWellFormed(c: Config, s: State, a: Action, s': State)
    requires Inv(c, s) && Step(c, s, a, s')
    ensures WellFormed(c, s')
  {
    hide LockForPointer;
  }

  /** Moves that neither enter nor leave a critical section. */
  lemma ExclusiveAfterMove(c: Config, s: State, s': State, t: nat, p: Thread)
    requires WellFormed(c, s) && Exclusive(c, s) && WellFormed(c, s') && t < |s.threads|
    requires s'.threads == s.threads[t := p] && s'.locks == s.locks
    requires Inside(p) <==> Inside(s.threads[t])
    requires Inside(p) ==> p.target == s.threads[t].target
    requires p.Locking? ==> p.seen == 0
    ensures Exclusive(c, s')
  {
    hide LockForPointer;
    HoldsAfter(c, s, s', t, p);
    assert forall k :: Holds(c, s', t, k) <==> Holds(c, s, t, k);
    hide Holds;
    assert forall u, k :: Holds(c, s', u, k) <==> Holds(c, s, u, k);
  }

  lemma ExclusiveAfterLock(c: Config, s: State, s': State, t: nat, p: Thread, k: nat)
    requires WellFormed(c, s) && Exclusive(c, s) && WellFormed(c, s') && t < |s.threads|
    requires !Inside(s.threads[t]) && Inside(p) && p.target < |c.cells| && c.Lock(p.target) == k && s.locks[k] == 0
    requires s'.threads == s.threads[t := p] && s'.locks == s.locks[k := 1]
    ensures Exclusive(c, s')
  {
    hide LockForPointer;
    HoldsAfter(c, s, s', t, p);
    assert Holds(c, s', t, k);
    forall j | 0 <= j < |s'.locks| && s'.locks[j] == 1 ensures exists u :: Holds(c, s', u, j) {
      if j != k {
        var u :| Holds(c, s, u, j);
        assert Holds(c, s', u, j);
      }
    }
  }

  lemma ExclusiveAfterUnlock(c: Config, s: State, s': State, t: nat, p: Thread, k: nat)
    requires WellFormed(c, s) && Exclusive(c, s) && WellFormed(c, s') && t < |s.threads|
    requires Holds(c, s, t, k) && p.Returning? && k < |s.locks|
    requires s'.threads == s.threads[t := p] && s'.locks == s.locks[k := 0]
    ensures Exclusive(c, s')
  {
    hide LockForPointer;
    HoldsAfter(c, s, s', t, p);
    forall j | 0 <= j < |s'.locks| && s'.locks[j] == 1 ensures exists u :: Holds(c, s', u, j) {
      var u :| Holds(c, s, u, j);
      assert Holds(c, s', u, j);
    }
  }

  lemma StepKeepsExclusive(c: Config, s: State, a: Action, s': State)
    requires Inv(c, s) && Step(c, s, a, s') && WellFormed(c, s')
    ensures Exclusive(c, s')
  {
    hide LockForPointer, Exclusive, Fits;
    var t, p, p' := a.thread, s.threads[a.thread], s'.threads[a.thread];
    match a
    case CompareAndSwap(_, true) =>
      LockWasFree(c, s, t);
      ExclusiveAfterLock(c, s, s', t, p', c.Lock(p.target));
    case Unlock(_) =>
      ExclusiveAfterUnlock(c, s, s', t, p', c.Lock(p.target));
    case Work(_) =>
      AdvanceKeepsCourse(p, Slice(c, s.memory, p.target));
      ExclusiveAfterMove(c, s, s', t, p');
    case _ =>
      ExclusiveAfterMove(c, s, s', t, p');
  }

  /** A compare-and-swap from the value it expects finds the lock free. */
  lemma LockWasFree(c: Config, s: State, t: nat)
    requires Inv(c, s) && t < |s.threads| && s.threads[t].Locking?
    ensures s.threads[t].seen == 0
  {}

  lemma StepKeepsCoherent(c: Config, s: State, a: Action, s': State)
    requires Inv(c, s) && Step(c, s, a, s') && WellFormed(c, s')
    ensures Coherent(c, s')
  {
    hide LockForPointer, Exclusive, Fits, Slice, Stored, StoreByte, Consistent, Advance;
    var t, p := a.thread, s.threads[a.thread];
    forall u | 0 <= u < |s'.threads| && Inside(s'.threads[u])
      ensures Consistent(s'.threads[u], Slice(c, s'.memory, s'.threads[u].target))
    {
      var o := s'.threads[u].target;
      if a.Work? {
        AdvanceKeepsCourse(p, Slice(c, s.memory, p.target));
        SliceAfter(c, p, s.memory, o);
        if u != t && o == p.target {
          AloneInside(c, s, t, u);
        }
      } else if u == t && a.CompareAndSwap? && a.succeeds {
        EnterStarts(p.target, p.op, Slice(c, s.memory, p.target));
      }
    }
  }

  lemma StepKeepsInv(c: Config, s: State, a: Action, s': State)
    requires Inv(c, s) && Step(c, s, a, s')
    ensures Inv(c, s')
  {
    hide WellFormed, Exclusive, Coherent, Step;
    StepKeepsWellFormed(c, s, a, s');
    StepKeepsExclusive(c, s, a, s');
    StepKeepsCoherent(c, s, a, s');
  }

  // ---- refinement of the atomic memory ----

  /** What a step is to a caller: calls and returns are visible as such, and the
      successful compare-and-swap is where the operation takes effect. */
  function Visible(s: State, a: Action): Label
    requires a.thread < |s.threads|
  {
    match a
    case Call(t, o, op) => Invoke(t, o, op)
    case CompareAndSwap(t, true) => Commit(t)
    case Return(t) =>
      if s.threads[t].Returning? then Respond(t, s.threads[t].result) else Internal
    case _ => Internal
  }

  /** A thread and its call: pending until it has the lock, done from then on
      with the outcome it is heading for. */
  ghost predicate Matches(p: Thread, status: Status, value: seq<byte>, goal: seq<byte>) {
    match p
    case Locking(o, op, _) => status == Pending(o, op)
    case Retrying(o, op, _) => status == Pending(o, op)
    case Returning(o, op, result) => status == Done(o, op, result)
    case Ready => status == Idle
    case _ => status == Done(p.target, p.op, Final(p, value).result) && goal == Final(p, value).value
  }

  ghost predicate Quiet(s: State, o: nat) {
    forall t :: 0 <= t < |s.threads| && Inside(s.threads[t]) ==> s.threads[t].target != o
  }

  /** The states of the atomic memory a state stands for. */
  ghost predicate Represents(c: Config, s: State, m: Memory)
    requires WellFormed(c, s)
  {
    && |m.calls| == |s.threads| && |m.values| == |c.cells|
    && (forall o :: 0 <= o < |c.cells| && Quiet(s, o) ==> m.values[o] == Slice(c, s.memory, o))
    && (forall t :: 0 <= t < |s.threads| ==>
        if s.threads[t].Ready? then m.calls[t] == Idle
        else Matches(s.threads[t], m.calls[t], Slice(c, s.memory, s.threads[t].target), m.values[s.threads[t].target]))
  }

  /** A quiet object after a step was quiet before, or has just been left. */
  lemma QuietBefore(s: State, s': State, t: nat, p: Thread, o: nat)
    requires t < |s.threads| && s'.threads == s.threads[t := p] && Quiet(s', o)
    requires !(Inside(s.threads[t]) && s.threads[t].target == o)
    ensures Quiet(s, o)
  {
    forall u | 0 <= u < |s.threads| && Inside(s.threads[u]) ensures s.threads[u].target != o {
      if u != t {
        assert s'.threads[u] == s.threads[u];
      }
    }
  }

  /** Steps that move no value: only thread t's status may change. */
  lemma RepresentsAfterMove(c: Config, s: State, s': State, m: Memory, t: nat, p: Thread, status: Status)
    requires Inv(c, s) && WellFormed(c, s') && Represents(c, s, m) && t < |s.threads|
    requires s'.threads == s.threads[t := p] && s'.memory == s.memory
    requires !Inside(p) && (!p.Ready? ==> p.target < |c.cells|)
    requires Inside(s.threads[t]) ==>
      m.values[s.threads[t].target] == Slice(c, s.memory, s.threads[t].target)
    requires if p.Ready? then status == Idle
      else Matches(p, status, Slice(c, s.memory, p.target), m.values[p.target])
    ensures Represents(c, s', m.(calls := m.calls[t := status]))
  {
    hide LockForPointer, Slice, Matches;
    forall o | 0 <= o < |c.cells| && Quiet(s', o) ensures m.values[o] == Slice(c, s'.memory, o) {
      if !(Inside(s.threads[t]) && s.threads[t].target == o) {
        QuietBefore(s, s', t, p, o);
      }
    }
  }

  /** Nobody is inside an object whose lock is free. */
  lemma QuietWhenFree(c: Config, s: State, o: nat)
    requires Inv(c, s) && o < |c.cells| && s.locks[c.Lock(o)] == 0
    ensures Quiet(s, o)
  {
    hide LockForPointer;
    forall t | 0 <= t < |s.threads| && Inside(s.threads[t]) ensures s.threads[t].target != o {
      assert Holds(c, s, t, c.Lock(s.threads[t].target));
    }
  }

  /** Taking the lock commits the operation. */
  lemma CommitRefines(c: Config, s: State, s': State, t: nat, m: Memory) returns (m': Memory)
    requires Inv(c, s) && Step(c, s, CompareAndSwap(t, true), s') && Inv(c, s') && Represents(c, s, m)
    ensures AtomicMemory.Step(c.Sizes(), m, Commit(t), m') && Represents(c, s', m')
  {
    hide LockForPointer, Slice, Apply, Fits, Exclusive, Coherent;
    var p := s.threads[t];
    var o, op := p.target, p.op;
    var value := Slice(c, s.memory, o);
    LockWasFree(c, s, t);
    QuietWhenFree(c, s, o);
    EnterStarts(o, op, value);
    var outcome := Apply(op, m.values[o]);
    m' := Memory(m.values[o := outcome.value],
                 m.calls[t := Done(o, op, outcome.result)],
                 m.history + [Event(t, o, op, outcome.result)]);
    var q := Enter(o, op);
    assert s'.threads[t] == q && q.target == o && q.op == op;
    forall o' | 0 <= o' < |c.cells| && Quiet(s', o') ensures m'.values[o'] == Slice(c, s'.memory, o') {
      assert o' != o by { assert Inside(s'.threads[t]); }
      QuietBefore(s, s', t, q, o');
    }
    assert Matches(q, m'.calls[t], value, m'.values[o]);
    forall u | 0 <= u < |s'.threads| && u != t && !s'.threads[u].Ready?
      ensures Matches(s'.threads[u], m'.calls[u], Slice(c, s'.memory, s'.threads[u].target), m'.values[s'.threads[u].target])
    {
      assert s'.threads[u] == s.threads[u] && m'.calls[u] == m.calls[u];
      if Inside(s.threads[u]) {
        assert s.threads[u].target != o;
      } else {
        MatchesOutside(s.threads[u], m.calls[u], Slice(c, s.memory, s.threads[u].target), m.values[s.threads[u].target],
                       Slice(c, s'.memory, s'.threads[u].target), m'.values[s'.threads[u].target]);
      }
    }
  }

  /** Outside its critical section a thread's status does not depend on values. */
  lemma MatchesOutside(p: Thread, status: Status, value: seq<byte>, goal: seq<byte>, value': seq<byte>,
                       goal': seq<byte>)
    requires !Inside(p) && Matches(p, status, value, goal)
    ensures Matches(p, status, value', goal')
  {}

  /** Copying and comparing under the lock changes nothing a caller can see. */
  lemma WorkRefines(c: Config, s: State, s': State, t: nat, m: Memory)
    requires Inv(c, s) && Step(c, s, Work(t), s') && Inv(c, s') && Represents(c, s, m)
    ensures Represents(c, s', m)
  {
    hide LockForPointer, Slice, Apply, Fits, Exclusive, Advance, Stored, StoreByte, Final, Consistent;
    var p, q := s.threads[t], s'.threads[t];
    AdvanceKeepsCourse(p, Slice(c, s.memory, p.target));
    forall o | 0 <= o < |c.cells| && Quiet(s', o) ensures m.values[o] == Slice(c, s'.memory, o) {
      assert o != p.target by { assert Inside(s'.threads[t]); }
      QuietBefore(s, s', t, q, o);
      SliceAfter(c, p, s.memory, o);
    }
    SliceAfter(c, p, s.memory, p.target);
    forall u | 0 <= u < |s'.threads| && u != t && !s'.threads[u].Ready?
      ensures Matches(s'.threads[u], m.calls[u], Slice(c, s'.memory, s'.threads[u].target), m.values[s'.threads[u].target])
    {
      var r := s.threads[u];
      assert s'.threads[u] == r;
      if Inside(r) {
        if r.target == p.target {
          AloneInside(c, s, t, u);
        }
        SliceAfter(c, p, s.memory, r.target);
      } else {
        MatchesOutside(r, m.calls[u], Slice(c, s.memory, r.target), m.values[r.target],
                       Slice(c, s'.memory, r.target), m.values[r.target]);
      }
    }
  }

  /** Every step of the lock table is a step of the atomic memory, or none. */
  lemma StepRefines(c: Config, s: State, a: Action, s': State, m: Memory) returns (m': Memory)
    requires Inv(c, s) && Step(c, s, a, s') && Inv(c, s') && Represents(c, s, m)
    ensures AtomicMemory.Step(c.Sizes(), m, Visible(s, a), m') && Represents(c, s', m')
  {
    hide LockForPointer, Slice, Apply, Fits, Exclusive, Coherent;
    var t, p, p' := a.thread, s.threads[a.thread], s'.threads[a.thread];
    match a
    case CompareAndSwap(_, true) =>
      m' := CommitRefines(c, s, s', t, m);
    case Work(_) =>
      WorkRefines(c, s, s', t, m);
      m' := m;
    case Call(_, o, op) =>
      m' := m.(calls := m.calls[t := Pending(o, op)]);
      RepresentsAfterMove(c, s, s', m, t, p', Pending(o, op));
    case Return(_) =>
      m' := m.(calls := m.calls[t := Idle]);
      RepresentsAfterMove(c, s, s', m, t, p', Idle);
    case _ =>
      m' := m;
      RepresentsAfterMove(c, s, s', m, t, p', m.calls[t]);
      assert m.calls[t := m.calls[t]] == m.calls;
  }

  // ---- whole runs ----

  ghost predicate Run(c: Config, states: seq<State>, actions: seq<Action>) {
    && |states| == |actions| + 1
    && Init(c, states[0])
    && forall i :: 0 <= i < |actions| ==> WellFormed(c, states[i]) && Step(c, states[i], actions[i], states[i + 1])
  }

  ghost predicate AtomicRun(sizes: seq<nat>, memories: seq<Memory>, labels: seq<Label>) {
    && |memories| == |labels| + 1
    && AtomicMemory.Init(sizes, memories[0])
    && forall i :: 0 <= i < |labels| ==> AtomicMemory.Step(sizes, memories[i], labels[i], memories[i + 1])
  }

  /** The run as callers see it. */
  function Trace(states: seq<State>, actions: seq<Action>): (labels: seq<Label>)
    requires |states| >= |actions| && forall i :: 0 <= i < |actions| ==> actions[i].thread < |states[i].threads|
    ensures |labels| == |actions|
    ensures forall i :: 0 <= i < |actions| ==> labels[i] == Visible(states[i], actions[i])
  {
    if actions == [] then []
    else
      var n := |actions| - 1;
      Trace(states[..n], actions[..n]) + [Visible(states[n], actions[n])]
  }

  /** The memory the locked objects start as. */
  function InitialMemory(c: Config, s: State): Memory
    requires c.Valid() && |s.memory| == c.memorySize
  {
    Memory(seq(|c.cells|, o requires 0 <= o < |c.cells| => Slice(c, s.memory, o)), seq(|s.threads|, _ => Idle), [])
  }

  lemma InitialRepresents(c: Config, s: State)
    requires Init(c, s)
    ensures Inv(c, s) && Represents(c, s, InitialMemory(c, s))
    ensures AtomicMemory.Init(c.Sizes(), InitialMemory(c, s))
  {
    hide LockForPointer, Slice;
    InitEstablishesInv(c, s);
  }

  /** In every reachable state the invariant holds. */
  lemma {:induction false} ReachableInv(c: Config, states: seq<State>, actions: seq<Action>)
    requires Run(c, states, actions)
    ensures forall i :: 0 <= i < |states| ==> Inv(c, states[i])
  {
    hide Inv, Init, Step;
    InitEstablishesInv(c, states[0]);
    var n := 0;
    while n < |actions|
      invariant 0 <= n <= |actions|
      invariant forall i :: 0 <= i <= n ==> Inv(c, states[i])
    {
      StepKeepsInv(c, states[n], actions[n], states[n + 1]);
      n := n + 1;
    }
  }

  /** A run of the atomic memory that matches a run of the lock table state by
      state, with the same calls, returns and results. */
  ghost predicate Simulation(c: Config, states: seq<State>, actions: seq<Action>, memories: seq<Memory>) {
    && |states| == |memories| == |actions| + 1
    && (forall i :: 0 <= i < |actions| ==> actions[i].thread < |states[i].threads|)
    && AtomicRun(c.Sizes(), memories, Trace(states, actions))
    && (forall i :: 0 <= i < |states| ==> WellFormed(c, states[i]) && Represents(c, states[i], memories[i]))
    && memories[0] == InitialMemory(c, states[0])
  }

  /** Linearizability: every run of the lock table looks to its callers like a
      run of the atomic memory, with each operation taking effect between its call
      and its return. */
  lemma {:induction false} Linearizable(c: Config, states: seq<State>,
                                        actions: seq<Action>) returns (memories: seq<Memory>)
    requires Run(c, states, actions)
    ensures Simulation(c, states, actions, memories)
  {
    hide Inv, Represents, Slice, LockForPointer, AtomicMemory.Step, AtomicMemory.Init;
    ReachableInv(c, states, actions);
    InvIsWellFormed(c, states);
    ActionsHaveThreads(c, states, actions);
    InitialRepresents(c, states[0]);
    memories := [InitialMemory(c, states[0])];
    var n := 0;
    while n < |actions|
      invariant 0 <= n <= |actions| && |memories| == n + 1
      invariant memories[0] == InitialMemory(c, states[0])
      invariant forall i :: 0 <= i <= n ==> Represents(c, states[i], memories[i])
      invariant forall i :: 0 <= i < n ==> AtomicMemory.Step(c.Sizes(), memories[i], Visible(states[i], actions[i]), memories[i + 1])
    {
      var m' := StepRefines(c, states[n], actions[n], states[n + 1], memories[n]);
      memories := memories + [m'];
      n := n + 1;
    }
  }

  lemma ActionsHaveThreads(c: Config, states: seq<State>, actions: seq<Action>)
    requires Run(c, states, actions)
    ensures forall i :: 0 <= i < |actions| ==> actions[i].thread < |states[i].threads|
  {
    forall i | 0 <= i < |actions| ensures actions[i].thread < |states[i].threads| {
      assert Step(c, states[i], actions[i], states[i + 1]);
    }
  }

  lemma InvIsWellFormed(c: Config, states: seq<State>)
    requires forall i :: 0 <= i < |states| ==> Inv(c, states[i])
    ensures forall i :: 0 <= i < |states| ==> WellFormed(c, states[i])
  {}

  /** A legal history that ends in the bytes of every object not being worked on. */
  ghost predicate Explains(c: Config, first: State, last: State, history: seq<Event>) {
    && c.Valid() && |first.memory| == |last.memory| == c.memorySize
    && (var initial := InitialMemory(c, first).values;
        && Sized(c.Sizes(), initial) && Sound(c.Sizes(), history) && Legal(initial, history)
        && forall o :: 0 <= o < |c.cells| && Quiet(last, o) ==> Slice(c, last.memory, o) == Replay(initial, history)[o])
  }

  /** The atomic memory's invariant all along a simulated run. */
  lemma SimulationInv(c: Config, states: seq<State>, actions: seq<Action>, memories: seq<Memory>, i: nat)
    requires Simulation(c, states, actions, memories) && i < |states|
    ensures AtomicMemory.Inv(c.Sizes(), memories[0].values, memories[i])
  {
    hide WellFormed, Represents, LockForPointer, AtomicMemory.Step, AtomicMemory.Init, AtomicMemory.Inv, InitialMemory;
    AtomicMemory.InitEstablishes(c.Sizes(), memories[0]);
    var n := 0;
    while n < i
      invariant 0 <= n <= i
      invariant AtomicMemory.Inv(c.Sizes(), memories[0].values, memories[n])
    {
      AtomicMemory.StepKeepsInv(c.Sizes(), memories[0].values, memories[n], Trace(states, actions)[n], memories[n + 1]);
      n := n + 1;
    }
  }

  /** So the history of every run is legal and, whenever no thread is inside an
      object, the object's bytes are the replay of that history. */
  lemma HistoryExplainsMemory(c: Config, states: seq<State>, actions: seq<Action>, memories: seq<Memory>, i: nat)
    requires Simulation(c, states, actions, memories) && i < |states|
    ensures Explains(c, states[0], states[i], memories[i].history)
  {
    hide LockForPointer, AtomicRun, Trace, Quiet, Slice, Legal, Replay, Sized, Sound;
    SimulationInv(c, states, actions, memories, i);
    QuietBytes(c, states[i], memories[i], memories[0].values);
  }

  lemma QuietBytes(c: Config, s: State, m: Memory, initial: seq<seq<byte>>)
    requires WellFormed(c, s) && Represents(c, s, m) && AtomicMemory.Inv(c.Sizes(), initial, m)
    ensures Sized(c.Sizes(), initial) && Sound(c.Sizes(), m.history) && Legal(initial, m.history)
    ensures |Replay(initial, m.history)| == |c.cells|
    ensures forall o :: 0 <= o < |c.cells| && Quiet(s, o) ==> Slice(c, s.memory, o) == Replay(initial, m.history)[o]
  {}

  // ---- the history is that of the calls made ----

  /** A call as it takes the lock: thread, object and operation. */
  datatype Taken = Taken(thread: nat, target: nat, op: Op)

  function TakenBy(s: State, a: Action): seq<Taken> {
    if a.CompareAndSwap? && a.succeeds && a.thread < |s.threads| && s.threads[a.thread].Locking?
    then [Taken(a.thread, s.threads[a.thread].target, s.threads[a.thread].op)]
    else []
  }

  /** The calls of a run in the order in which they took their locks. */
  function LockOrder(states: seq<State>, actions: seq<Action>): seq<Taken>
    requires |states| >= |actions|
  {
    if actions == [] then []
    else
      var n := |actions| - 1;
      LockOrder(states[..n], actions[..n]) + TakenBy(states[n], actions[n])
  }

  function WithoutResults(history: seq<Event>): (calls: seq<Taken>)
    ensures |calls| == |history|
  {
    seq(|history|, i requires 0 <= i < |history| => Taken(history[i].thread, history[i].target, history[i].op))
  }

  lemma StepTakes(c: Config, s: State, a: Action, s': State, m: Memory, m': Memory)
    requires WellFormed(c, s) && Step(c, s, a, s') && Represents(c, s, m)
    requires AtomicMemory.Step(c.Sizes(), m, Visible(s, a), m')
    ensures WithoutResults(m'.history) == WithoutResults(m.history) + TakenBy(s, a)
  {
    hide LockForPointer, Slice, Apply, Fits;
    match a
    case CompareAndSwap(t, true) =>
      assert Matches(s.threads[t], m.calls[t], Slice(c, s.memory, s.threads[t].target), m.values[s.threads[t].target]);
    case _ =>
  }

  lemma LockOrderExtends(states: seq<State>, actions: seq<Action>, n: nat)
    requires n < |actions| <= |states|
    ensures LockOrder(states[..n + 1], actions[..n + 1])
         == LockOrder(states[..n], actions[..n]) + TakenBy(states[n], actions[n])
  {
    assert actions[..n + 1][..n] == actions[..n] && states[..n + 1][..n] == states[..n];
  }

  /** All along a run the history consists of the calls so far, in lock order. */
  lemma HistoryIsLockOrder(c: Config, states: seq<State>, actions: seq<Action>, memories: seq<Memory>, i: nat)
    requires Run(c, states, actions) && Simulation(c, states, actions, memories) && i <= |actions|
    ensures WithoutResults(memories[i].history) == LockOrder(states[..i], actions[..i])
  {
    hide Represents, Slice, LockForPointer, AtomicMemory.Step, AtomicMemory.Init, Step, Init, LockOrder, WithoutResults, TakenBy;
    assert states[..0] == [] && actions[..0] == [];
    NothingTaken(c, memories[0]);
    var n := 0;
    while n < i
      invariant 0 <= n <= i
      invariant WithoutResults(memories[n].history) == LockOrder(states[..n], actions[..n])
    {
      StepTakes(c, states[n], actions[n], states[n + 1], memories[n], memories[n + 1]);
      LockOrderExtends(states, actions, n);
      n := n + 1;
    }
  }

  lemma NothingTaken(c: Config, m: Memory)
    requires AtomicMemory.Init(c.Sizes(), m)
    ensures WithoutResults(m.history) == [] == LockOrder([], [])
  {}

  // ---- mutual exclusion and progress ----

  /** In every reachable state a lock word is one exactly when a thread is inside
      one of its objects; that thread is the only one, and holds no other lock. */
  lemma LockWordMeaning(c: Config, states: seq<State>, actions: seq<Action>, i: nat, k: nat)
    requires Run(c, states, actions) && i < |states| && k < SPINLOCK_COUNT
    ensures |states[i].locks| == SPINLOCK_COUNT && (states[i].locks[k] == 0 || states[i].locks[k] == 1)
    ensures states[i].locks[k] == 1 <==> exists t :: Holds(c, states[i], t, k)
    ensures forall t, u :: Holds(c, states[i], t, k) && Holds(c, states[i], u, k) ==> t == u
    ensures forall t, j :: Holds(c, states[i], t, k) && Holds(c, states[i], t, j) ==> j == k
  {
    hide LockForPointer;
    ReachableInv(c, states, actions);
  }

  /** How many more steps of its own a thread needs to give its lock back. */
  function StepsLeft(p: Thread, size: nat): int {
    match p
    case Comparing(_, _, i) => 3 * size + 6 - i
    case Reading(_, _, buffer) => 2 * size + 4 - |buffer|
    case Writing(_, _, _, source, i) => |source| + 2 - i
    case Unlocking(_, _, _) => 1
    case _ => 0
  }

  /** A thread that has a lock is at most 3 * size + 6 of its own steps away from
      releasing it, whatever the others do. */
  lemma CriticalSectionEnds(c: Config, s: State, a: Action, s': State)
    requires Inv(c, s) && Step(c, s, a, s') && Inside(s.threads[a.thread])
    ensures var t := a.thread; var size := c.cells[s.threads[t].target].size;
      && 0 < StepsLeft(s.threads[t], size) <= 3 * size + 6
      && 0 <= StepsLeft(s'.threads[t], size) < StepsLeft(s.threads[t], size)
  {
    hide LockForPointer, Slice;
  }

  // ---- progress ----

  ghost predicate Extends(c: Config, states: seq<State>, actions: seq<Action>, more: seq<State>,
                          moreActions: seq<Action>) {
    Run(c, more, moreActions) && states < more && actions < moreActions
  }

  function Last<T>(s: seq<T>): T
    requires s != []
  {
    s[|s| - 1]
  }

  lemma OneStepMore(c: Config, states: seq<State>, actions: seq<Action>, a: Action, s': State)
    requires Run(c, states, actions) && WellFormed(c, Last(states)) && Step(c, Last(states), a, s')
    ensures Extends(c, states, actions, states + [s'], actions + [a])
  {
    hide WellFormed, Init, Step;
    var all, steps := states + [s'], actions + [a];
    forall i | 0 <= i < |steps| ensures WellFormed(c, all[i]) && Step(c, all[i], steps[i], all[i + 1]) {
      if i < |actions| {
        assert all[i] == states[i] && all[i + 1] == states[i + 1] && steps[i] == actions[i];
      }
    }
  }

  lemma LastInv(c: Config, states: seq<State>, actions: seq<Action>)
    requires Run(c, states, actions)
    ensures states != [] && Inv(c, Last(states))
  {
    hide Inv;
    ReachableInv(c, states, actions);
  }

  /** The next step of a thread that has taken its lock. */
  lemma InsideMoves(c: Config, s: State, t: nat) returns (a: Action, s': State)
    requires Inv(c, s) && t < |s.threads| && Inside(s.threads[t])
    ensures a.thread == t && Step(c, s, a, s') && |s'.threads| == |s.threads|
    ensures Inside(s'.threads[t]) || s'.threads[t].Returning?
    ensures s'.threads[t].target == s.threads[t].target
    ensures forall u :: 0 <= u < |s.threads| && u != t ==> s'.threads[u] == s.threads[u]
  {
    hide LockForPointer, Slice;
    var p := s.threads[t];
    if p.Unlocking? {
      a := Unlock(t);
      s' := s.(locks := s.locks[c.Lock(p.target) := 0], threads := s.threads[t := Returning(p.target, p.op, p.result)]);
    } else {
      a := Work(t);
      AdvanceKeepsCourse(p, Slice(c, s.memory, p.target));
      s' := s.(memory := StoreByte(c.cells[p.target], p, s.memory),
               threads := s.threads[t := Advance(p, Slice(c, s.memory, p.target))]);
    }
  }

  /** A thread that has taken its lock can finish its call alone. */
  lemma {:induction false} FinishAlone(c: Config, states: seq<State>, actions: seq<Action>, t: nat)
    returns (more: seq<State>, moreActions: seq<Action>)
    requires Run(c, states, actions) && t < |Last(states).threads|
    requires Inside(Last(states).threads[t]) || Last(states).threads[t].Returning?
    requires Last(states).threads[t].target < |c.cells|
    ensures Extends(c, states, actions, more, moreActions) && Last(moreActions) == Return(t)
    ensures |Last(more).threads| == |Last(states).threads| && Last(more).threads[t] == Ready
    ensures forall u :: 0 <= u < |Last(more).threads| && u != t ==> Last(more).threads[u] == Last(states).threads[u]
    decreases StepsLeft(Last(states).threads[t], c.cells[Last(states).threads[t].target].size)
  {
    hide Run, Inv, Step, WellFormed;
    LastInv(c, states, actions);
    var s := Last(states);
    LastWellFormed(c, s);
    if s.threads[t].Returning? {
      var s' := ReturnMoves(c, s, t);
      OneStepMore(c, states, actions, Return(t), s');
      more, moreActions := states + [s'], actions + [Return(t)];
    } else {
      var a, s' := InsideMoves(c, s, t);
      CriticalSectionEnds(c, s, a, s');
      OneStepMore(c, states, actions, a, s');
      more, moreActions := FinishAlone(c, states + [s'], actions + [a], t);
    }
  }

  lemma LastWellFormed(c: Config, s: State)
    requires Inv(c, s)
    ensures WellFormed(c, s)
  {}

  lemma ReturnMoves(c: Config, s: State, t: nat) returns (s': State)
    requires WellFormed(c, s) && t < |s.threads| && s.threads[t].Returning?
    ensures Step(c, s, Return(t), s') && |s'.threads| == |s.threads| && s'.threads[t] == Ready
    ensures forall u :: 0 <= u < |s.threads| && u != t ==> s'.threads[u] == s.threads[u]
  {
    s' := s.(threads := s.threads[t := Ready]);
  }

  /** When the only thread that held a lock is done, the lock is free. */
  lemma FreeAfterwards(c: Config, s: State, s': State, u: nat, k: nat)
    requires Inv(c, s) && Inv(c, s') && Holds(c, s, u, k) && k < SPINLOCK_COUNT
    requires |s'.threads| == |s.threads| && s'.threads[u] == Ready
    requires forall v :: 0 <= v < |s.threads| && v != u ==> s'.threads[v] == s.threads[v]
    ensures s'.locks[k] == 0
  {
    hide LockForPointer;
    forall v ensures !Holds(c, s', v, k) {
      assert Holds(c, s', v, k) ==> Holds(c, s, v, k);
    }
  }

  /** A thread that finds its lock free can take it and finish. */
  lemma TakeAndFinish(c: Config, states: seq<State>, actions: seq<Action>, t: nat)
    returns (more: seq<State>, moreActions: seq<Action>)
    requires Run(c, states, actions) && WellFormed(c, Last(states))
    requires t < |Last(states).threads| && Last(states).threads[t].Locking?
    requires Last(states).locks[c.Lock(Last(states).threads[t].target)] == 0
    ensures Extends(c, states, actions, more, moreActions) && Last(moreActions) == Return(t)
  {
    hide LockForPointer, Run;
    LastInv(c, states, actions);
    var s := Last(states);
    LockWasFree(c, s, t);
    var p := s.threads[t];
    var s' := s.(locks := s.locks[c.Lock(p.target) := 1], threads := s.threads[t := Enter(p.target, p.op)]);
    EnterStarts(p.target, p.op, Slice(c, s.memory, p.target));
    OneStepMore(c, states, actions, CompareAndSwap(t, true), s');
    more, moreActions := FinishAlone(c, states + [s'], actions + [CompareAndSwap(t, true)], t);
  }

  lemma HolderExists(c: Config, s: State, k: nat) returns (u: nat)
    requires Inv(c, s) && k < SPINLOCK_COUNT && s.locks[k] != 0
    ensures Holds(c, s, u, k)
  {
    u :| Holds(c, s, u, k);
  }

  lemma WaitAndFinish(c: Config, states: seq<State>, actions: seq<Action>, t: nat)
    returns (more: seq<State>, moreActions: seq<Action>)
    requires Run(c, states, actions) && WellFormed(c, Last(states))
    requires t < |Last(states).threads| && Last(states).threads[t].Locking?
    ensures Extends(c, states, actions, more, moreActions) && Last(moreActions) == Return(t)
  {
    hide LockForPointer, Run, Inv, Slice;
    LastInv(c, states, actions);
    var s := Last(states);
    var k := c.Lock(s.threads[t].target);
    if s.locks[k] == 0 {
      more, moreActions := TakeAndFinish(c, states, actions, t);
    } else {
      var u := HolderExists(c, s, k);
      more, moreActions := FinishAlone(c, states, actions, u);
      LastInv(c, more, moreActions);
      LastWellFormed(c, Last(more));
      FreeAfterwards(c, s, Last(more), u, k);
      more, moreActions := TakeAndFinish(c, more, moreActions, t);
    }
  }

  /** No run is stuck: from any reachable state any unfinished call can be brought
      to its return by finitely many steps. */
  lemma NoDeadlock(c: Config, states: seq<State>, actions: seq<Action>, t: nat)
    returns (more: seq<State>, moreActions: seq<Action>)
    requires Run(c, states, actions) && t < |Last(states).threads| && !Last(states).threads[t].Ready?
    ensures Extends(c, states, actions, more, moreActions) && Last(moreActions) == Return(t)
  {
    hide LockForPointer, Run, Slice;
    LastInv(c, states, actions);
    var s := Last(states);
    var p := s.threads[t];
    if p.Retrying? {
      var s' := s.(threads := s.threads[t := Locking(p.target, p.op, 0)]);
      OneStepMore(c, states, actions, ResetOld(t), s');
      LastInv(c, states + [s'], actions + [ResetOld(t)]);
      more, moreActions := WaitAndFinish(c, states + [s'], actions + [ResetOld(t)], t);
    } else if p.Locking? {
      more, moreActions := WaitAndFinish(c, states, actions, t);
    } else {
      more, moreActions := FinishAlone(c, states, actions, t);
    }
  }

  /** A thread outside may at any time call any operation whose operands are as large
      as the object, or for a read-modify-write operation a number of that size. */
  lemma AnyCall(c: Config, states: seq<State>, actions: seq<Action>, t: nat, o: nat, op: Op)
    requires Run(c, states, actions) && t < |Last(states).threads| && Last(states).threads[t].Ready? && o < |c.cells|
    requires var size := c.cells[o].size;
      match op
      case Load => true
      case Store(v) => |v| == size
      case Exchange(v) => |v| == size
      case CompareExchange(e, d) => |e| == |d| == size
      case Fetch(_, x) => x < B.Pow2(8 * size)
    ensures var s := Last(states);
      Extends(c, states, actions, states + [s.(threads := s.threads[t := Locking(o, op, 0)])], actions + [Call(t, o, op)])
  {
    hide LockForPointer, Run, Slice;
    LastInv(c, states, actions);
    var s := Last(states);
    OneStepMore(c, states, actions, Call(t, o, op), s.(threads := s.threads[t := Locking(o, op, 0)]));
  }

  /** How many calls have taken their locks before step i. */
  function TakenBefore(states: seq<State>, actions: seq<Action>, i: nat): nat
    requires i <= |actions| <= |states|
  {
    |LockOrder(states[..i], actions[..i])|
  }

  /** What each call returns is the result of the last event its thread had in the
      history when it returned, an event for the object and operation of the call. */
  ghost predicate ResultsExplained(states: seq<State>, actions: seq<Action>, history: seq<Event>)
    requires |states| >= |actions|
  {
    forall i :: 0 <= i < |actions| && actions[i].Return? ==>
      && actions[i].thread < |states[i].threads| && states[i].threads[actions[i].thread].Returning?
      && TakenBefore(states, actions, i) <= |history|
      && (var t := actions[i].thread; var p := states[i].threads[t];
          LastOf(history[..TakenBefore(states, actions, i)], t) == [Event(t, p.target, p.op, p.result)])
  }

  lemma StepExtendsHistory(sizes: seq<nat>, m: Memory, l: Label, m': Memory)
    requires AtomicMemory.Step(sizes, m, l, m')
    ensures m.history <= m'.history
  {}

  /** Earlier histories are beginnings of the last one. */
  lemma {:induction false} HistoryGrows(c: Config, states: seq<State>, actions: seq<Action>, memories: seq<Memory>, i: nat, j: nat)
    requires Simulation(c, states, actions, memories) && i <= j < |memories|
    ensures memories[i].history <= memories[j].history
  {
    hide WellFormed, Represents, LockForPointer, AtomicMemory.Step, AtomicMemory.Init, InitialMemory;
    var n := i;
    while n < j
      invariant i <= n <= j && memories[i].history <= memories[n].history
    {
      StepExtendsHistory(c.Sizes(), memories[n], Trace(states, actions)[n], memories[n + 1]);
      n := n + 1;
    }
  }

  /** A thread about to return has the result of its last event. */
  lemma ReturnExplained(c: Config, s: State, m: Memory, initial: seq<seq<byte>>, t: nat)
    requires WellFormed(c, s) && Represents(c, s, m) && AtomicMemory.Inv(c.Sizes(), initial, m)
    requires t < |s.threads| && s.threads[t].Returning?
    ensures LastOf(m.history, t) == [Event(t, s.threads[t].target, s.threads[t].op, s.threads[t].result)]
  {
    hide LockForPointer, Slice, Legal, Replay, Sound, Sized;
    assert Matches(s.threads[t], m.calls[t], Slice(c, s.memory, s.threads[t].target), m.values[s.threads[t].target]);
  }

  lemma ReturnPlace(c: Config, s: State, a: Action, s': State)
    requires WellFormed(c, s) && Step(c, s, a, s') && a.Return?
    ensures a.thread < |s.threads| && s.threads[a.thread].Returning?
  {}

  lemma ReturnsExplained(c: Config, states: seq<State>, actions: seq<Action>, memories: seq<Memory>, i: nat, t: nat)
    requires Run(c, states, actions) && Simulation(c, states, actions, memories)
    requires i < |actions| && actions[i] == Return(t)
    ensures t < |states[i].threads| && states[i].threads[t].Returning?
    ensures var n := TakenBefore(states, actions, i); var p := states[i].threads[t];
      && n <= |memories[|actions|].history|
      && LastOf(memories[|actions|].history[..n], t) == [Event(t, p.target, p.op, p.result)]
  {
    hide LockForPointer, Slice, Represents, WellFormed, LockOrder, AtomicMemory.Inv, AtomicRun, Trace, LastOf;
    ReturnPlace(c, states[i], actions[i], states[i + 1]);
    SimulationInv(c, states, actions, memories, i);
    HistoryIsLockOrder(c, states, actions, memories, i);
    HistoryGrows(c, states, actions, memories, i, |actions|);
    var n := TakenBefore(states, actions, i);
    assert |WithoutResults(memories[i].history)| == n;
    assert memories[|actions|].history[..n] == memories[i].history;
    ReturnExplained(c, states[i], memories[i], memories[0].values, t);
  }

  /** Every run has one sequential history: its calls in lock order, explaining all
      results and all memory not being worked on. */
  lemma RunHasHistory(c: Config, states: seq<State>, actions: seq<Action>) returns (history: seq<Event>)
    requires Run(c, states, actions)
    ensures Explains(c, states[0], states[|states| - 1], history)
    ensures WithoutResults(history) == LockOrder(states[..|actions|], actions)
    ensures ResultsExplained(states, actions, history)
  {
    hide Run, Explains, Simulation, LockOrder, WithoutResults, TakenBefore;
    var memories := Linearizable(c, states, actions);
    assert |states| == |memories| == |actions| + 1 by { SimulationLengths(c, states, actions, memories); }
    HistoryExplainsMemory(c, states, actions, memories, |states| - 1);
    HistoryIsLockOrder(c, states, actions, memories, |actions|);
    assert actions[..|actions|] == actions;
    history := memories[|states| - 1].history;
    forall i | 0 <= i < |actions| && actions[i].Return?
      ensures actions[i].thread < |states[i].threads| && states[i].threads[actions[i].thread].Returning?
      ensures TakenBefore(states, actions, i) <= |history|
      ensures var t := actions[i].thread; var p := states[i].threads[t];
        LastOf(history[..TakenBefore(states, actions, i)], t) == [Event(t, p.target, p.op, p.result)]
    {
      ReturnsExplained(c, states, actions, memories, i, actions[i].thread);
    }
  }

  lemma SimulationLengths(c: Config, states: seq<State>, actions: seq<Action>, memories: seq<Memory>)
    requires Simulation(c, states, actions, memories)
    ensures |states| == |memories| == |actions| + 1
  {}

  // ---- conservation ----

  predicate Counting(op: Op) { op.Load? || (op.Fetch? && (op.rmw == Add || op.rmw == Sub)) }

  /** Every call made on object o is an addition, a subtraction or a load. */
  predicate CallsCount(actions: seq<Action>, o: nat) {
    forall i :: 0 <= i < |actions| && actions[i].Call? && actions[i].target == o ==> Counting(actions[i].op)
  }

  /** What a call adds to the number in object o. */
  function Amount(call: Taken, o: nat): int {
    if call.target == o && call.op.Fetch? && call.op.rmw == Add then call.op.operand
    else if call.target == o && call.op.Fetch? && call.op.rmw == Sub then 0 - call.op.operand
    else 0
  }

  function Sum(calls: seq<Taken>, o: nat): int {
    if calls == [] then 0 else Sum(calls[..|calls| - 1], o) + Amount(calls[|calls| - 1], o)
  }

  lemma {:induction false} SumOfHistory(history: seq<Event>, o: nat)
    ensures Sum(WithoutResults(history), o) == Total(history, o)
  {
    if history != [] {
      var n := |history| - 1;
      SumOfHistory(history[..n], o);
      assert WithoutResults(history)[..n] == WithoutResults(history[..n]);
    }
  }

  ghost predicate ThreadsCount(s: State, o: nat) {
    forall t :: 0 <= t < |s.threads| && !s.threads[t].Ready? && s.threads[t].target == o ==> Counting(s.threads[t].op)
  }

  lemma StepKeepsThreadsCount(c: Config, s: State, a: Action, s': State, o: nat)
    requires WellFormed(c, s) && Step(c, s, a, s') && ThreadsCount(s, o)
    requires a.Call? && a.target == o ==> Counting(a.op)
    ensures ThreadsCount(s', o)
    ensures forall i :: 0 <= i < |TakenBy(s, a)| && TakenBy(s, a)[i].target == o ==> Counting(TakenBy(s, a)[i].op)
  {
    hide LockForPointer, Slice, Counting, Fits;
    var t, p := a.thread, s.threads[a.thread];
    assert s'.threads == s.threads[t := s'.threads[t]];
    assert s'.threads[t].Ready? || a.Call? || (s'.threads[t].target == p.target && s'.threads[t].op == p.op);
  }

  predicate TakenCount(calls: seq<Taken>, o: nat) {
    forall i :: 0 <= i < |calls| && calls[i].target == o ==> Counting(calls[i].op)
  }

  lemma {:induction false} LockOrderCounts(c: Config, states: seq<State>, actions: seq<Action>, o: nat)
    requires Run(c, states, actions) && CallsCount(actions, o)
    ensures TakenCount(LockOrder(states[..|actions|], actions), o)
  {
    hide WellFormed, Step, TakenBy, LockOrder, Counting;
    NothingCounted(states[0], o);
    assert states[..0] == [] && actions[..0] == [];
    var n := 0;
    while n < |actions|
      invariant 0 <= n <= |actions|
      invariant ThreadsCount(states[n], o) && TakenCount(LockOrder(states[..n], actions[..n]), o)
    {
      StepKeepsThreadsCount(c, states[n], actions[n], states[n + 1], o);
      LockOrderExtends(states, actions, n);
      n := n + 1;
    }
    assert actions[..|actions|] == actions;
  }

  lemma NothingCounted(s: State, o: nat)
    requires forall t :: 0 <= t < |s.threads| ==> s.threads[t] == Ready
    ensures ThreadsCount(s, o) && TakenCount(LockOrder([], []), o)
  {}

  lemma HistoryCounts(history: seq<Event>, o: nat)
    requires TakenCount(WithoutResults(history), o)
    ensures OnlyCounts(history, o)
  {
    forall i | 0 <= i < |history| && history[i].target == o ensures Counting(history[i].op) {
      assert WithoutResults(history)[i].target == o;
    }
  }

  /** No update is lost: in every run in which an object is only added to,
      subtracted from and read, its number, whenever nobody is inside it, is the
      first one plus all additions minus all subtractions that took their lock,
      modulo 2^(8 size). */
  lemma NoUpdateLost(c: Config, states: seq<State>, actions: seq<Action>, o: nat)
    requires Run(c, states, actions) && o < |c.cells| && CallsCount(actions, o)
    requires states != [] && Quiet(Last(states), o)
    ensures c.Valid() && |states[0].memory| == |Last(states).memory| == c.memorySize
    ensures Number(Slice(c, Last(states).memory, o))
         == (Number(Slice(c, states[0].memory, o)) + Sum(LockOrder(states[..|actions|], actions), o)) % Radix(c.cells[o].size)
  {
    hide Slice, LockForPointer, Legal, Replay, OnlyCounts, Quiet, LockOrder, WithoutResults, Total, Sum, TakenCount;
    var history := RunHasHistory(c, states, actions);
    LockOrderCounts(c, states, actions, o);
    HistoryCounts(history, o);
    SumOfHistory(history, o);
    Conservation(c.Sizes(), InitialMemory(c, states[0]).values, history, o);
  }
}
