/** One thread in emutls.c: its steps through __emutls_get_address and through the
    key's destructor, one memory access at a time, over a byte memory in which its
    table lies as well, and what they keep. */
module TlsThread {
  import opened Arithmetic
  import opened Bits
  import opened Bytes
  import opened Counting
  import opened EmuMemory

  /** The variables of the program, and EMUTLS_SKIP_DESTRUCTOR_ROUNDS. */
  datatype Config = Config(controls: seq<Control>, rounds: nat) {
    predicate Valid() {
      && |controls| < 0x100_0000_0000_0000 && rounds < 0x1_0000_0000_0000_0000
      && forall k :: 0 <= k < |controls| ==> ControlOk(controls[k])
    }
  }

  /** Where a thread stands in __emutls_get_address or in the key's destructor.
      `first` tells malloc from realloc, `made` that this call made the object. */
  datatype Pc =
    | Idle
    | Indexing(control: nat)
    | Fetching(control: nat, index: nat)
    | NewTable(control: nat, index: nat)
    | Growing(control: nat, index: nat)
    | Clearing(control: nat, index: nat, q: nat, size: nat, next: nat, first: bool)
    | Marking(control: nat, index: nat, q: nat, size: nat)
    | Sizing(control: nat, index: nat, q: nat, size: nat, first: bool)
    | Publishing(control: nat, index: nat, q: nat, size: nat, first: bool)
    | Looking(control: nat, index: nat)
    | Allocating(control: nat, index: nat)
    | Linking(control: nat, index: nat, q: nat)
    | Filling(control: nat, index: nat, q: nat, p: nat, n: nat)
    | Setting(control: nat, index: nat, q: nat, p: nat)
    | Reading(control: nat, index: nat, made: bool)
    | Returning(control: nat, index: nat, p: nat, made: bool)
    | Destroying(base: nat)
    | Restoring(base: nat)
    | Shutting(base: nat, next: nat)
    | FreeingTable(base: nat)

  /** A thread: the value of the pthread key, null being zero, and its place. */
  datatype Thread = Thread(key: nat, pc: Pc)

  // ---- the table in memory ----

  function SkipAt(base: nat): nat { base }

  function SizeAt(base: nat): nat { base + POINTER_BYTES }

  function SlotAt(base: nat, i: nat): nat { base + Asize(i) }

  function Skip(m: Memory, base: nat): nat { LoadPointer(m, SkipAt(base)) }

  function Size(m: Memory, base: nat): nat { LoadPointer(m, SizeAt(base)) }

  function Slot(m: Memory, base: nat, i: nat): nat { LoadPointer(m, SlotAt(base, i)) }

  /** The block of the object at p. */
  function BackPointer(m: Memory, p: nat): nat {
    if p >= POINTER_BYTES then LoadPointer(m, p - POINTER_BYTES) else 0
  }

  // ---- steps ----

  ghost predicate Unchanged(m: Memory, blocks: map<nat, nat>, m': Memory, blocks': map<nat, nat>) {
    m' == m && blocks' == blocks
  }

  ghost predicate Stores(m: Memory, blocks: map<nat, nat>, a: nat, v: nat, m': Memory, blocks': map<nat, nat>) {
    m' == StorePointer(m, a, v) && blocks' == blocks
  }

  /** No byte of lo..hi differs. */
  ghost predicate Same(m: Memory, m': Memory, lo: nat, hi: nat) {
    forall x: nat :: lo <= x < hi ==> m'.at(x) == m.at(x)
  }

  /** Only bytes of lo..hi may differ. */
  ghost predicate Elsewhere(m: Memory, m': Memory, lo: nat, hi: nat) {
    forall x: nat :: !(lo <= x < hi) ==> m'.at(x) == m.at(x)
  }

  /** free(b), after which the block's bytes are anybody's. */
  ghost predicate Frees(m: Memory, blocks: map<nat, nat>, b: nat, m': Memory, blocks': map<nat, nat>) {
    && blocks' == blocks - {b}
    && (if b in blocks then Elsewhere(m, m', b, b + blocks[b]) else m' == m)
  }

  /** malloc(n) returning q; what the block holds is not known. */
  ghost predicate Mallocs(m: Memory, blocks: map<nat, nat>, q: nat, n: nat, m': Memory, blocks': map<nat, nat>) {
    Available(blocks, q, n) && blocks' == blocks[q := n] && Elsewhere(m, m', q, q + n)
  }

  /** realloc(base, n) returning q, perhaps base itself: the old bytes are at q. */
  ghost predicate Reallocs(m: Memory, blocks: map<nat, nat>, base: nat, q: nat, n: nat, m': Memory,
                           blocks': map<nat, nat>) {
    && base in blocks && Available(blocks - {base}, q, n) && blocks' == (blocks - {base})[q := n]
    && (var kept := if n < blocks[base] then n else blocks[base]; Load(m', q, kept) == Load(m, base, kept))
    && (forall x: nat :: !(q <= x < q + n) && !(base <= x < base + blocks[base]) ==> m'.at(x) == m.at(x))
  }

  /** One memory access of a thread, or a step of its own. */
  ghost predicate Works(c: Config, m: Memory, blocks: map<nat, nat>, th: Thread, m': Memory, blocks': map<nat, nat>,
                        th': Thread)
    requires c.Valid()
  {
    match th.pc
    case Fetching(k, i) =>
      && Unchanged(m, blocks, m', blocks')
      && th' == th.(pc := if th.key == 0 then NewTable(k, i) else if i > Size(m, th.key) then Growing(k, i) else Looking(k, i))
    case Clearing(k, i, q, size, next, first) =>
      if next < size then
        Stores(m, blocks, SlotAt(q, next), 0, m', blocks') && th' == th.(pc := Clearing(k, i, q, size, next + 1, first))
      else
        Unchanged(m, blocks, m', blocks')
        && th' == th.(pc := if first then Marking(k, i, q, size) else Sizing(k, i, q, size, false))
    case Marking(k, i, q, size) =>
      Stores(m, blocks, SkipAt(q), c.rounds, m', blocks') && th' == th.(pc := Sizing(k, i, q, size, true))
    case Sizing(k, i, q, size, first) =>
      Stores(m, blocks, SizeAt(q), size, m', blocks') && th' == th.(pc := Publishing(k, i, q, size, first))
    case Publishing(k, i, q, size, first) =>
      Unchanged(m, blocks, m', blocks') && th' == Thread(q, Looking(k, i))
    case Looking(k, i) =>
      && Unchanged(m, blocks, m', blocks') && i > 0
      && th' == th.(pc := if Slot(m, th.key, i - 1) == 0 then Allocating(k, i) else Reading(k, i, false))
    case Linking(k, i, q) =>
      && k < |c.controls|
      && (var p := Placed(q, Alignment(c.controls[k].align));
          p >= POINTER_BYTES && Stores(m, blocks, p - POINTER_BYTES, q, m', blocks') && th' == th.(pc := Filling(k, i, q, p, 0)))
    case Filling(k, i, q, p, n) =>
      && k < |c.controls|
      && (var bytes := InitialBytes(c.controls[k]);
          if n < |bytes| then
            m' == Patch(m, p + n, [bytes[n]]) && blocks' == blocks && th' == th.(pc := Filling(k, i, q, p, n + 1))
          else
            Unchanged(m, blocks, m', blocks') && th' == th.(pc := Setting(k, i, q, p)))
    case Setting(k, i, q, p) =>
      i > 0 && Stores(m, blocks, SlotAt(th.key, i - 1), p, m', blocks') && th' == th.(pc := Reading(k, i, true))
    case Reading(k, i, made) =>
      && Unchanged(m, blocks, m', blocks') && i > 0
      && th' == th.(pc := Returning(k, i, Slot(m, th.key, i - 1), made))
    case Destroying(base) =>
      if Skip(m, base) > 0 then
        Stores(m, blocks, SkipAt(base), Skip(m, base) - 1, m', blocks') && th' == th.(pc := Restoring(base))
      else
        Unchanged(m, blocks, m', blocks') && th' == th.(pc := Shutting(base, 0))
    case Restoring(base) =>
      Unchanged(m, blocks, m', blocks') && th' == Thread(base, Idle)
    case Shutting(base, next) =>
      if next >= Size(m, base) then
        Unchanged(m, blocks, m', blocks') && th' == th.(pc := FreeingTable(base))
      else
        && (if Slot(m, base, next) == 0 then Unchanged(m, blocks, m', blocks')
            else Frees(m, blocks, BackPointer(m, Slot(m, base, next)), m', blocks'))
        && th' == th.(pc := Shutting(base, next + 1))
    case FreeingTable(base) =>
      Frees(m, blocks, base, m', blocks') && th' == th.(pc := Idle)
    case _ => false
  }

  /** malloc or realloc answering q. */
  ghost predicate Obtains(c: Config, m: Memory, blocks: map<nat, nat>, th: Thread, q: nat, m': Memory,
                          blocks': map<nat, nat>, th': Thread)
    requires c.Valid()
  {
    match th.pc
    case NewTable(k, i) =>
      var size := NewDataArraySize(i);
      Mallocs(m, blocks, q, Asize(size), m', blocks') && th' == th.(pc := Clearing(k, i, q, size, 0, true))
    case Growing(k, i) =>
      var size := NewDataArraySize(i);
      && Reallocs(m, blocks, th.key, q, Asize(size), m', blocks')
      && th' == th.(pc := Clearing(k, i, q, size, Size(m, th.key), false))
    case Allocating(k, i) =>
      && k < |c.controls| && PowerOfTwo(Alignment(c.controls[k].align))
      && Mallocs(m, blocks, q, BlockSize(c.controls[k]), m', blocks') && th' == th.(pc := Linking(k, i, q))
    case _ => false
  }

  /** What makes the process abort: malloc or realloc answering null, or an
      alignment that is no power of two. */
  predicate Aborts(c: Config, th: Thread, refused: bool) {
    match th.pc
    case NewTable(_, _) => refused
    case Growing(_, _) => refused
    case Allocating(k, _) => k < |c.controls| && refused == PowerOfTwo(Alignment(c.controls[k].align))
    case _ => false
  }

  // ---- what belongs to a thread ----

  /** The table has just been reallocated and is not yet the key's value. */
  predicate Grown(pc: Pc) { (pc.Clearing? || pc.Sizing? || pc.Publishing?) && !pc.first }

  /** The thread's table, zero if it has none. */
  function Base(th: Thread): nat {
    if Grown(th.pc) then th.pc.q
    else if th.pc.Destroying? || th.pc.Restoring? || th.pc.Shutting? || th.pc.FreeingTable? then th.pc.base
    else th.key
  }

  /** A block the thread has obtained and not yet published, zero if none. */
  function Pending(th: Thread): nat {
    if th.pc.Marking? || th.pc.Linking? || th.pc.Filling? || th.pc.Setting? then th.pc.q
    else if (th.pc.Clearing? || th.pc.Sizing? || th.pc.Publishing?) && th.pc.first then th.pc.q
    else 0
  }

  /** The first slot not yet shut down. */
  function First(m: Memory, th: Thread): nat {
    if th.pc.Shutting? then th.pc.next
    else if th.pc.FreeingTable? then Size(m, th.pc.base)
    else 0
  }

  /** Slot i of the thread's table holds an object. */
  predicate Live(m: Memory, th: Thread, i: nat) {
    Base(th) != 0 && First(m, th) <= i < Size(m, Base(th)) && Slot(m, Base(th), i) != 0
  }

  /** Its address and its block. */
  function Address(m: Memory, th: Thread, i: nat): nat { Slot(m, Base(th), i) }

  function Home(m: Memory, th: Thread, i: nat): nat { BackPointer(m, Address(m, th, i)) }

  ghost predicate Owns(m: Memory, th: Thread, b: nat) {
    || (b != 0 && (b == Base(th) || b == Pending(th)))
    || (exists i: nat :: Live(m, th, i) && Home(m, th, i) == b)
  }

  /** The object has been made by the call under way and not yet been returned. */
  predicate Fresh(th: Thread, i: nat) {
    (th.pc.Reading? || th.pc.Returning?) && th.pc.made && th.pc.index == i + 1
  }

  /** Where the part of an object's block that the program must leave alone ends. */
  function HeadEnd(m: Memory, blocks: map<nat, nat>, th: Thread, i: nat): nat {
    if Fresh(th, i) && Home(m, th, i) in blocks then Home(m, th, i) + blocks[Home(m, th, i)] else Address(m, th, i)
  }

  /** The thread's table and the back pointers of its objects are untouched. */
  ghost predicate VisibleSame(m: Memory, m': Memory, blocks: map<nat, nat>, th: Thread) {
    && (Base(th) in blocks ==> Same(m, m', Base(th), Base(th) + blocks[Base(th)]))
    && (forall i: nat :: Live(m, th, i) ==> Same(m, m', Home(m, th, i), HeadEnd(m, blocks, th, i)))
  }

  ghost predicate PendingSame(m: Memory, m': Memory, blocks: map<nat, nat>, th: Thread) {
    Pending(th) in blocks ==> Same(m, m', Pending(th), Pending(th) + blocks[Pending(th)])
  }

  ghost predicate BlocksKept(m: Memory, blocks: map<nat, nat>, th: Thread, blocks': map<nat, nat>) {
    forall b :: b in blocks && Owns(m, th, b) ==> b in blocks' && blocks'[b] == blocks[b]
  }

  /** What the rest of the program leaves alone: blocks it has not been given, and
      of the objects it has been given all but their bytes. */
  ghost predicate Respects(m: Memory, blocks: map<nat, nat>, th: Thread, m': Memory, blocks': map<nat, nat>) {
    VisibleSame(m, m', blocks, th) && PendingSame(m, m', blocks, th) && BlocksKept(m, blocks, th, blocks')
  }

  // ---- the invariant of one thread ----

  /** The number of slots the table's block has room for. */
  function Capacity(m: Memory, th: Thread): nat {
    if Grown(th.pc) then th.pc.size else Size(m, Base(th))
  }

  ghost predicate TableOk(c: Config, m: Memory, blocks: map<nat, nat>, th: Thread) {
    Base(th) != 0 ==>
      && Base(th) in blocks && blocks[Base(th)] == 16 + 8 * Capacity(m, th)
      && Size(m, Base(th)) <= Capacity(m, th) && Skip(m, Base(th)) <= c.rounds
  }

  ghost predicate Owner(index: seq<nat>, k: nat, i: nat) { k < |index| && index[k] == i + 1 }

  /** Slot i holds a proper object of the control with index i + 1. */
  ghost predicate ObjectFor(c: Config, m: Memory, blocks: map<nat, nat>, index: seq<nat>, b: nat, p: nat, i: nat) {
    exists k: nat :: Owner(index, k, i) && k < |c.controls| && ObjectOk(m, blocks, b, p, c.controls[k])
  }

  ghost predicate ObjectsOk(c: Config, m: Memory, blocks: map<nat, nat>, index: seq<nat>, th: Thread) {
    forall i: nat :: Live(m, th, i) ==> ObjectFor(c, m, blocks, index, Home(m, th, i), Address(m, th, i), i)
  }

  /** No block serves twice. */
  ghost predicate Unshared(m: Memory, th: Thread) {
    && (forall i: nat, j: nat :: Live(m, th, i) && Live(m, th, j) && i != j ==> Home(m, th, i) != Home(m, th, j))
    && (forall i: nat :: Live(m, th, i) ==> Home(m, th, i) != Base(th) && (Pending(th) != 0 ==> Home(m, th, i) != Pending(th)))
    && (Pending(th) != 0 ==> Pending(th) != Base(th))
  }

  function PendingBytes(c: Config, th: Thread): nat {
    if th.pc.Marking? || th.pc.Clearing? || th.pc.Sizing? || th.pc.Publishing? then Asize(th.pc.size)
    else if (th.pc.Linking? || th.pc.Filling? || th.pc.Setting?) && th.pc.control < |c.controls|
    then BlockSize(c.controls[th.pc.control])
    else 0
  }

  ghost predicate PendingOk(c: Config, blocks: map<nat, nat>, th: Thread) {
    Pending(th) != 0 ==> Pending(th) in blocks && blocks[Pending(th)] == PendingBytes(c, th)
  }

  ghost predicate Shape(c: Config, m: Memory, blocks: map<nat, nat>, index: seq<nat>, th: Thread) {
    TableOk(c, m, blocks, th) && ObjectsOk(c, m, blocks, index, th) && Unshared(m, th) && PendingOk(c, blocks, th)
  }

  /** The slots lo..hi of the table at q are null. */
  ghost predicate Null(m: Memory, q: nat, lo: nat, hi: nat) {
    forall i: nat :: lo <= i < hi ==> Slot(m, q, i) == 0
  }

  /** The control has its index. */
  predicate Known(c: Config, index: seq<nat>, k: nat, i: nat) {
    k < |c.controls| && k < |index| && index[k] == i > 0
  }

  /** The thread has a table with a slot for the index. */
  predicate Roomy(c: Config, m: Memory, index: seq<nat>, th: Thread, k: nat, i: nat) {
    Known(c, index, k, i) && th.key != 0 && i <= Size(m, th.key)
  }

  /** A table under construction at q with room for the index. */
  predicate Building(c: Config, index: seq<nat>, th: Thread, k: nat, i: nat, q: nat, size: nat, first: bool) {
    Known(c, index, k, i) && q != 0 && i <= size < 0x1_0000_0000_0000_0000 && (first ==> th.key == 0)
  }

  /** Where the slots that are cleared begin: the size word still holds the old size. */
  function OldSize(m: Memory, q: nat, first: bool): nat { if first then 0 else Size(m, q) }

  /** The object p in the block q, with its back pointer. */
  ghost predicate Linked(m: Memory, control: Control, q: nat, p: nat) {
    && q + POINTER_BYTES <= p && p + control.size <= q + BlockSize(control)
    && Aligned(p, control.align) && LoadPointer(m, p - POINTER_BYTES) == q
  }

  ghost predicate Initial(m: Memory, control: Control, p: nat, n: nat)
    requires ControlOk(control)
  {
    n <= control.size && Load(m, p, n) == InitialBytes(control)[..n]
  }

  /** What a thread knows where it stands. */
  ghost predicate PcOk(c: Config, m: Memory, index: seq<nat>, th: Thread)
    requires c.Valid()
  {
    match th.pc
    case Idle => true
    case Indexing(k) => k < |c.controls|
    case Fetching(k, i) => Known(c, index, k, i)
    case NewTable(k, i) => Known(c, index, k, i) && th.key == 0
    case Growing(k, i) => Known(c, index, k, i) && th.key != 0 && Size(m, th.key) < i
    case Clearing(k, i, q, size, next, first) =>
      && Building(c, index, th, k, i, q, size, first)
      && OldSize(m, q, first) <= next <= size && Null(m, q, OldSize(m, q, first), next)
    case Marking(k, i, q, size) =>
      Building(c, index, th, k, i, q, size, true) && Null(m, q, 0, size)
    case Sizing(k, i, q, size, first) =>
      && Building(c, index, th, k, i, q, size, first) && Null(m, q, OldSize(m, q, first), size)
      && (first ==> Skip(m, q) == c.rounds)
    case Publishing(k, i, q, size, first) =>
      && Building(c, index, th, k, i, q, size, first) && Size(m, q) == size
      && (first ==> Skip(m, q) == c.rounds && Null(m, q, 0, size))
    case Looking(k, i) => Roomy(c, m, index, th, k, i)
    case Allocating(k, i) => Roomy(c, m, index, th, k, i) && Slot(m, th.key, i - 1) == 0
    case Linking(k, i, q) =>
      && Roomy(c, m, index, th, k, i) && Slot(m, th.key, i - 1) == 0
      && q != 0 && PowerOfTwo(Alignment(c.controls[k].align))
    case Filling(k, i, q, p, n) =>
      && Roomy(c, m, index, th, k, i) && Slot(m, th.key, i - 1) == 0 && q != 0
      && Linked(m, c.controls[k], q, p) && Initial(m, c.controls[k], p, n)
    case Setting(k, i, q, p) =>
      && Roomy(c, m, index, th, k, i) && Slot(m, th.key, i - 1) == 0 && q != 0
      && Linked(m, c.controls[k], q, p) && Initial(m, c.controls[k], p, c.controls[k].size)
    case Reading(k, i, made) =>
      && Roomy(c, m, index, th, k, i) && Slot(m, th.key, i - 1) != 0
      && (made ==> Initial(m, c.controls[k], Slot(m, th.key, i - 1), c.controls[k].size))
    case Returning(k, i, p, made) =>
      && Roomy(c, m, index, th, k, i) && Slot(m, th.key, i - 1) == p != 0
      && (made ==> Initial(m, c.controls[k], p, c.controls[k].size))
    case Destroying(base) => base != 0 && th.key == 0
    case Restoring(base) => base != 0 && th.key == 0
    case Shutting(base, next) => base != 0 && th.key == 0 && next <= Size(m, base)
    case FreeingTable(base) => base != 0 && th.key == 0
  }

  ghost predicate ThreadOk(c: Config, m: Memory, blocks: map<nat, nat>, index: seq<nat>, th: Thread)
    requires c.Valid()
  {
    Shape(c, m, blocks, index, th) && PcOk(c, m, index, th)
  }

  // ---- words and bytes ----

  lemma LoadSame(m: Memory, m': Memory, lo: nat, hi: nat, a: nat, n: nat)
    requires Same(m, m', lo, hi) && lo <= a && a + n <= hi
    ensures Load(m', a, n) == Load(m, a, n)
  {
    LoadAgrees(m, m', a, n);
  }

  lemma WordSame(m: Memory, m': Memory, lo: nat, hi: nat, a: nat)
    requires Same(m, m', lo, hi) && lo <= a && a + POINTER_BYTES <= hi
    ensures LoadPointer(m', a) == LoadPointer(m, a)
  {
    hide Same, Load;
    LoadSame(m, m', lo, hi, a, POINTER_BYTES);
  }

  lemma WordBound(m: Memory, a: nat)
    ensures LoadPointer(m, a) < 0x1_0000_0000_0000_0000
  {
    hide Number, Load;
    Pow2Values();
    NumberBound(Load(m, a, POINTER_BYTES));
  }

  lemma StoreWord(m: Memory, a: nat, v: nat)
    requires v < 0x1_0000_0000_0000_0000
    ensures LoadPointer(StorePointer(m, a, v), a) == v && Elsewhere(m, StorePointer(m, a, v), a, a + POINTER_BYTES)
  {
    hide LoadPointer, Pow2, Digits;
    Pow2Values();
    PointerStored(m, a, v);
  }

  lemma ElsewhereSame(m: Memory, m': Memory, lo: nat, hi: nat, a: nat, b: nat)
    requires Elsewhere(m, m', lo, hi) && (b <= lo || hi <= a)
    ensures Same(m, m', a, b)
  {}

  lemma SamePart(m: Memory, m': Memory, lo: nat, hi: nat, a: nat, b: nat)
    requires Same(m, m', lo, hi) && lo <= a && b <= hi
    ensures Same(m, m', a, b)
  {}

  // ---- what other threads and the program cannot disturb ----

  /** The words of a table that is untouched. */
  lemma TableSame(m: Memory, m': Memory, base: nat, n: nat, capacity: nat)
    requires Same(m, m', base, base + n) && n == Asize(capacity)
    ensures Skip(m', base) == Skip(m, base) && Size(m', base) == Size(m, base)
    ensures forall i: nat :: i < capacity ==> Slot(m', base, i) == Slot(m, base, i)
  {
    hide LoadPointer, Same;
    WordSame(m, m', base, base + n, SkipAt(base));
    WordSame(m, m', base, base + n, SizeAt(base));
    forall i: nat | i < capacity ensures Slot(m', base, i) == Slot(m, base, i) {
      WordSame(m, m', base, base + n, SlotAt(base, i));
    }
  }

  /** The back pointer of an object whose head is untouched. */
  lemma HomeSame(c: Config, m: Memory, m': Memory, blocks: map<nat, nat>, index: seq<nat>, th: Thread, i: nat)
    requires ObjectsOk(c, m, blocks, index, th) && Live(m, th, i)
    requires Same(m, m', Home(m, th, i), HeadEnd(m, blocks, th, i))
    ensures BackPointer(m', Address(m, th, i)) == Home(m, th, i)
    ensures Home(m, th, i) in blocks && Home(m, th, i) + POINTER_BYTES <= Address(m, th, i) <= HeadEnd(m, blocks, th, i)
  {
    hide LoadPointer, Same;
    var b, p := Home(m, th, i), Address(m, th, i);
    assert ObjectFor(c, m, blocks, index, b, p, i);
    WordSame(m, m', b, HeadEnd(m, blocks, th, i), p - POINTER_BYTES);
  }

  lemma ViewKept(c: Config, m: Memory, m': Memory, blocks: map<nat, nat>, index: seq<nat>, th: Thread)
    requires Shape(c, m, blocks, index, th) && VisibleSame(m, m', blocks, th)
    ensures Base(th) != 0 ==> Skip(m', Base(th)) == Skip(m, Base(th)) && Size(m', Base(th)) == Size(m, Base(th))
    ensures Base(th) != 0 ==> forall i: nat :: i < Capacity(m, th) ==> Slot(m', Base(th), i) == Slot(m, Base(th), i)
    ensures forall i: nat :: Live(m', th, i) <==> Live(m, th, i)
    ensures forall i: nat :: Live(m, th, i) ==> Address(m', th, i) == Address(m, th, i) && Home(m', th, i) == Home(m, th, i)
    ensures forall b :: Owns(m', th, b) <==> Owns(m, th, b)
  {
    hide LoadPointer, Same, ObjectFor, BackPointer, HeadEnd;
    if Base(th) != 0 {
      TableSame(m, m', Base(th), blocks[Base(th)], Capacity(m, th));
      forall i: nat | Live(m, th, i) ensures Home(m', th, i) == Home(m, th, i) {
        HomeSame(c, m, m', blocks, index, th, i);
      }
    }
  }

  lemma ObjectForKept(c: Config, m: Memory, m': Memory, blocks: map<nat, nat>, blocks': map<nat, nat>,
                      index: seq<nat>, index': seq<nat>,
                      b: nat, p: nat, i: nat)
    requires ObjectFor(c, m, blocks, index, b, p, i)
    requires b in blocks' && (b in blocks ==> blocks'[b] == blocks[b])
    requires p >= POINTER_BYTES ==> BackPointer(m', p) == BackPointer(m, p)
    requires forall k :: 0 <= k < |index| && index[k] != 0 ==> k < |index'| && index'[k] == index[k]
    ensures ObjectFor(c, m', blocks', index', b, p, i)
  {
    hide LoadPointer;
    var k: nat :| Owner(index, k, i) && k < |c.controls| && ObjectOk(m, blocks, b, p, c.controls[k]);
    assert Owner(index', k, i);
  }

  ghost predicate Grows(index: seq<nat>, index': seq<nat>) {
    forall k :: 0 <= k < |index| && index[k] != 0 ==> k < |index'| && index'[k] == index[k]
  }

  lemma ShapeKept(c: Config, m: Memory, m': Memory, blocks: map<nat, nat>, blocks': map<nat, nat>,
                  index: seq<nat>, index': seq<nat>, th: Thread)
    requires Shape(c, m, blocks, index, th) && VisibleSame(m, m', blocks, th) && BlocksKept(m, blocks, th, blocks')
    requires Grows(index, index')
    ensures Shape(c, m', blocks', index', th)
  {
    hide LoadPointer, Same, ObjectFor, BackPointer, HeadEnd;
    ViewKept(c, m, m', blocks, index, th);
    OwnedLive(c, m, blocks, index, th);
    forall i: nat | Live(m', th, i) ensures ObjectFor(c, m', blocks', index', Home(m', th, i), Address(m', th, i), i) {
      HomeSame(c, m, m', blocks, index, th, i);
      assert Owns(m, th, Home(m, th, i));
      ObjectForKept(c, m, m', blocks, blocks', index, index', Home(m, th, i), Address(m, th, i), i);
    }
    assert Base(th) != 0 ==> Owns(m, th, Base(th));
    assert Pending(th) != 0 ==> Owns(m, th, Pending(th));
  }

  lemma ObjectForInBlocks(c: Config, m: Memory, blocks: map<nat, nat>, index: seq<nat>, b: nat, p: nat, i: nat)
    requires ObjectFor(c, m, blocks, index, b, p, i)
    ensures b in blocks && b + POINTER_BYTES <= p <= b + blocks[b] && BackPointer(m, p) == b
  {
    hide LoadPointer;
  }

  /** What a thread owns is live. */
  lemma OwnedLive(c: Config, m: Memory, blocks: map<nat, nat>, index: seq<nat>, th: Thread)
    requires Shape(c, m, blocks, index, th)
    ensures forall b :: Owns(m, th, b) ==> b in blocks
  {
    hide LoadPointer, ObjectFor, BackPointer;
    forall i: nat | Live(m, th, i) ensures Home(m, th, i) in blocks {
      ObjectForInBlocks(c, m, blocks, index, Home(m, th, i), Address(m, th, i), i);
    }
  }

  /** Null slots and the size word of an untouched table under construction. */
  lemma NullKept(m: Memory, m': Memory, q: nat, n: nat, size: nat, lo: nat, hi: nat)
    requires Same(m, m', q, q + n) && n == Asize(size) && hi <= size && Null(m, q, lo, hi)
    ensures Null(m', q, lo, hi) && Size(m', q) == Size(m, q) && Skip(m', q) == Skip(m, q)
  {
    hide LoadPointer, Same;
    TableSame(m, m', q, n, size);
  }

  lemma LinkedKept(m: Memory, m': Memory, control: Control, q: nat, p: nat, n: nat)
    requires Same(m, m', q, q + BlockSize(control)) && ControlOk(control) && Linked(m, control, q, p) && Initial(m, control, p, n)
    ensures Linked(m', control, q, p) && Initial(m', control, p, n)
  {
    hide LoadPointer, Same, Load;
    WordSame(m, m', q, q + BlockSize(control), p - POINTER_BYTES);
    LoadSame(m, m', q, q + BlockSize(control), p, n);
  }

  /** An object just made keeps its first bytes. */
  lemma MadeKept(c: Config, m: Memory, m': Memory, blocks: map<nat, nat>, index: seq<nat>, th: Thread, i: nat,
                 control: Control)
    requires Shape(c, m, blocks, index, th) && Live(m, th, i) && Fresh(th, i)
    requires Same(m, m', Home(m, th, i), HeadEnd(m, blocks, th, i))
    requires ControlOk(control) && ObjectOk(m, blocks, Home(m, th, i), Address(m, th, i), control)
    ensures Load(m', Address(m, th, i), control.size) == Load(m, Address(m, th, i), control.size)
  {
    hide LoadPointer, Same, Load, BackPointer;
    LoadSame(m, m', Home(m, th, i), HeadEnd(m, blocks, th, i), Address(m, th, i), control.size);
  }

  /** No two controls have one index. */
  ghost predicate Injective(index: seq<nat>) {
    forall j, k :: 0 <= j < k < |index| && index[j] != 0 ==> index[j] != index[k]
  }

  lemma ObjectOfControl(c: Config, m: Memory, blocks: map<nat, nat>, index: seq<nat>, b: nat, p: nat, k: nat, i: nat)
    requires Injective(index) && i > 0 && ObjectFor(c, m, blocks, index, b, p, i - 1) && Known(c, index, k, i)
    ensures ObjectOk(m, blocks, b, p, c.controls[k])
  {
    hide ObjectOk;
    var j: nat :| Owner(index, j, i - 1) && j < |c.controls| && ObjectOk(m, blocks, b, p, c.controls[j]);
    assert j == k;
  }

  lemma ControlIsOk(c: Config, k: nat)
    requires c.Valid() && k < |c.controls|
    ensures ControlOk(c.controls[k])
  {}

  /** The slot a call reads from is live. */
  lemma SlotIsLive(c: Config, m: Memory, index: seq<nat>, th: Thread, k: nat, i: nat)
    requires Roomy(c, m, index, th, k, i) && Slot(m, th.key, i - 1) != 0 && (th.pc.Reading? || th.pc.Returning?)
    ensures Base(th) == th.key && Live(m, th, i - 1) && Address(m, th, i - 1) == Slot(m, th.key, i - 1)
  {}

  lemma InitialKept(c: Config, m: Memory, m': Memory, blocks: map<nat, nat>, index: seq<nat>, th: Thread, k: nat,
                    i: nat)
    requires c.Valid() && Shape(c, m, blocks, index, th) && VisibleSame(m, m', blocks, th) && Injective(index)
    requires Roomy(c, m, index, th, k, i) && Slot(m, th.key, i - 1) != 0 && Fresh(th, i - 1)
    requires Initial(m, c.controls[k], Slot(m, th.key, i - 1), c.controls[k].size)
    ensures Initial(m', c.controls[k], Slot(m, th.key, i - 1), c.controls[k].size)
  {
    hide LoadPointer, Same, Load, ObjectFor, ObjectOk, ControlOk, HeadEnd;
    ControlIsOk(c, k);
    SlotIsLive(c, m, index, th, k, i);
    ObjectOfControl(c, m, blocks, index, Home(m, th, i - 1), Address(m, th, i - 1), k, i);
    MadeKept(c, m, m', blocks, index, th, i - 1, c.controls[k]);
  }

  lemma KnownKept(c: Config, index: seq<nat>, index': seq<nat>, k: nat, i: nat)
    requires Known(c, index, k, i) && Grows(index, index')
    ensures Known(c, index', k, i)
  {}

  /** Threads that build a table, or an object. */
  predicate Making(pc: Pc) {
    pc.Clearing? || pc.Marking? || pc.Sizing? || pc.Publishing? || pc.Filling? || pc.Setting?
  }

  lemma MakingKept(c: Config, m: Memory, m': Memory, blocks: map<nat, nat>, index: seq<nat>, index': seq<nat>,
                   th: Thread)
    requires c.Valid() && ThreadOk(c, m, blocks, index, th) && Grows(index, index') && Making(th.pc)
    requires VisibleSame(m, m', blocks, th) && PendingSame(m, m', blocks, th)
    ensures PcOk(c, m', index', th)
  {
    hide LoadPointer, Same, Shape, Initial, Linked, Null, VisibleSame;
    ViewKept(c, m, m', blocks, index, th);
    PendingLive(c, m, blocks, index, th);
    TableBytesSame(m, m', blocks, th);
    match th.pc
    case Clearing(k, i, q, size, next, first) =>
      NullKept(m, m', q, blocks[q], size, OldSize(m, q, first), next);
    case Marking(k, i, q, size) =>
      NullKept(m, m', q, blocks[q], size, 0, size);
    case Sizing(k, i, q, size, first) =>
      NullKept(m, m', q, blocks[q], size, OldSize(m, q, first), size);
    case Publishing(k, i, q, size, first) =>
      if first { NullKept(m, m', q, blocks[q], size, 0, size); }
    case Filling(k, i, q, p, n) =>
      LinkedKept(m, m', c.controls[k], q, p, n);
    case Setting(k, i, q, p) =>
      LinkedKept(m, m', c.controls[k], q, p, c.controls[k].size);
  }

  lemma PcKept(c: Config, m: Memory, m': Memory, blocks: map<nat, nat>, index: seq<nat>, index': seq<nat>, th: Thread)
    requires c.Valid() && ThreadOk(c, m, blocks, index, th) && Injective(index) && Grows(index, index')
    requires VisibleSame(m, m', blocks, th) && PendingSame(m, m', blocks, th)
    ensures PcOk(c, m', index', th)
  {
    hide LoadPointer, Same, Shape, Initial, Linked, Null, VisibleSame, PendingSame, Injective, Grows;
    if Making(th.pc) {
      MakingKept(c, m, m', blocks, index, index', th);
    } else {
      ViewKept(c, m, m', blocks, index, th);
      PendingLive(c, m, blocks, index, th);
      if th.pc.Fetching? || th.pc.NewTable? || th.pc.Growing? || th.pc.Looking? || th.pc.Allocating? || th.pc.Linking?
         || th.pc.Reading? || th.pc.Returning? {
        KnownKept(c, index, index', th.pc.control, th.pc.index);
      }
      if (th.pc.Reading? || th.pc.Returning?) && th.pc.made {
        InitialKept(c, m, m', blocks, index, th, th.pc.control, th.pc.index);
      }
    }
  }

  lemma TableBytesSame(m: Memory, m': Memory, blocks: map<nat, nat>, th: Thread)
    requires VisibleSame(m, m', blocks, th)
    ensures Base(th) in blocks ==> Same(m, m', Base(th), Base(th) + blocks[Base(th)])
  {}

  /** The block under construction, and the table, as they lie in memory. */
  lemma PendingLive(c: Config, m: Memory, blocks: map<nat, nat>, index: seq<nat>, th: Thread)
    requires Shape(c, m, blocks, index, th)
    ensures Pending(th) != 0 ==> Pending(th) in blocks && blocks[Pending(th)] == PendingBytes(c, th)
    ensures Base(th) != 0 ==> Base(th) in blocks && blocks[Base(th)] == Asize(Capacity(m, th)) && Size(m, Base(th)) <= Capacity(m, th)
  {}

  /** What neither touches a thread's table, nor its unpublished block, nor the
      heads of its objects, leaves everything it knows in place. */
  lemma ThreadKept(c: Config, m: Memory, m': Memory, blocks: map<nat, nat>, blocks': map<nat, nat>,
                   index: seq<nat>, index': seq<nat>, th: Thread)
    requires c.Valid() && ThreadOk(c, m, blocks, index, th) && Injective(index) && Grows(index, index')
    requires Respects(m, blocks, th, m', blocks')
    ensures ThreadOk(c, m', blocks', index', th)
  {
    hide Shape, PcOk, VisibleSame, PendingSame, BlocksKept;
    ShapeKept(c, m, m', blocks, blocks', index, index', th);
    PcKept(c, m, m', blocks, index, index', th);
  }

  // ---- what a thread's own steps may do ----

  /** Blocks the thread does not own keep their place and their bytes. */
  ghost predicate OnlyTouches(m: Memory, blocks: map<nat, nat>, th: Thread, m': Memory, blocks': map<nat, nat>) {
    forall b :: b in blocks && !Owns(m, th, b) ==>
      b in blocks' && blocks'[b] == blocks[b] && Same(m, m', b, b + blocks[b])
  }

  /** What is live afterwards was live before, at the same address, or has just been
      made. */
  ghost predicate Inherits(m: Memory, th: Thread, m': Memory, th': Thread) {
    forall i: nat :: Live(m', th', i) && !Fresh(th', i) ==> Live(m, th, i) && Address(m', th', i) == Address(m, th, i)
  }

  /** What a thread's step passes to free or to realloc. */
  function Freed(m: Memory, th: Thread): seq<nat> {
    match th.pc
    case Shutting(base, next) =>
      if next < Size(m, base) && Slot(m, base, next) != 0 then [BackPointer(m, Slot(m, base, next))] else []
    case FreeingTable(base) => [base]
    case Growing(_, _) => [th.key]
    case _ => []
  }

  /** It forgets no block: what it owned and does not give up it still owns. */
  ghost predicate Retains(m: Memory, th: Thread, m': Memory, th': Thread) {
    forall b :: Owns(m, th, b) && b !in Freed(m, th) ==> Owns(m', th', b)
  }

  /** It owns nothing afterwards that it did not own or that was not free. */
  ghost predicate Moves(m: Memory, blocks: map<nat, nat>, th: Thread, m': Memory, blocks': map<nat, nat>, th': Thread) {
    && AllocatorOk(blocks') && OnlyTouches(m, blocks, th, m', blocks')
    && Inherits(m, th, m', th') && Retains(m, th, m', th')
    && (forall b :: Owns(m', th', b) ==> Owns(m, th, b) || b !in blocks)
  }

  /** A step that changes neither memory nor what is live. */
  lemma Calm(c: Config, m: Memory, blocks: map<nat, nat>, index: seq<nat>, th: Thread, th': Thread)
    requires Shape(c, m, blocks, index, th) && AllocatorOk(blocks)
    requires Base(th') == Base(th) && Pending(th') == Pending(th)
    requires Base(th) != 0 ==> Capacity(m, th') == Capacity(m, th)
    requires Pending(th) != 0 ==> PendingBytes(c, th') == PendingBytes(c, th)
    requires forall i: nat :: Live(m, th', i) <==> Live(m, th, i)
    ensures Shape(c, m, blocks, index, th') && Moves(m, blocks, th, m, blocks, th')
  {
    hide LoadPointer, ObjectFor, BackPointer, AllocatorOk;
  }

  /** Looking at the key and at the size word, and at a slot. */
  lemma LookKeeps(c: Config, m: Memory, blocks: map<nat, nat>, index: seq<nat>, th: Thread, m': Memory,
                  blocks': map<nat, nat>, th': Thread)
    requires c.Valid() && ThreadOk(c, m, blocks, index, th) && AllocatorOk(blocks)
    requires th.pc.Fetching? || th.pc.Looking? || th.pc.Reading?
    requires Works(c, m, blocks, th, m', blocks', th')
    ensures ThreadOk(c, m', blocks', index, th') && Moves(m, blocks, th, m', blocks', th')
  {
    hide LoadPointer, Shape, Initial, Moves, AllocatorOk;
    Calm(c, m, blocks, index, th, th');
  }

  /** The ends of the loops that clear and fill. */
  lemma LoopEndKeeps(c: Config, m: Memory, blocks: map<nat, nat>, index: seq<nat>, th: Thread, m': Memory,
                     blocks': map<nat, nat>, th': Thread)
    requires c.Valid() && ThreadOk(c, m, blocks, index, th) && AllocatorOk(blocks)
    requires (th.pc.Clearing? && th.pc.next >= th.pc.size)
          || (th.pc.Filling? && th.pc.control < |c.controls| && th.pc.n >= c.controls[th.pc.control].size)
    requires Works(c, m, blocks, th, m', blocks', th')
    ensures ThreadOk(c, m', blocks', index, th') && Moves(m, blocks, th, m', blocks', th')
  {
    hide LoadPointer, Shape, Moves, AllocatorOk, Load;
    Calm(c, m, blocks, index, th, th');
  }

  /** The key takes a table that has grown. */
  lemma PublishGrownKeeps(c: Config, m: Memory, blocks: map<nat, nat>, index: seq<nat>, th: Thread, m': Memory,
                          blocks': map<nat, nat>, th': Thread)
    requires c.Valid() && ThreadOk(c, m, blocks, index, th) && AllocatorOk(blocks)
    requires th.pc.Publishing? && !th.pc.first && Works(c, m, blocks, th, m', blocks', th')
    ensures ThreadOk(c, m', blocks', index, th') && Moves(m, blocks, th, m', blocks', th')
  {
    hide LoadPointer, Shape, Moves, AllocatorOk;
    Calm(c, m, blocks, index, th, th');
  }

  /** The key takes the thread's first table. */
  lemma PublishFirstKeeps(c: Config, m: Memory, blocks: map<nat, nat>, index: seq<nat>, th: Thread, m': Memory,
                          blocks': map<nat, nat>, th': Thread)
    requires c.Valid() && ThreadOk(c, m, blocks, index, th) && AllocatorOk(blocks)
    requires th.pc.Publishing? && th.pc.first && Works(c, m, blocks, th, m', blocks', th')
    ensures ThreadOk(c, m', blocks', index, th') && Moves(m, blocks, th, m', blocks', th')
  {
    hide LoadPointer, BackPointer, AllocatorOk;
    assert forall i: nat :: !Live(m, th', i);
  }

  /** Reading the skip count, putting the table back, passing a null slot, and the
      end of the shutdown. */
  lemma DestructorLooks(c: Config, m: Memory, blocks: map<nat, nat>, index: seq<nat>, th: Thread, m': Memory,
                        blocks': map<nat, nat>, th': Thread)
    requires c.Valid() && ThreadOk(c, m, blocks, index, th) && AllocatorOk(blocks)
    requires || (th.pc.Destroying? && Skip(m, th.pc.base) == 0) || th.pc.Restoring?
             || (th.pc.Shutting? && (th.pc.next >= Size(m, th.pc.base) || Slot(m, th.pc.base, th.pc.next) == 0))
    requires Works(c, m, blocks, th, m', blocks', th')
    ensures ThreadOk(c, m', blocks', index, th') && Moves(m, blocks, th, m', blocks', th')
  {
    hide LoadPointer, Shape, Moves, AllocatorOk;
    Calm(c, m, blocks, index, th, th');
  }

  // ---- blocks that are touched ----

  lemma BlocksApart(blocks: map<nat, nat>, b: nat, d: nat, m: Memory, m': Memory)
    requires AllocatorOk(blocks) && b in blocks && d in blocks && b != d && Elsewhere(m, m', b, b + blocks[b])
    ensures Same(m, m', d, d + blocks[d])
  {
    assert Apart(b, blocks[b], d, blocks[d]);
  }

  /** Whatever leaves the thread's blocks alone respects it. */
  lemma Harmless(c: Config, m: Memory, blocks: map<nat, nat>, index: seq<nat>, th: Thread, m': Memory,
                 blocks': map<nat, nat>)
    requires Shape(c, m, blocks, index, th)
    requires forall b :: b in blocks && Owns(m, th, b) ==> b in blocks' && blocks'[b] == blocks[b] && Same(m, m', b, b + blocks[b])
    requires 0 !in blocks
    ensures Respects(m, blocks, th, m', blocks')
  {
    hide LoadPointer, ObjectFor, BackPointer, Same;
    forall i: nat | Live(m, th, i) ensures Same(m, m', Home(m, th, i), HeadEnd(m, blocks, th, i)) {
      var b := Home(m, th, i);
      ObjectForInBlocks(c, m, blocks, index, b, Address(m, th, i), i);
      assert Owns(m, th, b);
      SamePart(m, m', b, b + blocks[b], b, HeadEnd(m, blocks, th, i));
    }
    assert Base(th) in blocks ==> Owns(m, th, Base(th));
    assert Pending(th) in blocks ==> Owns(m, th, Pending(th));
  }

  lemma ZeroIsNoBlock(blocks: map<nat, nat>)
    requires AllocatorOk(blocks)
    ensures 0 !in blocks
  {}

  /** Writing inside the unpublished block. */
  lemma PendingWrite(c: Config, m: Memory, blocks: map<nat, nat>, index: seq<nat>, th: Thread, m': Memory, th': Thread)
    requires Shape(c, m, blocks, index, th) && AllocatorOk(blocks) && Pending(th) != 0
    requires Elsewhere(m, m', Pending(th), Pending(th) + blocks[Pending(th)])
    requires Base(th') == Base(th) && Pending(th') == Pending(th) && First(m', th') == First(m', th)
    requires Base(th) != 0 ==> Capacity(m', th') == Capacity(m', th)
    requires PendingBytes(c, th') == PendingBytes(c, th)
    ensures VisibleSame(m, m', blocks, th)
    ensures Shape(c, m', blocks, index, th') && Moves(m, blocks, th, m', blocks, th')
  {
    hide LoadPointer, ObjectFor, BackPointer, AllocatorOk, Same, Elsewhere, HeadEnd, Shape;
    PendingVisible(c, m, blocks, index, th, m');
    ViewKept(c, m, m', blocks, index, th);
    ShapeKept(c, m, m', blocks, blocks, index, index, th);
    Calm(c, m', blocks, index, th, th');
    PendingLive(c, m, blocks, index, th);
    forall b | b in blocks && !Owns(m, th, b) ensures Same(m, m', b, b + blocks[b]) {
      BlocksApart(blocks, Pending(th), b, m, m');
    }
  }

  lemma PendingVisible(c: Config, m: Memory, blocks: map<nat, nat>, index: seq<nat>, th: Thread, m': Memory)
    requires Shape(c, m, blocks, index, th) && AllocatorOk(blocks) && Pending(th) != 0
    requires Elsewhere(m, m', Pending(th), Pending(th) + blocks[Pending(th)])
    ensures VisibleSame(m, m', blocks, th)
  {
    hide LoadPointer, ObjectFor, BackPointer, AllocatorOk, Same, Elsewhere;
    ZeroIsNoBlock(blocks);
    if Base(th) in blocks {
      BlocksApart(blocks, Pending(th), Base(th), m, m');
    }
    forall i: nat | Live(m, th, i) ensures Same(m, m', Home(m, th, i), HeadEnd(m, blocks, th, i)) {
      var b := Home(m, th, i);
      ObjectForInBlocks(c, m, blocks, index, b, Address(m, th, i), i);
      BlocksApart(blocks, Pending(th), b, m, m');
      SamePart(m, m', b, b + blocks[b], b, HeadEnd(m, blocks, th, i));
    }
  }

  /** Writing inside the table, leaving the live slots alone. */
  lemma TableWrite(c: Config, m: Memory, blocks: map<nat, nat>, index: seq<nat>, th: Thread, m': Memory, th': Thread)
    requires Shape(c, m, blocks, index, th) && AllocatorOk(blocks) && Base(th) != 0
    requires Elsewhere(m, m', Base(th), Base(th) + blocks[Base(th)])
    requires Base(th') == Base(th) && Pending(th) == Pending(th') == 0 && TableOk(c, m', blocks, th')
    requires forall i: nat :: Live(m', th', i) <==> Live(m, th, i)
    requires forall i: nat :: Live(m', th', i) ==> Slot(m', Base(th), i) == Slot(m, Base(th), i)
    ensures forall i: nat :: Live(m', th', i) ==> Home(m', th', i) == Home(m, th, i)
    ensures Shape(c, m', blocks, index, th') && Moves(m, blocks, th, m', blocks, th')
  {
    hide LoadPointer, ObjectFor, BackPointer, AllocatorOk, Same, Elsewhere, HeadEnd, TableOk;
    forall i: nat | Live(m', th', i)
      ensures Home(m', th', i) == Home(m, th, i)
      ensures ObjectFor(c, m', blocks, index, Home(m', th', i), Address(m', th', i), i)
    {
      HeadKept(c, m, blocks, index, th, m', i);
    }
    BaseIsLive(c, m, blocks, th);
    forall b | b in blocks && !Owns(m, th, b) ensures Same(m, m', b, b + blocks[b]) {
      BlocksApart(blocks, Base(th), b, m, m');
    }
  }

  lemma BaseIsLive(c: Config, m: Memory, blocks: map<nat, nat>, th: Thread)
    requires TableOk(c, m, blocks, th) && Base(th) != 0
    ensures Base(th) in blocks && blocks[Base(th)] == Asize(Capacity(m, th)) && Size(m, Base(th)) <= Capacity(m, th)
    ensures Skip(m, Base(th)) <= c.rounds
  {}

  /** An object's head, when only bytes of the table have changed. */
  lemma HeadKept(c: Config, m: Memory, blocks: map<nat, nat>, index: seq<nat>, th: Thread, m': Memory, i: nat)
    requires Shape(c, m, blocks, index, th) && AllocatorOk(blocks) && Live(m, th, i)
    requires Elsewhere(m, m', Base(th), Base(th) + blocks[Base(th)])
    ensures BackPointer(m', Address(m, th, i)) == Home(m, th, i)
    ensures ObjectFor(c, m', blocks, index, Home(m, th, i), Address(m, th, i), i)
  {
    hide LoadPointer, ObjectFor, BackPointer, AllocatorOk, Same, Elsewhere;
    var b := Home(m, th, i);
    ObjectForInBlocks(c, m, blocks, index, b, Address(m, th, i), i);
    BlocksApart(blocks, Base(th), b, m, m');
    SamePart(m, m', b, b + blocks[b], b, HeadEnd(m, blocks, th, i));
    HomeSame(c, m, m', blocks, index, th, i);
    ObjectForKept(c, m, m', blocks, blocks, index, index, b, Address(m, th, i), i);
  }

  // ---- stores ----

  lemma ElsewhereWider(m: Memory, m': Memory, a: nat, b: nat, lo: nat, hi: nat)
    requires Elsewhere(m, m', a, b) && lo <= a && b <= hi
    ensures Elsewhere(m, m', lo, hi)
  {}

  /** A word stored in the block at q, and the words around it. */
  lemma StoreInBlock(m: Memory, q: nat, n: nat, a: nat, v: nat)
    requires q <= a && a + POINTER_BYTES <= q + n && v < 0x1_0000_0000_0000_0000
    ensures var m' := StorePointer(m, a, v);
      Elsewhere(m, m', q, q + n) && LoadPointer(m', a) == v && Elsewhere(m, m', a, a + POINTER_BYTES)
  {
    hide LoadPointer, StorePointer, Elsewhere;
    StoreWord(m, a, v);
    ElsewhereWider(m, StorePointer(m, a, v), a, a + POINTER_BYTES, q, q + n);
  }

  lemma OtherWord(m: Memory, m': Memory, a: nat, b: nat)
    requires Elsewhere(m, m', a, a + POINTER_BYTES) && (b + POINTER_BYTES <= a || a + POINTER_BYTES <= b)
    ensures LoadPointer(m', b) == LoadPointer(m, b)
  {
    hide LoadPointer, Elsewhere, Same;
    ElsewhereSame(m, m', a, a + POINTER_BYTES, b, b + POINTER_BYTES);
    WordSame(m, m', b, b + POINTER_BYTES, b);
  }

  /** Storing one word of a table leaves the others. */
  lemma SlotStored(m: Memory, q: nat, j: nat, v: nat)
    requires v < 0x1_0000_0000_0000_0000
    ensures var m' := StorePointer(m, SlotAt(q, j), v);
      && Slot(m', q, j) == v && Size(m', q) == Size(m, q) && Skip(m', q) == Skip(m, q)
      && Elsewhere(m, m', SlotAt(q, j), SlotAt(q, j + 1))
      && forall i: nat :: i != j ==> Slot(m', q, i) == Slot(m, q, i)
  {
    hide LoadPointer, StorePointer, Elsewhere;
    var a := SlotAt(q, j);
    var m' := StorePointer(m, a, v);
    StoreWord(m, a, v);
    OtherWord(m, m', a, SizeAt(q));
    OtherWord(m, m', a, SkipAt(q));
    forall i: nat | i != j ensures Slot(m', q, i) == Slot(m, q, i) {
      OtherWord(m, m', a, SlotAt(q, i));
    }
  }

  lemma SizeStored(m: Memory, q: nat, v: nat)
    requires v < 0x1_0000_0000_0000_0000
    ensures var m' := StorePointer(m, SizeAt(q), v);
      && Size(m', q) == v && Skip(m', q) == Skip(m, q) && Elsewhere(m, m', SizeAt(q), SlotAt(q, 0))
      && forall i: nat :: Slot(m', q, i) == Slot(m, q, i)
  {
    hide LoadPointer, StorePointer, Elsewhere;
    var a := SizeAt(q);
    var m' := StorePointer(m, a, v);
    StoreWord(m, a, v);
    OtherWord(m, m', a, SkipAt(q));
    forall i: nat ensures Slot(m', q, i) == Slot(m, q, i) {
      OtherWord(m, m', a, SlotAt(q, i));
    }
  }

  lemma SkipStored(m: Memory, q: nat, v: nat)
    requires v < 0x1_0000_0000_0000_0000
    ensures var m' := StorePointer(m, SkipAt(q), v);
      && Skip(m', q) == v && Size(m', q) == Size(m, q) && Elsewhere(m, m', SkipAt(q), SizeAt(q))
      && forall i: nat :: Slot(m', q, i) == Slot(m, q, i)
  {
    hide LoadPointer, StorePointer, Elsewhere;
    var a := SkipAt(q);
    var m' := StorePointer(m, a, v);
    StoreWord(m, a, v);
    OtherWord(m, m', a, SizeAt(q));
    forall i: nat ensures Slot(m', q, i) == Slot(m, q, i) {
      OtherWord(m, m', a, SlotAt(q, i));
    }
  }

  /** Building a first table: clearing its slots, its skip word, its size word. */
  lemma BuildFirstKeeps(c: Config, m: Memory, blocks: map<nat, nat>, index: seq<nat>, th: Thread, m': Memory,
                        blocks': map<nat, nat>, th': Thread)
    requires c.Valid() && ThreadOk(c, m, blocks, index, th) && AllocatorOk(blocks)
    requires (th.pc.Clearing? && th.pc.first && th.pc.next < th.pc.size) || th.pc.Marking? || (th.pc.Sizing? && th.pc.first)
    requires Works(c, m, blocks, th, m', blocks', th')
    ensures ThreadOk(c, m', blocks', index, th') && Moves(m, blocks, th, m', blocks', th')
  {
    hide LoadPointer, StorePointer, Elsewhere, Shape, Moves, AllocatorOk, VisibleSame;
    var q, size := th.pc.q, th.pc.size;
    PendingLive(c, m, blocks, index, th);
    match th.pc
    case Clearing(k, i, _, _, next, _) =>
      SlotStored(m, q, next, 0);
      ElsewhereWider(m, m', SlotAt(q, next), SlotAt(q, next + 1), q, q + blocks[q]);
      PendingWrite(c, m, blocks, index, th, m', th');
    case Marking(_, _, _, _) =>
      SkipStored(m, q, c.rounds);
      ElsewhereWider(m, m', SkipAt(q), SizeAt(q), q, q + blocks[q]);
      PendingWrite(c, m, blocks, index, th, m', th');
    case Sizing(_, _, _, _, _) =>
      SizeStored(m, q, size);
      ElsewhereWider(m, m', SizeAt(q), SlotAt(q, 0), q, q + blocks[q]);
      PendingWrite(c, m, blocks, index, th, m', th');
  }

  /** Clearing the new slots of a table that has grown, and its size word. */
  lemma ClearGrownKeeps(c: Config, m: Memory, blocks: map<nat, nat>, index: seq<nat>, th: Thread, m': Memory,
                        blocks': map<nat, nat>, th': Thread)
    requires c.Valid() && ThreadOk(c, m, blocks, index, th) && AllocatorOk(blocks)
    requires th.pc.Clearing? && !th.pc.first && th.pc.next < th.pc.size
    requires Works(c, m, blocks, th, m', blocks', th')
    ensures ThreadOk(c, m', blocks', index, th') && Moves(m, blocks, th, m', blocks', th')
  {
    hide LoadPointer, StorePointer, Elsewhere, Moves, AllocatorOk, ObjectFor, BackPointer;
    var q, next := th.pc.q, th.pc.next;
    SlotStored(m, q, next, 0);
    ElsewhereWider(m, m', SlotAt(q, next), SlotAt(q, next + 1), q, q + blocks[q]);
    TableWrite(c, m, blocks, index, th, m', th');
  }

  lemma SizeGrownKeeps(c: Config, m: Memory, blocks: map<nat, nat>, index: seq<nat>, th: Thread, m': Memory,
                       blocks': map<nat, nat>, th': Thread)
    requires c.Valid() && ThreadOk(c, m, blocks, index, th) && AllocatorOk(blocks)
    requires th.pc.Sizing? && !th.pc.first && Works(c, m, blocks, th, m', blocks', th')
    ensures ThreadOk(c, m', blocks', index, th') && Moves(m, blocks, th, m', blocks', th')
  {
    hide LoadPointer, StorePointer, Elsewhere, Moves, AllocatorOk, ObjectFor, BackPointer;
    var q, size := th.pc.q, th.pc.size;
    SizeStored(m, q, size);
    ElsewhereWider(m, m', SizeAt(q), SlotAt(q, 0), q, q + blocks[q]);
    TableWrite(c, m, blocks, index, th, m', th');
  }

  /** One skipped round less. */
  lemma SkipRoundKeeps(c: Config, m: Memory, blocks: map<nat, nat>, index: seq<nat>, th: Thread, m': Memory,
                       blocks': map<nat, nat>, th': Thread)
    requires c.Valid() && ThreadOk(c, m, blocks, index, th) && AllocatorOk(blocks)
    requires th.pc.Destroying? && Skip(m, th.pc.base) > 0 && Works(c, m, blocks, th, m', blocks', th')
    ensures ThreadOk(c, m', blocks', index, th') && Moves(m, blocks, th, m', blocks', th')
  {
    hide LoadPointer, StorePointer, Elsewhere, Moves, AllocatorOk, ObjectFor, BackPointer;
    var q := th.pc.base;
    SkipStored(m, q, Skip(m, q) - 1);
    ElsewhereWider(m, m', SkipAt(q), SizeAt(q), q, q + blocks[q]);
    TableWrite(c, m, blocks, index, th, m', th');
  }

  // ---- making an object ----

  lemma PlacedInside(c: Config, blocks: map<nat, nat>, k: nat, q: nat)
    requires c.Valid() && k < |c.controls| && AllocatorOk(blocks)
    requires PowerOfTwo(Alignment(c.controls[k].align))
    requires q in blocks && blocks[q] == BlockSize(c.controls[k])
    ensures var p := Placed(q, Alignment(c.controls[k].align)); var control := c.controls[k];
      && q + POINTER_BYTES <= p && p + control.size <= q + BlockSize(control) && Aligned(p, control.align)
  {
    hide And, Pow2, PowerOfTwo, Aligned;
    Pow2Values();
    AlignedInside(q, Alignment(c.controls[k].align), c.controls[k].size);
    AlignedFor(Placed(q, Alignment(c.controls[k].align)), c.controls[k].align);
  }

  lemma NothingFilled(m: Memory, control: Control, p: nat)
    requires ControlOk(control)
    ensures Initial(m, control, p, 0)
  {
    assert Load(m, p, 0) == [] == InitialBytes(control)[..0];
  }

  /** ((void **)base)[-1] = object. */
  lemma LinkKeeps(c: Config, m: Memory, blocks: map<nat, nat>, index: seq<nat>, th: Thread, m': Memory,
                  blocks': map<nat, nat>, th': Thread)
    requires c.Valid() && ThreadOk(c, m, blocks, index, th) && AllocatorOk(blocks)
    requires th.pc.Linking? && Works(c, m, blocks, th, m', blocks', th')
    ensures ThreadOk(c, m', blocks', index, th') && Moves(m, blocks, th, m', blocks', th')
  {
    hide LoadPointer, StorePointer, Elsewhere, Shape, Moves, AllocatorOk, VisibleSame, PowerOfTwo, Placed, Pow2, InitialBytes, Initial;
    var k, q := th.pc.control, th.pc.q;
    PendingLive(c, m, blocks, index, th);
    PlacedInside(c, blocks, k, q);
    var p := Placed(q, Alignment(c.controls[k].align));
    BlockEnds(blocks, q);
    StoreInBlock(m, q, blocks[q], p - POINTER_BYTES, q);
    PendingWrite(c, m, blocks, index, th, m', th');
    ViewKept(c, m, m', blocks, index, th);
    ControlIsOk(c, k);
    NothingFilled(m', c.controls[k], p);
  }

  lemma BlockEnds(blocks: map<nat, nat>, q: nat)
    requires AllocatorOk(blocks) && q in blocks
    ensures 0 < q && q + blocks[q] < 0x1_0000_0000_0000_0000
  {}

  lemma OneByteMore(m: Memory, control: Control, p: nat, n: nat)
    requires ControlOk(control) && n < control.size && Initial(m, control, p, n)
    ensures var m' := Patch(m, p + n, [InitialBytes(control)[n]]);
      Initial(m', control, p, n + 1) && Elsewhere(m, m', p + n, p + n + 1)
  {
    hide InitialBytes;
    var bytes := InitialBytes(control);
    var m' := Patch(m, p + n, [bytes[n]]);
    assert bytes[..n + 1] == bytes[..n] + [bytes[n]];
    assert Load(m', p, n + 1) == Load(m, p, n) + [bytes[n]];
  }

  /** One byte of memcpy or memset. */
  lemma FillKeeps(c: Config, m: Memory, blocks: map<nat, nat>, index: seq<nat>, th: Thread, m': Memory,
                  blocks': map<nat, nat>, th': Thread)
    requires c.Valid() && ThreadOk(c, m, blocks, index, th) && AllocatorOk(blocks)
    requires th.pc.Filling? && th.pc.control < |c.controls| && th.pc.n < c.controls[th.pc.control].size
    requires Works(c, m, blocks, th, m', blocks', th')
    ensures ThreadOk(c, m', blocks', index, th') && Moves(m, blocks, th, m', blocks', th')
  {
    hide LoadPointer, Patch, Elsewhere, Shape, Moves, AllocatorOk, VisibleSame, Initial, InitialBytes;
    var control, q, p, n := c.controls[th.pc.control], th.pc.q, th.pc.p, th.pc.n;
    PendingLive(c, m, blocks, index, th);
    ControlIsOk(c, th.pc.control);
    OneByteMore(m, control, p, n);
    ElsewhereWider(m, m', p + n, p + n + 1, q, q + blocks[q]);
    PendingWrite(c, m, blocks, index, th, m', th');
    ViewKept(c, m, m', blocks, index, th);
    BackWordKept(m, m', p, n);
  }

  lemma BackWordKept(m: Memory, m': Memory, p: nat, n: nat)
    requires Elsewhere(m, m', p + n, p + n + 1) && p >= POINTER_BYTES
    ensures LoadPointer(m', p - POINTER_BYTES) == LoadPointer(m, p - POINTER_BYTES)
  {
    hide LoadPointer;
    ElsewhereSame(m, m', p + n, p + n + 1, p - POINTER_BYTES, p);
    WordSame(m, m', p - POINTER_BYTES, p, p - POINTER_BYTES);
  }

  /** The words of the table, and the object, after the slot is set. */
  lemma SlotIsSet(c: Config, m: Memory, blocks: map<nat, nat>, index: seq<nat>, th: Thread, m': Memory)
    requires c.Valid() && ThreadOk(c, m, blocks, index, th) && AllocatorOk(blocks)
    requires th.pc.Setting? && m' == StorePointer(m, SlotAt(th.key, th.pc.index - 1), th.pc.p)
    ensures var base, i, p := th.key, th.pc.index - 1, th.pc.p; var control := c.controls[th.pc.control];
      && Elsewhere(m, m', base, base + blocks[base]) && Size(m', base) == Size(m, base) && Skip(m', base) == Skip(m, base)
      && (forall j: nat :: Slot(m', base, j) == if j == i then p else Slot(m, base, j))
      && ControlOk(control) && Linked(m', control, th.pc.q, p) && Initial(m', control, p, control.size) && p != 0
  {
    hide LoadPointer, StorePointer, Elsewhere, AllocatorOk, ObjectFor, BackPointer, Same, Initial, ControlOk;
    var k, i, q, p := th.pc.control, th.pc.index, th.pc.q, th.pc.p;
    var control, base := c.controls[k], th.key;
    BlockEnds(blocks, q);
    SlotStored(m, base, i - 1, p);
    ElsewhereWider(m, m', SlotAt(base, i - 1), SlotAt(base, i), base, base + blocks[base]);
    BlocksApart(blocks, base, q, m, m');
    ControlIsOk(c, k);
    LinkedKept(m, m', control, q, p, control.size);
  }

  /** One more slot is live, and lives in the block that was pending. */
  lemma OneMoreLive(c: Config, m: Memory, blocks: map<nat, nat>, index: seq<nat>, th: Thread, m': Memory, th': Thread)
    requires c.Valid() && ThreadOk(c, m, blocks, index, th) && AllocatorOk(blocks)
    requires th.pc.Setting? && Works(c, m, blocks, th, m', blocks, th')
    ensures forall j: nat :: Live(m', th', j) <==> Live(m, th, j) || j == th.pc.index - 1
    ensures forall j: nat :: Live(m, th, j) && j != th.pc.index - 1 ==>
      Address(m', th', j) == Address(m, th, j) && Home(m', th', j) == Home(m, th, j)
    ensures Home(m', th', th.pc.index - 1) == th.pc.q && Address(m', th', th.pc.index - 1) == th.pc.p
    ensures ObjectsOk(c, m', blocks, index, th') && !Live(m, th, th.pc.index - 1)
  {
    hide LoadPointer, StorePointer, Elsewhere, AllocatorOk, ObjectFor, BackPointer, Same, Initial, ControlOk, Linked;
    SlotIsSet(c, m, blocks, index, th, m');
    NewObject(c, m', blocks, index, th.pc.control, th.pc.index, th.pc.q, th.pc.p);
    forall j: nat | Live(m, th, j) && j != th.pc.index - 1
      ensures Home(m', th', j) == Home(m, th, j) && ObjectFor(c, m', blocks, index, Home(m', th', j), Address(m', th', j), j)
    {
      HeadKept(c, m, blocks, index, th, m', j);
    }
  }

  /** array->data[index] = base: the finished object becomes the slot's. */
  lemma SetKeeps(c: Config, m: Memory, blocks: map<nat, nat>, index: seq<nat>, th: Thread, m': Memory,
                 blocks': map<nat, nat>, th': Thread)
    requires c.Valid() && ThreadOk(c, m, blocks, index, th) && AllocatorOk(blocks)
    requires th.pc.Setting? && Works(c, m, blocks, th, m', blocks', th')
    ensures ThreadOk(c, m', blocks', index, th') && Moves(m, blocks, th, m', blocks', th')
  {
    hide LoadPointer, StorePointer, Elsewhere, AllocatorOk, ObjectFor, BackPointer, Same, Initial, Moves, ControlOk, ObjectsOk, Linked;
    SlotIsSet(c, m, blocks, index, th, m');
    OneMoreLive(c, m, blocks, index, th, m', th');
    SetMoves(c, m, blocks, index, th, m', th', th.pc.index - 1);
    UnsharedWithOne(m, th, m', th', th.pc.index - 1);
  }

  lemma UnsharedWithOne(m: Memory, th: Thread, m': Memory, th': Thread, i: nat)
    requires Unshared(m, th) && Pending(th) != 0 && Base(th') == Base(th) && Pending(th') == 0 && !Live(m, th, i)
    requires forall j: nat :: Live(m', th', j) <==> Live(m, th, j) || j == i
    requires forall j: nat :: Live(m, th, j) && j != i ==> Home(m', th', j) == Home(m, th, j)
    requires Home(m', th', i) == Pending(th)
    ensures Unshared(m', th')
  {
    hide Live, Home, Base, Pending;
  }

  lemma NewObject(c: Config, m: Memory, blocks: map<nat, nat>, index: seq<nat>, k: nat, i: nat, q: nat, p: nat)
    requires Known(c, index, k, i) && q in blocks && blocks[q] == BlockSize(c.controls[k]) && Linked(m, c.controls[k], q, p)
    ensures BackPointer(m, p) == q && ObjectFor(c, m, blocks, index, q, p, i - 1)
  {
    hide LoadPointer;
    assert Owner(index, k, i - 1);
  }

  lemma SetMoves(c: Config, m: Memory, blocks: map<nat, nat>, index: seq<nat>, th: Thread, m': Memory, th': Thread,
                 i: nat)
    requires Shape(c, m, blocks, index, th) && AllocatorOk(blocks) && Base(th) != 0 && Pending(th) != 0
    requires Elsewhere(m, m', Base(th), Base(th) + blocks[Base(th)])
    requires Base(th') == Base(th) && Pending(th') == 0
    requires forall j: nat :: Live(m', th', j) <==> Live(m, th, j) || j == i
    requires forall j: nat :: Live(m', th', j) && j != i ==> Home(m', th', j) == Home(m, th, j)
    requires forall j: nat :: Live(m', th', j) && j != i ==> Address(m', th', j) == Address(m, th, j)
    requires Home(m', th', i) == Pending(th) && !Live(m, th, i)
    requires Fresh(th', i)
    ensures Moves(m, blocks, th, m', blocks, th')
  {
    hide LoadPointer, Elsewhere, AllocatorOk, ObjectFor, BackPointer, Same, Live, Home;
    BaseIsLive(c, m, blocks, th);
    forall b | b in blocks && !Owns(m, th, b) ensures Same(m, m', b, b + blocks[b]) {
      BlocksApart(blocks, Base(th), b, m, m');
    }
    forall b | Owns(m', th', b) ensures Owns(m, th, b) {
      if b != Base(th') {
        var j: nat :| Live(m', th', j) && Home(m', th', j) == b;
        if j == i {
          ZeroIsNoBlock(blocks);
        } else {
          assert Live(m, th, j) && Home(m, th, j) == b;
        }
      }
    }
  }

  // ---- malloc, realloc, free ----

  /** Indices are few enough for the size arithmetic. */
  ghost predicate Few(index: seq<nat>) {
    forall k :: 0 <= k < |index| ==> index[k] < 0x200_0000_0000_0000
  }

  lemma NewSizeFits(c: Config, index: seq<nat>, k: nat, i: nat)
    requires Known(c, index, k, i) && Few(index)
    ensures i <= NewDataArraySize(i) < 0x1_0000_0000_0000_0000
  {
    hide NewDataArraySize;
    NewSizeIsEnough(i);
  }

  /** Outside the new block nothing has changed for anybody. */
  lemma MallocHarmless(m: Memory, blocks: map<nat, nat>, q: nat, n: nat, m': Memory, blocks': map<nat, nat>)
    requires AllocatorOk(blocks) && 0 < n && Mallocs(m, blocks, q, n, m', blocks')
    ensures AllocatorOk(blocks') && q !in blocks && q != 0
    ensures forall b :: b in blocks ==> b in blocks' && blocks'[b] == blocks[b] && Same(m, m', b, b + blocks[b])
  {
    AllocatorAfterMalloc(blocks, q, n);
  }

  /** The thread with a new pending block. */
  lemma NowPending(c: Config, m: Memory, blocks: map<nat, nat>, index: seq<nat>, th: Thread, q: nat, n: nat,
                   m': Memory, blocks': map<nat, nat>, th': Thread)
    requires Shape(c, m, blocks, index, th) && AllocatorOk(blocks) && 0 < n && Mallocs(m, blocks, q, n, m', blocks')
    requires Pending(th) == 0 && Base(th') == Base(th) && Pending(th') == q && First(m', th') == First(m', th)
    requires (Base(th) != 0 ==> Capacity(m', th') == Capacity(m', th)) && PendingBytes(c, th') == n
    ensures Shape(c, m', blocks', index, th') && Moves(m, blocks, th, m', blocks', th')
    ensures VisibleSame(m, m', blocks, th)
  {
    hide LoadPointer, AllocatorOk, ObjectFor, BackPointer, Same, Elsewhere, Available, HeadEnd, VisibleSame, PendingSame, BlocksKept;
    MallocHarmless(m, blocks, q, n, m', blocks');
    ZeroIsNoBlock(blocks);
    OwnedLive(c, m, blocks, index, th);
    Harmless(c, m, blocks, index, th, m', blocks');
    ViewKept(c, m, m', blocks, index, th);
    ShapeKept(c, m, m', blocks, blocks', index, index, th);
    assert Base(th) != 0 ==> Owns(m, th, Base(th));
    forall i: nat | Live(m', th', i) ensures Live(m', th, i) && Live(m, th, i) && Home(m', th', i) in blocks {
      assert Owns(m, th, Home(m, th, i));
    }
    StillOwned(m', th, th');
  }

  lemma StillOwned(m: Memory, th: Thread, th': Thread)
    requires Base(th') == Base(th) && First(m, th') == First(m, th)
    ensures forall i: nat :: Live(m, th', i) <==> Live(m, th, i)
    ensures forall b :: Owns(m, th', b) && b != Pending(th') ==> Owns(m, th, b)
  {
    hide LoadPointer;
  }

  lemma ObtainFirstKeeps(c: Config, m: Memory, blocks: map<nat, nat>, index: seq<nat>, th: Thread, q: nat,
                         m': Memory, blocks': map<nat, nat>, th': Thread)
    requires c.Valid() && ThreadOk(c, m, blocks, index, th) && AllocatorOk(blocks) && Few(index)
    requires th.pc.NewTable? && Obtains(c, m, blocks, th, q, m', blocks', th')
    ensures ThreadOk(c, m', blocks', index, th') && Moves(m, blocks, th, m', blocks', th')
  {
    hide LoadPointer, AllocatorOk, Shape, Moves, Mallocs, NewDataArraySize, VisibleSame;
    NewSizeFits(c, index, th.pc.control, th.pc.index);
    NonZeroMalloc(m, blocks, q, Asize(NewDataArraySize(th.pc.index)), m', blocks');
    NowPending(c, m, blocks, index, th, q, Asize(NewDataArraySize(th.pc.index)), m', blocks', th');
  }

  lemma NonZeroMalloc(m: Memory, blocks: map<nat, nat>, q: nat, n: nat, m': Memory, blocks': map<nat, nat>)
    requires Mallocs(m, blocks, q, n, m', blocks')
    ensures q != 0
  {}

  lemma ObtainObjectKeeps(c: Config, m: Memory, blocks: map<nat, nat>, index: seq<nat>, th: Thread, q: nat,
                          m': Memory, blocks': map<nat, nat>, th': Thread)
    requires c.Valid() && ThreadOk(c, m, blocks, index, th) && AllocatorOk(blocks)
    requires th.pc.Allocating? && Obtains(c, m, blocks, th, q, m', blocks', th')
    ensures ThreadOk(c, m', blocks', index, th') && Moves(m, blocks, th, m', blocks', th')
  {
    hide LoadPointer, AllocatorOk, Shape, Moves, Mallocs, PowerOfTwo, VisibleSame;
    var n := BlockSize(c.controls[th.pc.control]);
    NonZeroMalloc(m, blocks, q, n, m', blocks');
    NowPending(c, m, blocks, index, th, q, n, m', blocks', th');
    ViewKept(c, m, m', blocks, index, th);
  }

  /** realloc moves the words of the table. */
  lemma TableMoved(m: Memory, m': Memory, base: nat, q: nat, n: nat, capacity: nat)
    requires Load(m', q, n) == Load(m, base, n) && n == Asize(capacity)
    ensures Skip(m', q) == Skip(m, base) && Size(m', q) == Size(m, base)
    ensures forall i: nat :: i < capacity ==> Slot(m', q, i) == Slot(m, base, i)
  {
    hide LoadPointer, Load;
    WordMoved(m, m', base, q, n, 0);
    WordMoved(m, m', base, q, n, POINTER_BYTES);
    forall i: nat | i < capacity ensures Slot(m', q, i) == Slot(m, base, i) {
      WordMoved(m, m', base, q, n, Asize(i));
    }
  }

  lemma WordMoved(m: Memory, m': Memory, base: nat, q: nat, n: nat, offset: nat)
    requires Load(m', q, n) == Load(m, base, n) && offset + POINTER_BYTES <= n
    ensures LoadPointer(m', q + offset) == LoadPointer(m, base + offset)
  {
    assert Load(m', q + offset, POINTER_BYTES) == Load(m', q, n)[offset..offset + POINTER_BYTES];
    assert Load(m, base + offset, POINTER_BYTES) == Load(m, base, n)[offset..offset + POINTER_BYTES];
  }

  /** Blocks other than the one reallocated stay as they are. */
  lemma ReallocHarmless(m: Memory, blocks: map<nat, nat>, base: nat, q: nat, n: nat, m': Memory, blocks': map<nat, nat>)
    requires AllocatorOk(blocks) && 0 < n && Reallocs(m, blocks, base, q, n, m', blocks')
    ensures AllocatorOk(blocks') && q != 0 && (q == base || q !in blocks)
    ensures forall b :: b in blocks && b != base ==> b != q && b in blocks' && blocks'[b] == blocks[b] && Same(m, m', b, b + blocks[b])
  {
    hide Load;
    AllocatorAfterFree(blocks, {base});
    AllocatorAfterMalloc(blocks - {base}, q, n);
    forall b | b in blocks && b != base ensures b != q && b in blocks' && blocks'[b] == blocks[b] && Same(m, m', b, b + blocks[b]) {
      assert b in blocks - {base};
      assert Apart(base, blocks[base], b, blocks[b]);
    }
  }

  /** The thread's table after realloc: the same slots at another place. */
  lemma GrownView(c: Config, m: Memory, blocks: map<nat, nat>, index: seq<nat>, th: Thread, q: nat, n: nat,
                  m': Memory, blocks': map<nat, nat>, th': Thread)
    requires Shape(c, m, blocks, index, th) && AllocatorOk(blocks) && Pending(th) == 0 && First(m, th) == 0 && Base(th) != 0
    requires Asize(Capacity(m, th)) <= n && Reallocs(m, blocks, Base(th), q, n, m', blocks')
    requires Base(th') == q && First(m', th') == 0 && !Grown(th.pc)
    requires forall i: nat :: !Fresh(th, i)
    ensures Skip(m', q) == Skip(m, Base(th)) && Size(m', q) == Size(m, Base(th)) && q != 0
    ensures forall i: nat :: i < Size(m, Base(th)) ==> Slot(m', q, i) == Slot(m, Base(th), i)
    ensures forall i: nat :: Live(m', th', i) <==> Live(m, th, i)
    ensures forall i: nat :: Live(m, th, i) ==> Address(m', th', i) == Address(m, th, i) && Home(m', th', i) == Home(m, th, i)
    ensures ObjectsOk(c, m', blocks', index, th')
  {
    hide LoadPointer, AllocatorOk, ObjectFor, BackPointer, Same, Load, Available;
    var base := Base(th);
    BaseIsLive(c, m, blocks, th);
    ReallocHarmless(m, blocks, base, q, n, m', blocks');
    TableMoved(m, m', base, q, blocks[base], Capacity(m, th));
    forall i: nat | Live(m, th, i)
      ensures BackPointer(m', Address(m, th, i)) == Home(m, th, i)
      ensures ObjectFor(c, m', blocks', index, Home(m, th, i), Address(m, th, i), i)
    {
      var b := Home(m, th, i);
      ObjectForInBlocks(c, m, blocks, index, b, Address(m, th, i), i);
      SamePart(m, m', b, b + blocks[b], b, HeadEnd(m, blocks, th, i));
      HomeSame(c, m, m', blocks, index, th, i);
      ObjectForKept(c, m, m', blocks, blocks', index, index, b, Address(m, th, i), i);
    }
  }

  lemma GrowKeeps(c: Config, m: Memory, blocks: map<nat, nat>, index: seq<nat>, th: Thread, q: nat,
                  m': Memory, blocks': map<nat, nat>, th': Thread)
    requires c.Valid() && ThreadOk(c, m, blocks, index, th) && AllocatorOk(blocks) && Few(index)
    requires th.pc.Growing? && Obtains(c, m, blocks, th, q, m', blocks', th')
    ensures ThreadOk(c, m', blocks', index, th') && Moves(m, blocks, th, m', blocks', th')
  {
    hide LoadPointer, AllocatorOk, ObjectFor, BackPointer, Same, Load, Available, NewDataArraySize, ObjectsOk;
    var n := Asize(NewDataArraySize(th.pc.index));
    NewSizeFits(c, index, th.pc.control, th.pc.index);
    GrownView(c, m, blocks, index, th, q, n, m', blocks', th');
    ReallocHarmless(m, blocks, th.key, q, n, m', blocks');
    OwnedLive(c, m, blocks, index, th);
    forall i: nat | Live(m, th, i) ensures Home(m, th, i) != q {
      assert Owns(m, th, Home(m, th, i));
    }
    assert Owns(m, th, th.key);
  }

  lemma FreesHarmless(m: Memory, blocks: map<nat, nat>, b: nat, m': Memory, blocks': map<nat, nat>)
    requires AllocatorOk(blocks) && b in blocks && Frees(m, blocks, b, m', blocks')
    ensures AllocatorOk(blocks')
    ensures forall d :: d in blocks && d != b ==> d in blocks' && blocks'[d] == blocks[d] && Same(m, m', d, d + blocks[d])
  {
    hide Same, Elsewhere;
    AllocatorAfterFree(blocks, {b});
    forall d | d in blocks && d != b ensures Same(m, m', d, d + blocks[d]) {
      BlocksApart(blocks, b, d, m, m');
    }
  }

  /** With fewer live slots nothing else changes. */
  lemma FewerLive(c: Config, m: Memory, blocks: map<nat, nat>, index: seq<nat>, th: Thread, th': Thread)
    requires Shape(c, m, blocks, index, th) && Pending(th) == Pending(th') == 0
    requires Base(th') == Base(th) && (Base(th) != 0 ==> Capacity(m, th') == Capacity(m, th))
    requires forall i: nat :: Live(m, th', i) ==> Live(m, th, i)
    ensures Shape(c, m, blocks, index, th')
    ensures forall b :: Owns(m, th', b) ==> Owns(m, th, b)
  {
    hide LoadPointer, ObjectFor, BackPointer;
  }

  /** After the block of a live object has been freed. */
  lemma AfterFree(c: Config, m: Memory, blocks: map<nat, nat>, index: seq<nat>, th: Thread, b: nat,
                  m': Memory, blocks': map<nat, nat>, th': Thread)
    requires Shape(c, m, blocks, index, th) && Shape(c, m, blocks, index, th') && AllocatorOk(blocks)
    requires b in blocks && Frees(m, blocks, b, m', blocks')
    requires Owns(m, th, b) && b in Freed(m, th) && (forall d :: Owns(m, th', d) <==> Owns(m, th, d) && d != b)
    requires Inherits(m, th, m, th') && forall i: nat :: !Fresh(th', i)
    ensures Shape(c, m', blocks', index, th') && Moves(m, blocks, th, m', blocks', th')
    ensures VisibleSame(m, m', blocks, th')
  {
    hide LoadPointer, ObjectFor, BackPointer, Same, Elsewhere, AllocatorOk, Shape, Owns, VisibleSame, PendingSame, BlocksKept;
    FreesHarmless(m, blocks, b, m', blocks');
    ZeroIsNoBlock(blocks);
    Harmless(c, m, blocks, index, th', m', blocks');
    ViewKept(c, m, m', blocks, index, th');
    ShapeKept(c, m, m', blocks, blocks', index, index, th');
  }

  /** emutls_memalign_free on the next object: its block is live, and the thread's. */
  lemma FreeObjectKeeps(c: Config, m: Memory, blocks: map<nat, nat>, index: seq<nat>, th: Thread, m': Memory,
                        blocks': map<nat, nat>, th': Thread)
    requires c.Valid() && ThreadOk(c, m, blocks, index, th) && AllocatorOk(blocks)
    requires th.pc.Shutting? && th.pc.next < Size(m, th.pc.base) && Slot(m, th.pc.base, th.pc.next) != 0
    requires Works(c, m, blocks, th, m', blocks', th')
    ensures Live(m, th, th.pc.next) && Owns(m, th, Home(m, th, th.pc.next)) && Home(m, th, th.pc.next) in blocks
    ensures Shape(c, m, blocks, index, th') && VisibleSame(m, m', blocks, th')
    ensures ThreadOk(c, m', blocks', index, th') && Moves(m, blocks, th, m', blocks', th')
  {
    hide LoadPointer, ObjectFor, BackPointer, AllocatorOk, Frees, Moves, VisibleSame;
    var i := th.pc.next;
    assert Live(m, th, i);
    var b := Home(m, th, i);
    assert Owns(m, th, b);
    OwnedLive(c, m, blocks, index, th);
    ZeroIsNoBlock(blocks);
    FewerLive(c, m, blocks, index, th, th');
    forall d | Owns(m, th, d) && d != b ensures Owns(m, th', d) {
      if d != Base(th) {
        var j: nat :| Live(m, th, j) && Home(m, th, j) == d;
        assert Live(m, th', j) && Home(m, th', j) == d;
      }
    }
    AfterFree(c, m, blocks, index, th, b, m', blocks', th');
    ViewKept(c, m, m', blocks, index, th');
  }

  /** free(ptr), when every object of the table is gone. */
  lemma FreeTableKeeps(c: Config, m: Memory, blocks: map<nat, nat>, index: seq<nat>, th: Thread, m': Memory,
                       blocks': map<nat, nat>, th': Thread)
    requires c.Valid() && ThreadOk(c, m, blocks, index, th) && AllocatorOk(blocks)
    requires th.pc.FreeingTable? && Works(c, m, blocks, th, m', blocks', th')
    ensures Owns(m, th, th.pc.base) && th.pc.base in blocks
    ensures ThreadOk(c, m', blocks', index, th') && Moves(m, blocks, th, m', blocks', th')
  {
    hide LoadPointer, ObjectFor, BackPointer, AllocatorOk, Frees, Moves, VisibleSame;
    assert Owns(m, th, th.pc.base);
    assert forall i: nat :: !Live(m, th, i) && !Live(m, th', i);
    AfterFree(c, m, blocks, index, th, th.pc.base, m', blocks', th');
  }

  // ---- every step of a thread ----

  lemma WorkKeeps(c: Config, m: Memory, blocks: map<nat, nat>, index: seq<nat>, th: Thread, m': Memory,
                  blocks': map<nat, nat>, th': Thread)
    requires c.Valid() && ThreadOk(c, m, blocks, index, th) && AllocatorOk(blocks) && Works(c, m, blocks, th, m', blocks', th')
    ensures ThreadOk(c, m', blocks', index, th') && Moves(m, blocks, th, m', blocks', th')
  {
    hide ThreadOk, Works, Moves, AllocatorOk, Size, Slot, Skip;
    WorkingPc(c, m, blocks, th, m', blocks', th');
    match th.pc
    case Fetching(_, _) => LookKeeps(c, m, blocks, index, th, m', blocks', th');
    case Looking(_, _) => LookKeeps(c, m, blocks, index, th, m', blocks', th');
    case Reading(_, _, _) => LookKeeps(c, m, blocks, index, th, m', blocks', th');
    case Clearing(_, _, _, size, next, first) =>
      if next >= size {
        LoopEndKeeps(c, m, blocks, index, th, m', blocks', th');
      } else if first {
        BuildFirstKeeps(c, m, blocks, index, th, m', blocks', th');
      } else {
        ClearGrownKeeps(c, m, blocks, index, th, m', blocks', th');
      }
    case Marking(_, _, _, _) => BuildFirstKeeps(c, m, blocks, index, th, m', blocks', th');
    case Sizing(_, _, _, _, first) =>
      if first {
        BuildFirstKeeps(c, m, blocks, index, th, m', blocks', th');
      } else {
        SizeGrownKeeps(c, m, blocks, index, th, m', blocks', th');
      }
    case Publishing(_, _, _, _, first) =>
      if first {
        PublishFirstKeeps(c, m, blocks, index, th, m', blocks', th');
      } else {
        PublishGrownKeeps(c, m, blocks, index, th, m', blocks', th');
      }
    case Linking(_, _, _) => LinkKeeps(c, m, blocks, index, th, m', blocks', th');
    case Filling(k, _, _, _, n) =>
      if n < c.controls[k].size {
        FillKeeps(c, m, blocks, index, th, m', blocks', th');
      } else {
        LoopEndKeeps(c, m, blocks, index, th, m', blocks', th');
      }
    case Setting(_, _, _, _) => SetKeeps(c, m, blocks, index, th, m', blocks', th');
    case Destroying(base) =>
      if Skip(m, base) > 0 {
        SkipRoundKeeps(c, m, blocks, index, th, m', blocks', th');
      } else {
        DestructorLooks(c, m, blocks, index, th, m', blocks', th');
      }
    case Restoring(_) => DestructorLooks(c, m, blocks, index, th, m', blocks', th');
    case Shutting(base, next) =>
      if next >= Size(m, base) || Slot(m, base, next) == 0 {
        DestructorLooks(c, m, blocks, index, th, m', blocks', th');
      } else {
        FreeObjectKeeps(c, m, blocks, index, th, m', blocks', th');
      }
    case FreeingTable(_) => FreeTableKeeps(c, m, blocks, index, th, m', blocks', th');
  }

  lemma WorkingPc(c: Config, m: Memory, blocks: map<nat, nat>, th: Thread, m': Memory, blocks': map<nat, nat>,
                  th': Thread)
    requires c.Valid() && Works(c, m, blocks, th, m', blocks', th')
    ensures !th.pc.Idle? && !th.pc.Indexing? && !th.pc.NewTable? && !th.pc.Growing? && !th.pc.Allocating? && !th.pc.Returning?
    ensures th.pc.Filling? ==> th.pc.control < |c.controls|
  {}

  lemma ObtainKeeps(c: Config, m: Memory, blocks: map<nat, nat>, index: seq<nat>, th: Thread, q: nat,
                    m': Memory, blocks': map<nat, nat>, th': Thread)
    requires c.Valid() && ThreadOk(c, m, blocks, index, th) && AllocatorOk(blocks) && Few(index)
    requires Obtains(c, m, blocks, th, q, m', blocks', th')
    ensures ThreadOk(c, m', blocks', index, th') && Moves(m, blocks, th, m', blocks', th')
  {
    hide ThreadOk, Moves, AllocatorOk, Mallocs, Reallocs, NewDataArraySize, Size;
    match th.pc
    case NewTable(_, _) => ObtainFirstKeeps(c, m, blocks, index, th, q, m', blocks', th');
    case Growing(_, _) => GrowKeeps(c, m, blocks, index, th, q, m', blocks', th');
    case Allocating(_, _) => ObtainObjectKeeps(c, m, blocks, index, th, q, m', blocks', th');
  }

  // ---- the table stays what it is ----

  /** Slot i of the thread's table holds the address p. */
  predicate Holds(m: Memory, th: Thread, i: nat, p: nat) {
    Base(th) != 0 && i < Size(m, Base(th)) && Slot(m, Base(th), i) == p != 0
  }

  /** How many more times the thread has to exit until its table is freed. */
  function ExitsLeft(m: Memory, th: Thread): nat {
    if th.pc.Shutting? || th.pc.FreeingTable? then 0
    else if th.pc.Destroying? then Skip(m, Base(th))
    else Skip(m, Base(th)) + 1
  }

  /** Occupied slots hold what they held, and no round is lost or won. */
  ghost predicate TableKept(m: Memory, th: Thread, m': Memory, th': Thread) {
    Base(th) != 0 ==>
      && Base(th') != 0 && Size(m, Base(th)) <= Size(m', Base(th')) && ExitsLeft(m', th') == ExitsLeft(m, th)
      && forall i: nat :: i < Size(m, Base(th)) && Slot(m, Base(th), i) != 0 ==>
        Slot(m', Base(th'), i) == Slot(m, Base(th), i)
  }

  /** A change elsewhere in memory, or of the thread's place only. */
  lemma ElsewhereKeepsTable(c: Config, m: Memory, m': Memory, blocks: map<nat, nat>, index: seq<nat>, th: Thread, th': Thread)
    requires Shape(c, m, blocks, index, th) && VisibleSame(m, m', blocks, th)
    requires Base(th') == Base(th) && (Base(th) != 0 ==> ExitsLeft(m', th') == ExitsLeft(m', th))
    ensures TableKept(m, th, m', th')
  {
    hide LoadPointer, VisibleSame, Owns, ObjectsOk;
    ViewKept(c, m, m', blocks, index, th);
  }

  lemma PlaceKeepsTable(m: Memory, th: Thread, th': Thread)
    requires Base(th') == Base(th) && (Base(th) != 0 ==> ExitsLeft(m, th') == ExitsLeft(m, th))
    ensures TableKept(m, th, m, th')
  {}

  /** Filling in an object does not touch the table. */
  lemma PendingKeepsTable(c: Config, m: Memory, blocks: map<nat, nat>, index: seq<nat>, th: Thread,
                          m': Memory, blocks': map<nat, nat>, th': Thread)
    requires c.Valid() && ThreadOk(c, m, blocks, index, th) && AllocatorOk(blocks) && Works(c, m, blocks, th, m', blocks', th')
    requires th.pc.Linking? || th.pc.Filling?
    ensures TableKept(m, th, m', th')
  {
    hide LoadPointer, StorePointer, Patch, Elsewhere, Shape, AllocatorOk, VisibleSame, PowerOfTwo, Placed, Pow2, InitialBytes,
      Initial, TableKept;
    PendingLive(c, m, blocks, index, th);
    var k, q := th.pc.control, th.pc.q;
    ControlIsOk(c, k);
    if th.pc.Linking? {
      PlacedInside(c, blocks, k, q);
      BlockEnds(blocks, q);
      StoreInBlock(m, q, blocks[q], Placed(q, Alignment(c.controls[k].align)) - POINTER_BYTES, q);
      PendingVisible(c, m, blocks, index, th, m');
      ElsewhereKeepsTable(c, m, m', blocks, index, th, th');
    } else if th.pc.n < c.controls[k].size {
      OneByteMore(m, c.controls[k], th.pc.p, th.pc.n);
      ElsewhereWider(m, m', th.pc.p + th.pc.n, th.pc.p + th.pc.n + 1, q, q + blocks[q]);
      PendingVisible(c, m, blocks, index, th, m');
      ElsewhereKeepsTable(c, m, m', blocks, index, th, th');
    } else {
      PlaceKeepsTable(m, th, th');
    }
  }

  /** Stores into the table leave occupied slots alone. */
  lemma StoreKeepsTable(c: Config, m: Memory, blocks: map<nat, nat>, index: seq<nat>, th: Thread,
                        m': Memory, blocks': map<nat, nat>, th': Thread)
    requires c.Valid() && ThreadOk(c, m, blocks, index, th) && AllocatorOk(blocks) && Works(c, m, blocks, th, m', blocks', th')
    requires th.pc.Clearing? || th.pc.Marking? || th.pc.Sizing? || th.pc.Setting? || th.pc.Destroying?
    ensures TableKept(m, th, m', th')
  {
    hide LoadPointer, StorePointer, Elsewhere, AllocatorOk, ObjectsOk, Unshared, Initial;
    var base := Base(th);
    WordBound(m, SkipAt(base));
    match th.pc
    case Clearing(_, _, q, size, next, _) =>
      if next < size {
        SlotStored(m, q, next, 0);
      }
    case Sizing(_, _, q, size, _) => SizeStored(m, q, size);
    case Setting(_, j, q, v) =>
      BlockEnds(blocks, q);
      SlotStored(m, base, j - 1, v);
    case Destroying(_) =>
      if Skip(m, base) > 0 {
        SkipStored(m, base, Skip(m, base) - 1);
      }
    case _ =>
  }

  /** As long as the table is not freed. */
  lemma WorkKeepsTable(c: Config, m: Memory, blocks: map<nat, nat>, index: seq<nat>, th: Thread,
                       m': Memory, blocks': map<nat, nat>, th': Thread)
    requires c.Valid() && ThreadOk(c, m, blocks, index, th) && AllocatorOk(blocks) && Works(c, m, blocks, th, m', blocks', th')
    requires !th.pc.FreeingTable?
    ensures TableKept(m, th, m', th')
  {
    hide LoadPointer, AllocatorOk, Shape, TableKept, Frees, VisibleSame, Initial, Null;
    if th.pc.Linking? || th.pc.Filling? {
      PendingKeepsTable(c, m, blocks, index, th, m', blocks', th');
    } else if th.pc.Clearing? || th.pc.Marking? || th.pc.Sizing? || th.pc.Setting? || th.pc.Destroying? {
      StoreKeepsTable(c, m, blocks, index, th, m', blocks', th');
    } else if th.pc.Shutting? && th.pc.next < Size(m, th.pc.base) && Slot(m, th.pc.base, th.pc.next) != 0 {
      FreeKeepsTable(c, m, blocks, index, th, m', blocks', th');
    } else if th.pc.Publishing? {
      PublishKeepsTable(c, m, blocks, index, th, m', blocks', th');
    } else {
      PlaceKeepsTable(m, th, th');
    }
  }

  lemma PublishKeepsTable(c: Config, m: Memory, blocks: map<nat, nat>, index: seq<nat>, th: Thread,
                          m': Memory, blocks': map<nat, nat>, th': Thread)
    requires c.Valid() && ThreadOk(c, m, blocks, index, th) && Works(c, m, blocks, th, m', blocks', th')
    requires th.pc.Publishing?
    ensures TableKept(m, th, m', th')
    ensures th.pc.first ==> Base(th') != 0 && ExitsLeft(m', th') == c.rounds + 1
  {
    hide LoadPointer;
  }

  lemma FreeKeepsTable(c: Config, m: Memory, blocks: map<nat, nat>, index: seq<nat>, th: Thread,
                       m': Memory, blocks': map<nat, nat>, th': Thread)
    requires c.Valid() && ThreadOk(c, m, blocks, index, th) && AllocatorOk(blocks) && Works(c, m, blocks, th, m', blocks', th')
    requires th.pc.Shutting? && th.pc.next < Size(m, th.pc.base) && Slot(m, th.pc.base, th.pc.next) != 0
    ensures TableKept(m, th, m', th')
  {
    hide LoadPointer, AllocatorOk, ObjectFor, BackPointer, Same, Elsewhere;
    FreeObjectKeeps(c, m, blocks, index, th, m', blocks', th');
    var base, b := th.pc.base, Home(m, th, th.pc.next);
    FreesHarmless(m, blocks, b, m', blocks');
    TableSame(m, m', base, blocks[base], Size(m, base));
  }

  lemma ObtainKeepsTable(c: Config, m: Memory, blocks: map<nat, nat>, index: seq<nat>, th: Thread, q: nat,
                         m': Memory, blocks': map<nat, nat>, th': Thread)
    requires c.Valid() && ThreadOk(c, m, blocks, index, th) && AllocatorOk(blocks) && Few(index)
    requires Obtains(c, m, blocks, th, q, m', blocks', th')
    ensures TableKept(m, th, m', th')
  {
    hide LoadPointer, AllocatorOk, ObjectFor, BackPointer, Same, Elsewhere, Available, NewDataArraySize, Load, PowerOfTwo;
    match th.pc
    case NewTable(_, _) =>
    case Growing(k, j) =>
      NewSizeFits(c, index, k, j);
      GrownView(c, m, blocks, index, th, q, Asize(NewDataArraySize(j)), m', blocks', th');
    case Allocating(k, _) =>
      MallocHarmless(m, blocks, q, BlockSize(c.controls[k]), m', blocks');
      TableSame(m, m', Base(th), blocks[Base(th)], Capacity(m, th));
  }

  // ---- what the destructor frees ----

  /** The blocks of the objects in slots from..size, in slot order. */
  function LiveHomes(m: Memory, base: nat, from: nat, size: nat): seq<nat>
    decreases size - from
  {
    if from >= size then []
    else
      (if Slot(m, base, from) == 0 then [] else [BackPointer(m, Slot(m, base, from))]) + LiveHomes(m, base, from + 1, size)
  }

  /** The blocks a thread's destructor has still to free: those of its objects in
      slot order, and then the table. */
  function Remaining(m: Memory, th: Thread): seq<nat> {
    if Base(th) == 0 then [] else LiveHomes(m, Base(th), First(m, th), Size(m, Base(th))) + [Base(th)]
  }

  predicate Ending(th: Thread) { th.pc.Shutting? || th.pc.FreeingTable? }

  lemma {:induction false} LiveHomesSame(m: Memory, m': Memory, base: nat, from: nat, size: nat)
    requires forall i: nat :: from <= i < size ==> Slot(m', base, i) == Slot(m, base, i)
    requires forall i: nat :: from <= i < size && Slot(m, base, i) != 0 ==>
      BackPointer(m', Slot(m, base, i)) == BackPointer(m, Slot(m, base, i))
    ensures LiveHomes(m', base, from, size) == LiveHomes(m, base, from, size)
    decreases size - from
  {
    hide LoadPointer, BackPointer;
    if from < size {
      LiveHomesSame(m, m', base, from + 1, size);
    }
  }

  lemma RemainingKept(c: Config, m: Memory, m': Memory, blocks: map<nat, nat>, index: seq<nat>, th: Thread)
    requires Shape(c, m, blocks, index, th) && VisibleSame(m, m', blocks, th)
    ensures Remaining(m', th) == Remaining(m, th)
  {
    hide LoadPointer, BackPointer, VisibleSame, ObjectsOk, Unshared;
    ViewKept(c, m, m', blocks, index, th);
    var base := Base(th);
    if base != 0 {
      forall i: nat | First(m, th) <= i < Size(m, base) && Slot(m, base, i) != 0
        ensures BackPointer(m', Slot(m, base, i)) == BackPointer(m, Slot(m, base, i))
      {
        assert Live(m, th, i);
      }
      LiveHomesSame(m, m', base, First(m, th), Size(m, base));
    }
  }

  /** Every step of the shutdown frees the first of the blocks that remain, or none. */
  lemma ShutdownStep(c: Config, m: Memory, blocks: map<nat, nat>, index: seq<nat>, th: Thread, m': Memory,
                     blocks': map<nat, nat>, th': Thread)
    requires c.Valid() && ThreadOk(c, m, blocks, index, th) && AllocatorOk(blocks) && Works(c, m, blocks, th, m', blocks', th')
    requires Ending(th)
    ensures Remaining(m, th) == Freed(m, th) + Remaining(m', th')
    ensures forall b :: b in Freed(m, th) ==> b in blocks && b !in blocks' && Owns(m, th, b)
  {
    hide LoadPointer, BackPointer, AllocatorOk, Shape, VisibleSame;
    if th.pc.FreeingTable? {
      FreeTableKeeps(c, m, blocks, index, th, m', blocks', th');
    } else if Freed(m, th) != [] {
      FreeObjectKeeps(c, m, blocks, index, th, m', blocks', th');
      RemainingKept(c, m, m', blocks, index, th');
    }
  }

  lemma {:induction false} LiveHomesMiss(m: Memory, base: nat, from: nat, size: nat, b: nat)
    requires forall i: nat :: from <= i < size && Slot(m, base, i) != 0 ==> BackPointer(m, Slot(m, base, i)) != b
    ensures b !in LiveHomes(m, base, from, size)
    decreases size - from
  {
    hide LoadPointer, BackPointer;
    if from < size {
      LiveHomesMiss(m, base, from + 1, size, b);
    }
  }

  lemma {:induction false} LiveHomesDistinct(m: Memory, base: nat, from: nat, size: nat)
    requires forall i: nat, j: nat :: from <= i < j < size && Slot(m, base, i) != 0 && Slot(m, base, j) != 0 ==>
      BackPointer(m, Slot(m, base, i)) != BackPointer(m, Slot(m, base, j))
    ensures Distinct(LiveHomes(m, base, from, size))
    decreases size - from
  {
    hide LoadPointer, BackPointer;
    if from < size {
      var rest := LiveHomes(m, base, from + 1, size);
      LiveHomesDistinct(m, base, from + 1, size);
      if Slot(m, base, from) != 0 {
        var b := BackPointer(m, Slot(m, base, from));
        LiveHomesMiss(m, base, from + 1, size, b);
      }
    }
  }

  /** No block is freed twice. */
  lemma RemainingDistinct(c: Config, m: Memory, blocks: map<nat, nat>, index: seq<nat>, th: Thread)
    requires Shape(c, m, blocks, index, th)
    ensures Distinct(Remaining(m, th))
  {
    hide LoadPointer, BackPointer, ObjectsOk;
    var base := Base(th);
    if base != 0 {
      var homes := LiveHomes(m, base, First(m, th), Size(m, base));
      forall i: nat, j: nat | First(m, th) <= i < j < Size(m, base) && Slot(m, base, i) != 0 && Slot(m, base, j) != 0
        ensures BackPointer(m, Slot(m, base, i)) != BackPointer(m, Slot(m, base, j))
      {
        assert Live(m, th, i) && Live(m, th, j);
      }
      LiveHomesDistinct(m, base, First(m, th), Size(m, base));
      forall i: nat | First(m, th) <= i < Size(m, base) && Slot(m, base, i) != 0
        ensures BackPointer(m, Slot(m, base, i)) != base
      {
        assert Live(m, th, i);
      }
      LiveHomesMiss(m, base, First(m, th), Size(m, base), base);
    }
  }

  lemma {:induction false} LiveHomesCover(m: Memory, base: nat, from: nat, size: nat, i: nat)
    requires from <= i < size && Slot(m, base, i) != 0
    ensures BackPointer(m, Slot(m, base, i)) in LiveHomes(m, base, from, size)
    decreases size - from
  {
    hide LoadPointer, BackPointer;
    if from < i {
      LiveHomesCover(m, base, from + 1, size, i);
    }
  }

  lemma {:induction false} LiveHomesMember(m: Memory, base: nat, from: nat, size: nat, b: nat) returns (i: nat)
    requires b in LiveHomes(m, base, from, size)
    ensures from <= i < size && Slot(m, base, i) != 0 && BackPointer(m, Slot(m, base, i)) == b
    decreases size - from
  {
    hide LoadPointer, BackPointer;
    if Slot(m, base, from) != 0 && BackPointer(m, Slot(m, base, from)) == b {
      i := from;
    } else {
      i := LiveHomesMember(m, base, from + 1, size, b);
    }
  }

  /** What remains to be freed at a thread's end is all that it owns. */
  lemma RemainingIsOwned(m: Memory, th: Thread)
    requires Ending(th) && Base(th) != 0
    ensures forall b :: b in Remaining(m, th) <==> Owns(m, th, b)
  {
    hide LoadPointer, BackPointer;
    var base, first := Base(th), First(m, th);
    forall b ensures b in Remaining(m, th) <==> Owns(m, th, b) {
      if b in LiveHomes(m, base, first, Size(m, base)) {
        var i := LiveHomesMember(m, base, first, Size(m, base), b);
        assert Live(m, th, i) && Home(m, th, i) == b;
      }
      if Owns(m, th, b) && b != base {
        var i: nat :| Live(m, th, i) && Home(m, th, i) == b;
        LiveHomesCover(m, base, first, Size(m, base), i);
      }
    }
  }

  /** What malloc or realloc returns becomes the thread's. */
  lemma ObtainedIsOwned(c: Config, m: Memory, blocks: map<nat, nat>, th: Thread, q: nat,
                        m': Memory, blocks': map<nat, nat>, th': Thread)
    requires c.Valid() && Obtains(c, m, blocks, th, q, m', blocks', th')
    ensures Owns(m', th', q)
  {
    hide LoadPointer, Elsewhere, Load;
  }
}
