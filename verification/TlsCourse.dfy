/** The course of one access: what a thread will end with, wherever it stands, when
    malloc and realloc answer by a policy; and the next step it can always make. */
module TlsCourse {
  import opened Bits
  import opened Bytes
  import opened EmuMemory
  import opened Options
  import opened TlsAccess
  import opened TlsThread

  // ---- the table as a value ----

  /** The table that lies at base. */
  function TableAt(m: Memory, base: nat): Table {
    Table(base, Skip(m, base), seq(Size(m, base), i requires 0 <= i < Size(m, base) => Slot(m, base, i)))
  }

  /** The table a thread's key leads to. */
  function Held(m: Memory, key: nat): Option<Table> {
    if key == 0 then None else Some(TableAt(m, key))
  }

  /** The table a thread is building. */
  function Built(c: Config, m: Memory, q: nat, size: nat, first: bool): Table {
    if first then Table(q, c.rounds, NullSlots(size))
    else Table(q, Skip(m, q), seq(size, i requires 0 <= i < size => if i < Size(m, q) then Slot(m, q, i) else 0))
  }

  // ---- where an access leads ----

  /** From a table with room for the index. */
  function Served(c: Config, allocate: Policy, room: Room, k: nat, i: nat): Access
    requires c.Valid()
  {
    if k < |c.controls| && 0 < i <= |room.table.data| then ObjectIn(allocate, room, i - 1, c.controls[k]) else Refused
  }

  /** From the key. */
  function FromKey(c: Config, allocate: Policy, m: Memory, blocks: map<nat, nat>, key: nat, k: nat, i: nat): Access
    requires c.Valid()
  {
    if k < |c.controls| && 0 < i < 0x200_0000_0000_0000 then
      Accessed(allocate, c.rounds, blocks, Held(m, key), i, c.controls[k])
    else Refused
  }

  /** With the object at p about to be put into its slot. */
  function WithObject(m: Memory, blocks: map<nat, nat>, key: nat, i: nat, p: nat): Access {
    var table := TableAt(m, key);
    if 0 < i <= |table.data| then Done(p, Room(table.(data := table.data[i - 1 := p]), blocks)) else Refused
  }

  /** What an access under way will end with. */
  function Fate(c: Config, allocate: Policy, m: Memory, blocks: map<nat, nat>, th: Thread): Access
    requires c.Valid()
  {
    match th.pc
    case Fetching(k, i) => FromKey(c, allocate, m, blocks, th.key, k, i)
    case NewTable(k, i) => FromKey(c, allocate, m, blocks, th.key, k, i)
    case Growing(k, i) => FromKey(c, allocate, m, blocks, th.key, k, i)
    case Clearing(k, i, q, size, _, first) => Served(c, allocate, Room(Built(c, m, q, size, first), blocks), k, i)
    case Marking(k, i, q, size) => Served(c, allocate, Room(Built(c, m, q, size, true), blocks), k, i)
    case Sizing(k, i, q, size, first) => Served(c, allocate, Room(Built(c, m, q, size, first), blocks), k, i)
    case Publishing(k, i, q, size, first) => Served(c, allocate, Room(Built(c, m, q, size, first), blocks), k, i)
    case Looking(k, i) => Served(c, allocate, Room(TableAt(m, th.key), blocks), k, i)
    case Allocating(k, i) => Served(c, allocate, Room(TableAt(m, th.key), blocks), k, i)
    case Linking(k, i, q) =>
      if k < |c.controls| then WithObject(m, blocks, th.key, i, Placed(q, Alignment(c.controls[k].align))) else Refused
    case Filling(_, i, _, p, _) => WithObject(m, blocks, th.key, i, p)
    case Setting(_, i, _, p) => WithObject(m, blocks, th.key, i, p)
    case Reading(_, i, _) =>
      if i > 0 then Done(Slot(m, th.key, i - 1), Room(TableAt(m, th.key), blocks)) else Refused
    case Returning(_, _, p, _) => Done(p, Room(TableAt(m, th.key), blocks))
    case _ => Refused
  }

  /** Between emutls_get_index and the return. */
  predicate InStorage(pc: Pc) {
    !pc.Idle? && !pc.Indexing? && !pc.Destroying? && !pc.Restoring? && !pc.Shutting? && !pc.FreeingTable?
  }

  predicate InDestructor(pc: Pc) { pc.Destroying? || pc.Restoring? || pc.Shutting? || pc.FreeingTable? }

  /** The next thing is to ask malloc or realloc. */
  predicate Asks(pc: Pc) { pc.NewTable? || pc.Growing? || pc.Allocating? }

  // ---- the next step ----

  datatype Stepped = Stepped(memory: Memory, blocks: map<nat, nat>, thread: Thread)

  /** The step a thread makes by itself; frees leave the bytes as they are. */
  function Next(c: Config, m: Memory, blocks: map<nat, nat>, th: Thread): Stepped
    requires c.Valid()
  {
    match th.pc
    case Fetching(k, i) =>
      Stepped(m, blocks, th.(pc := if th.key == 0 then NewTable(k, i) else if i > Size(m, th.key) then Growing(k, i) else Looking(k, i)))
    case Clearing(k, i, q, size, next, first) =>
      if next < size then Stepped(StorePointer(m, SlotAt(q, next), 0), blocks, th.(pc := Clearing(k, i, q, size, next + 1, first)))
      else Stepped(m, blocks, th.(pc := if first then Marking(k, i, q, size) else Sizing(k, i, q, size, false)))
    case Marking(k, i, q, size) => Stepped(StorePointer(m, SkipAt(q), c.rounds), blocks, th.(pc := Sizing(k, i, q, size, true)))
    case Sizing(k, i, q, size, first) => Stepped(StorePointer(m, SizeAt(q), size), blocks, th.(pc := Publishing(k, i, q, size, first)))
    case Publishing(k, i, q, size, first) => Stepped(m, blocks, Thread(q, Looking(k, i)))
    case Looking(k, i) =>
      if i > 0 then Stepped(m, blocks, th.(pc := if Slot(m, th.key, i - 1) == 0 then Allocating(k, i) else Reading(k, i, false)))
      else Stepped(m, blocks, th)
    case Linking(k, i, q) =>
      if k < |c.controls| && Placed(q, Alignment(c.controls[k].align)) >= POINTER_BYTES then
        var p := Placed(q, Alignment(c.controls[k].align));
        Stepped(StorePointer(m, p - POINTER_BYTES, q), blocks, th.(pc := Filling(k, i, q, p, 0)))
      else Stepped(m, blocks, th)
    case Filling(k, i, q, p, n) =>
      if k < |c.controls| && n < c.controls[k].size then
        Stepped(Patch(m, p + n, [InitialBytes(c.controls[k])[n]]), blocks, th.(pc := Filling(k, i, q, p, n + 1)))
      else Stepped(m, blocks, th.(pc := Setting(k, i, q, p)))
    case Setting(k, i, q, p) =>
      if i > 0 then Stepped(StorePointer(m, SlotAt(th.key, i - 1), p), blocks, th.(pc := Reading(k, i, true)))
      else Stepped(m, blocks, th)
    case Reading(k, i, made) =>
      if i > 0 then Stepped(m, blocks, th.(pc := Returning(k, i, Slot(m, th.key, i - 1), made))) else Stepped(m, blocks, th)
    case Destroying(base) =>
      if Skip(m, base) > 0 then Stepped(StorePointer(m, SkipAt(base), Skip(m, base) - 1), blocks, th.(pc := Restoring(base)))
      else Stepped(m, blocks, th.(pc := Shutting(base, 0)))
    case Restoring(base) => Stepped(m, blocks, Thread(base, Idle))
    case Shutting(base, next) =>
      if next >= Size(m, base) then Stepped(m, blocks, th.(pc := FreeingTable(base)))
      else if Slot(m, base, next) == 0 then Stepped(m, blocks, th.(pc := Shutting(base, next + 1)))
      else Stepped(m, blocks - {BackPointer(m, Slot(m, base, next))}, th.(pc := Shutting(base, next + 1)))
    case FreeingTable(base) => Stepped(m, blocks - {base}, th.(pc := Idle))
    case _ => Stepped(m, blocks, th)
  }

  /** A thread that neither asks the allocator nor is at an end of its call can go on. */
  lemma NextWorks(c: Config, m: Memory, blocks: map<nat, nat>, index: seq<nat>, th: Thread)
    requires c.Valid() && ThreadOk(c, m, blocks, index, th) && AllocatorOk(blocks)
    requires (InStorage(th.pc) && !Asks(th.pc) && !th.pc.Returning?) || InDestructor(th.pc)
    ensures var n := Next(c, m, blocks, th); Works(c, m, blocks, th, n.memory, n.blocks, n.thread)
  {
    hide LoadPointer, StorePointer, Patch, AllocatorOk, BackPointer, InitialBytes, TableOk, ObjectsOk, Unshared;
    if th.pc.Linking? {
      PlacedInside(c, blocks, th.pc.control, th.pc.q);
    }
  }

  /** How far a thread is from the end, first by its place and then by its loop. */
  function Stage(pc: Pc): nat {
    match pc
    case Fetching(_, _) => 13
    case NewTable(_, _) => 12
    case Growing(_, _) => 12
    case Clearing(_, _, _, _, _, _) => 11
    case Marking(_, _, _, _) => 10
    case Sizing(_, _, _, _, _) => 9
    case Publishing(_, _, _, _, _) => 8
    case Looking(_, _) => 7
    case Allocating(_, _) => 6
    case Linking(_, _, _) => 5
    case Filling(_, _, _, _, _) => 4
    case Setting(_, _, _, _) => 3
    case Reading(_, _, _) => 2
    case Returning(_, _, _, _) => 1
    case Destroying(_) => 4
    case Restoring(_) => 1
    case Shutting(_, _) => 3
    case FreeingTable(_) => 2
    case _ => 0
  }

  function Loop(c: Config, m: Memory, pc: Pc): nat {
    match pc
    case Clearing(_, _, _, size, next, _) => if next < size then size - next else 0
    case Filling(k, _, _, _, n) => if k < |c.controls| && n < c.controls[k].size then c.controls[k].size - n else 0
    case Shutting(base, next) => if next < Size(m, base) then Size(m, base) - next else 0
    case _ => 0
  }

  predicate Nearer(c: Config, m: Memory, pc: Pc, m': Memory, pc': Pc) {
    Stage(pc') < Stage(pc) || (Stage(pc') == Stage(pc) && Loop(c, m', pc') < Loop(c, m, pc))
  }

  lemma StorageIsNearer(c: Config, m: Memory, blocks: map<nat, nat>, index: seq<nat>, th: Thread)
    requires c.Valid() && ThreadOk(c, m, blocks, index, th) && AllocatorOk(blocks)
    requires InStorage(th.pc) && !Asks(th.pc) && !th.pc.Returning?
    ensures var n := Next(c, m, blocks, th); InStorage(n.thread.pc) && Nearer(c, m, th.pc, n.memory, n.thread.pc)
  {
    hide LoadPointer, StorePointer, Patch, AllocatorOk, BackPointer, InitialBytes, TableOk, ObjectsOk, Unshared,
      Null, Initial, Linked, Placed, PowerOfTwo;
    if th.pc.Linking? {
      ControlIsOk(c, th.pc.control);
      PlacedInside(c, blocks, th.pc.control, th.pc.q);
    }
  }

  lemma DestructorIsNearer(c: Config, m: Memory, blocks: map<nat, nat>, th: Thread)
    requires c.Valid() && InDestructor(th.pc)
    ensures var n := Next(c, m, blocks, th);
      (InDestructor(n.thread.pc) || n.thread.pc == Idle) && Nearer(c, m, th.pc, n.memory, n.thread.pc)
  {
    hide LoadPointer, StorePointer, BackPointer;
  }

  // ---- every step keeps the course ----

  /** A table whose words are as before. */
  lemma SameTable(m: Memory, base: nat, m': Memory)
    requires Skip(m', base) == Skip(m, base) && Size(m', base) == Size(m, base)
    requires forall i: nat :: i < Size(m, base) ==> Slot(m', base, i) == Slot(m, base, i)
    ensures TableAt(m', base) == TableAt(m, base)
  {
    hide LoadPointer;
  }

  lemma FetchKeepsFate(c: Config, allocate: Policy, m: Memory, blocks: map<nat, nat>, index: seq<nat>, th: Thread)
    requires c.Valid() && ThreadOk(c, m, blocks, index, th) && Few(index) && th.pc.Fetching?
    ensures Fate(c, allocate, m, blocks, Next(c, m, blocks, th).thread) == Fate(c, allocate, m, blocks, th)
  {
    hide LoadPointer, Shape, ObjectIn, NewDataArraySize, Enlarged, ControlOk;
    ControlIsOk(c, th.pc.control);
  }

  lemma ClearKeepsFate(c: Config, allocate: Policy, m: Memory, blocks: map<nat, nat>, index: seq<nat>, th: Thread)
    requires c.Valid() && ThreadOk(c, m, blocks, index, th) && th.pc.Clearing?
    ensures var n := Next(c, m, blocks, th); Fate(c, allocate, n.memory, n.blocks, n.thread) == Fate(c, allocate, m, blocks, th)
  {
    hide LoadPointer, StorePointer, Shape, Served, Elsewhere;
    var q, size, next := th.pc.q, th.pc.size, th.pc.next;
    if next < size {
      SlotStored(m, q, next, 0);
      assert Built(c, StorePointer(m, SlotAt(q, next), 0), q, size, th.pc.first) == Built(c, m, q, size, th.pc.first);
    }
  }

  lemma SizeKeepsFate(c: Config, allocate: Policy, m: Memory, blocks: map<nat, nat>, index: seq<nat>, th: Thread)
    requires c.Valid() && ThreadOk(c, m, blocks, index, th) && (th.pc.Marking? || th.pc.Sizing?)
    ensures var n := Next(c, m, blocks, th); Fate(c, allocate, n.memory, n.blocks, n.thread) == Fate(c, allocate, m, blocks, th)
  {
    hide LoadPointer, StorePointer, Shape, Served, Elsewhere;
    if th.pc.Sizing? {
      var q, size := th.pc.q, th.pc.size;
      SizeStored(m, q, size);
      assert Built(c, StorePointer(m, SizeAt(q), size), q, size, th.pc.first) == Built(c, m, q, size, th.pc.first);
    }
  }

  lemma PublishKeepsFate(c: Config, allocate: Policy, m: Memory, blocks: map<nat, nat>, index: seq<nat>, th: Thread)
    requires c.Valid() && ThreadOk(c, m, blocks, index, th) && th.pc.Publishing?
    ensures Fate(c, allocate, m, blocks, Next(c, m, blocks, th).thread) == Fate(c, allocate, m, blocks, th)
  {
    hide LoadPointer, Shape, Served;
    assert Built(c, m, th.pc.q, th.pc.size, th.pc.first) == TableAt(m, th.pc.q);
  }

  lemma LookKeepsFate(c: Config, allocate: Policy, m: Memory, blocks: map<nat, nat>, index: seq<nat>, th: Thread)
    requires c.Valid() && ThreadOk(c, m, blocks, index, th) && (th.pc.Looking? || th.pc.Reading?)
    ensures Fate(c, allocate, m, blocks, Next(c, m, blocks, th).thread) == Fate(c, allocate, m, blocks, th)
  {
    hide LoadPointer, Shape, MustAbort, Placed, Initial;
  }

  /** Stores into the object leave the table as it is. */
  lemma ObjectKeepsFate(c: Config, allocate: Policy, m: Memory, blocks: map<nat, nat>, index: seq<nat>, th: Thread)
    requires c.Valid() && ThreadOk(c, m, blocks, index, th) && AllocatorOk(blocks) && (th.pc.Linking? || th.pc.Filling?)
    ensures var n := Next(c, m, blocks, th); Fate(c, allocate, n.memory, n.blocks, n.thread) == Fate(c, allocate, m, blocks, th)
  {
    hide LoadPointer, StorePointer, Patch, Elsewhere, Shape, AllocatorOk, VisibleSame, PowerOfTwo, Placed, Pow2, InitialBytes, Initial, TableAt;
    PendingLive(c, m, blocks, index, th);
    var k, q := th.pc.control, th.pc.q;
    ControlIsOk(c, k);
    var m' := Next(c, m, blocks, th).memory;
    if th.pc.Linking? {
      PlacedInside(c, blocks, k, q);
      BlockEnds(blocks, q);
      StoreInBlock(m, q, blocks[q], Placed(q, Alignment(c.controls[k].align)) - POINTER_BYTES, q);
      PendingVisible(c, m, blocks, index, th, m');
      ViewKept(c, m, m', blocks, index, th);
      SameTable(m, th.key, m');
    } else if th.pc.n < c.controls[k].size {
      OneByteMore(m, c.controls[k], th.pc.p, th.pc.n);
      ElsewhereWider(m, m', th.pc.p + th.pc.n, th.pc.p + th.pc.n + 1, q, q + blocks[q]);
      PendingVisible(c, m, blocks, index, th, m');
      ViewKept(c, m, m', blocks, index, th);
      SameTable(m, th.key, m');
    }
  }

  lemma SetKeepsFate(c: Config, allocate: Policy, m: Memory, blocks: map<nat, nat>, index: seq<nat>, th: Thread)
    requires c.Valid() && ThreadOk(c, m, blocks, index, th) && AllocatorOk(blocks) && th.pc.Setting?
    ensures var n := Next(c, m, blocks, th); Fate(c, allocate, n.memory, n.blocks, n.thread) == Fate(c, allocate, m, blocks, th)
  {
    hide LoadPointer, StorePointer, Elsewhere, Shape, AllocatorOk, Initial, Linked;
    var i, p, base := th.pc.index - 1, th.pc.p, th.key;
    PendingLive(c, m, blocks, index, th);
    BlockEnds(blocks, th.pc.q);
    ObjectEnds(c, blocks, m, index, th);
    SlotStored(m, base, i, p);
    var table := TableAt(m, base);
    assert TableAt(StorePointer(m, SlotAt(base, i), p), base) == table.(data := table.data[i := p]);
  }

  /** A placed object lies below the end of memory. */
  lemma ObjectEnds(c: Config, blocks: map<nat, nat>, m: Memory, index: seq<nat>, th: Thread)
    requires c.Valid() && ThreadOk(c, m, blocks, index, th) && AllocatorOk(blocks) && th.pc.Setting?
    ensures th.pc.p < 0x1_0000_0000_0000_0000
  {
    hide LoadPointer, Initial, TableOk, ObjectsOk, Unshared;
    BlockEnds(blocks, th.pc.q);
  }

  lemma NextKeepsFate(c: Config, allocate: Policy, m: Memory, blocks: map<nat, nat>, index: seq<nat>, th: Thread)
    requires c.Valid() && ThreadOk(c, m, blocks, index, th) && AllocatorOk(blocks) && Few(index)
    requires InStorage(th.pc) && !Asks(th.pc) && !th.pc.Returning?
    ensures var n := Next(c, m, blocks, th); Fate(c, allocate, n.memory, n.blocks, n.thread) == Fate(c, allocate, m, blocks, th)
  {
    hide ThreadOk, AllocatorOk, Few, Fate, Next;
    NextLeavesMemory(c, m, blocks, th);
    match th.pc
    case Fetching(_, _) => FetchKeepsFate(c, allocate, m, blocks, index, th);
    case Clearing(_, _, _, _, _, _) => ClearKeepsFate(c, allocate, m, blocks, index, th);
    case Marking(_, _, _, _) => SizeKeepsFate(c, allocate, m, blocks, index, th);
    case Sizing(_, _, _, _, _) => SizeKeepsFate(c, allocate, m, blocks, index, th);
    case Publishing(_, _, _, _, _) => PublishKeepsFate(c, allocate, m, blocks, index, th);
    case Looking(_, _) => LookKeepsFate(c, allocate, m, blocks, index, th);
    case Linking(_, _, _) => ObjectKeepsFate(c, allocate, m, blocks, index, th);
    case Filling(_, _, _, _, _) => ObjectKeepsFate(c, allocate, m, blocks, index, th);
    case Setting(_, _, _, _) => SetKeepsFate(c, allocate, m, blocks, index, th);
    case Reading(_, _, _) => LookKeepsFate(c, allocate, m, blocks, index, th);
  }

  lemma NextLeavesMemory(c: Config, m: Memory, blocks: map<nat, nat>, th: Thread)
    requires c.Valid()
    ensures var n := Next(c, m, blocks, th);
      th.pc.Fetching? || th.pc.Publishing? || th.pc.Looking? || th.pc.Reading? ==> n.memory == m && n.blocks == blocks
  {
    hide LoadPointer, StorePointer, Patch, BackPointer, InitialBytes;
  }

  // ---- the allocator's answers ----

  /** What is asked, given the live blocks. */
  function Answer(c: Config, allocate: Policy, blocks: map<nat, nat>, th: Thread): nat {
    match th.pc
    case NewTable(_, i) => allocate.choose(blocks, Asize(NewDataArraySize(i)))
    case Growing(_, i) => allocate.choose(blocks - {th.key}, Asize(NewDataArraySize(i)))
    case Allocating(k, _) => if k < |c.controls| then allocate.choose(blocks, BlockSize(c.controls[k])) else 0
    case _ => 0
  }

  /** The thread after an answer that is not null; realloc copies the old table. */
  function Given(c: Config, m: Memory, blocks: map<nat, nat>, th: Thread, q: nat): Stepped {
    match th.pc
    case NewTable(k, i) =>
      var size := NewDataArraySize(i);
      Stepped(m, blocks[q := Asize(size)], th.(pc := Clearing(k, i, q, size, 0, true)))
    case Growing(k, i) =>
      var size := NewDataArraySize(i);
      Stepped(if th.key in blocks then Patch(m, q, Load(m, th.key, blocks[th.key])) else m,
              (blocks - {th.key})[q := Asize(size)], th.(pc := Clearing(k, i, q, size, Size(m, th.key), false)))
    case Allocating(k, i) =>
      Stepped(m, if k < |c.controls| then blocks[q := BlockSize(c.controls[k])] else blocks, th.(pc := Linking(k, i, q)))
    case _ => Stepped(m, blocks, th)
  }

  /** The request is one for an object whose alignment is no power of two. */
  predicate Misaligned(c: Config, pc: Pc) {
    pc.Allocating? && pc.control < |c.controls| && !PowerOfTwo(Alignment(c.controls[pc.control].align))
  }

  lemma CopiedTable(m: Memory, blocks: map<nat, nat>, base: nat, q: nat, n: nat)
    requires base in blocks && blocks[base] <= n && Available(blocks - {base}, q, n)
    ensures Reallocs(m, blocks, base, q, n, Patch(m, q, Load(m, base, blocks[base])), (blocks - {base})[q := n])
    ensures Load(Patch(m, q, Load(m, base, blocks[base])), q, blocks[base]) == Load(m, base, blocks[base])
  {
    hide Available;
    LoadPatched(m, q, Load(m, base, blocks[base]));
  }

  lemma GivenObtains(c: Config, allocate: Policy, m: Memory, blocks: map<nat, nat>, index: seq<nat>, th: Thread)
    requires c.Valid() && ThreadOk(c, m, blocks, index, th) && Few(index) && Honest(allocate)
    requires Asks(th.pc) && !Misaligned(c, th.pc) && Answer(c, allocate, blocks, th) != 0
    ensures var q := Answer(c, allocate, blocks, th); var n := Given(c, m, blocks, th, q);
      Obtains(c, m, blocks, th, q, n.memory, n.blocks, n.thread)
  {
    hide LoadPointer, Available, NewDataArraySize, PowerOfTwo, Honest, Load, Patch, ObjectsOk, Unshared, Reallocs;
    var q := Answer(c, allocate, blocks, th);
    match th.pc
    case NewTable(_, i) => HonestChoice(allocate, blocks, Asize(NewDataArraySize(i)));
    case Growing(k, i) =>
      var n := Asize(NewDataArraySize(i));
      NewSizeFits(c, index, k, i);
      HonestChoice(allocate, blocks - {th.key}, n);
      CopiedTable(m, blocks, th.key, q, n);
    case Allocating(k, _) => HonestChoice(allocate, blocks, BlockSize(c.controls[k]));
  }

  lemma FirstKeepsFate(c: Config, allocate: Policy, m: Memory, blocks: map<nat, nat>, index: seq<nat>, th: Thread)
    requires c.Valid() && ThreadOk(c, m, blocks, index, th) && Few(index) && th.pc.NewTable?
    ensures var q := Answer(c, allocate, blocks, th); var n := Given(c, m, blocks, th, q);
      Fate(c, allocate, m, blocks, th) == if q == 0 then Refused else Fate(c, allocate, n.memory, n.blocks, n.thread)
  {
    hide LoadPointer, Shape, ObjectIn, NewDataArraySize, ControlOk;
    ControlIsOk(c, th.pc.control);
    NewSizeFits(c, index, th.pc.control, th.pc.index);
  }

  lemma GrowthKeepsFate(c: Config, allocate: Policy, m: Memory, blocks: map<nat, nat>, index: seq<nat>, th: Thread)
    requires c.Valid() && ThreadOk(c, m, blocks, index, th) && Few(index) && th.pc.Growing?
    ensures var q := Answer(c, allocate, blocks, th); var n := Given(c, m, blocks, th, q);
      Fate(c, allocate, m, blocks, th) == if q == 0 then Refused else Fate(c, allocate, n.memory, n.blocks, n.thread)
  {
    hide LoadPointer, ObjectIn, NewDataArraySize, ControlOk, Load, Patch, ObjectsOk, Unshared, Available;
    var k, i, base := th.pc.control, th.pc.index, th.key;
    ControlIsOk(c, k);
    NewSizeFits(c, index, k, i);
    var size, q := NewDataArraySize(i), Answer(c, allocate, blocks, th);
    var m' := Given(c, m, blocks, th, q).memory;
    LoadPatched(m, q, Load(m, base, blocks[base]));
    TableMoved(m, m', base, q, blocks[base], Size(m, base));
    assert Enlarged(Held(m, base), c.rounds, q, size) == Built(c, m', q, size, false);
  }

  lemma ObjectAnswerKeepsFate(c: Config, allocate: Policy, m: Memory, blocks: map<nat, nat>, index: seq<nat>, th: Thread)
    requires c.Valid() && ThreadOk(c, m, blocks, index, th) && th.pc.Allocating?
    ensures var q := Answer(c, allocate, blocks, th); var n := Given(c, m, blocks, th, q);
      Fate(c, allocate, m, blocks, th)
      == if Misaligned(c, th.pc) || q == 0 then Refused else Fate(c, allocate, n.memory, n.blocks, n.thread)
  {
    hide LoadPointer, Shape, PowerOfTwo, Placed;
  }

  /** Either answer keeps the course. */
  lemma AnswerKeepsFate(c: Config, allocate: Policy, m: Memory, blocks: map<nat, nat>, index: seq<nat>, th: Thread)
    requires c.Valid() && ThreadOk(c, m, blocks, index, th) && Few(index) && Asks(th.pc)
    ensures var q := Answer(c, allocate, blocks, th); var n := Given(c, m, blocks, th, q);
      Fate(c, allocate, m, blocks, th)
      == if Misaligned(c, th.pc) || q == 0 then Refused else Fate(c, allocate, n.memory, n.blocks, n.thread)
  {
    hide ThreadOk, Few, Fate, Given, Answer;
    match th.pc
    case NewTable(_, _) => FirstKeepsFate(c, allocate, m, blocks, index, th);
    case Growing(_, _) => GrowthKeepsFate(c, allocate, m, blocks, index, th);
    case Allocating(_, _) => ObjectAnswerKeepsFate(c, allocate, m, blocks, index, th);
  }

  lemma GivenIsNearer(c: Config, m: Memory, blocks: map<nat, nat>, th: Thread, q: nat)
    requires Asks(th.pc)
    ensures var n := Given(c, m, blocks, th, q);
      Stage(n.thread.pc) < Stage(th.pc) && InStorage(n.thread.pc)
  {
    hide Size, Load, Patch, NewDataArraySize;
  }
}
