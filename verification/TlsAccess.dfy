/** What one call of __emutls_get_address makes of a thread's table and of the live
    blocks, given the allocator's answers: the specification of the storage. */
module TlsAccess {
  import opened Bits
  import opened EmuMemory
  import opened Options

  /** emutls_address_array, at the address malloc gave it. A null slot is zero. */
  datatype Table = Table(base: nat, skipRounds: nat, data: seq<nat>)

  /** An allocator's policy: from the live blocks and a size, an address or zero. */
  datatype Policy = Policy(choose: (map<nat, nat>, nat) -> nat)

  ghost predicate Honest(allocate: Policy) {
    forall blocks, n :: allocate.choose(blocks, n) == 0 || Available(blocks, allocate.choose(blocks, n), n)
  }

  lemma HonestChoice(allocate: Policy, blocks: map<nat, nat>, n: nat)
    requires Honest(allocate)
    ensures allocate.choose(blocks, n) == 0 || Available(blocks, allocate.choose(blocks, n), n)
  {}

  /** Every allocator is one that answers with null or with a range below the end of
      memory that meets no live block. */
  lemma HonestMeans(allocate: Policy)
    ensures Honest(allocate) <==>
      forall blocks, n: nat :: var q := allocate.choose(blocks, n);
        || q == 0
        || (q + n < 0x1_0000_0000_0000_0000 && forall b :: b in blocks ==> q + n <= b || b + blocks[b] <= q)
  {}

  /** A table and the live blocks around it. */
  datatype Room = Room(table: Table, blocks: map<nat, nat>)

  datatype Access = Done(p: nat, room: Room) | Refused

  function NullSlots(n: nat): seq<nat> { seq(n, _ => 0) }

  /** The live blocks besides the table about to be replaced. */
  function Without(blocks: map<nat, nat>, table: Option<Table>): map<nat, nat> {
    if table.Some? then blocks - {table.value.base} else blocks
  }

  /** The table's slots and some more. */
  function Enlarged(table: Option<Table>, rounds: nat, q: nat, size: nat): (r: Table)
    requires table.Some? ==> |table.value.data| <= size
    ensures |r.data| == size && r.base == q
  {
    match table
    case None => Table(q, rounds, NullSlots(size))
    case Some(was) => Table(q, was.skipRounds, was.data + NullSlots(size - |was.data|))
  }

  /** The thread's table with a slot for the index: the one it has, or the one malloc
      or realloc makes room for; none if they refuse. */
  function TableFor(allocate: Policy, rounds: nat, blocks: map<nat, nat>, table: Option<Table>, index: nat): (r: Option<Room>)
    requires index < 0x200_0000_0000_0000
    ensures r.Some? ==> index <= |r.value.table.data|
  {
    NewSizeIsEnough(index);
    if table.Some? && index <= |table.value.data| then Some(Room(table.value, blocks))
    else
      var size := NewDataArraySize(index);
      var rest := Without(blocks, table);
      var q := allocate.choose(rest, Asize(size));
      if q == 0 then None else Some(Room(Enlarged(table, rounds, q, size), rest[q := Asize(size)]))
  }

  /** An object cannot be had: its alignment is no power of two, or malloc fails. */
  predicate MustAbort(c: Control, allocate: Policy, blocks: map<nat, nat>) {
    !PowerOfTwo(Alignment(c.align)) || allocate.choose(blocks, BlockSize(c)) == 0
  }

  /** The address in a slot, of a new object if the slot was null. */
  function ObjectIn(allocate: Policy, room: Room, i: nat, control: Control): Access
    requires i < |room.table.data| && ControlOk(control)
  {
    if room.table.data[i] != 0 then Done(room.table.data[i], room)
    else if MustAbort(control, allocate, room.blocks) then Refused
    else
      var q := allocate.choose(room.blocks, BlockSize(control));
      var p := Placed(q, Alignment(control.align));
      Done(p, Room(room.table.(data := room.table.data[i := p]), room.blocks[q := BlockSize(control)]))
  }

  /** A whole access by a thread with this table, or none, to a variable with this index. */
  function Accessed(allocate: Policy, rounds: nat, blocks: map<nat, nat>, table: Option<Table>, index: nat, control: Control): Access
    requires 0 < index < 0x200_0000_0000_0000 && ControlOk(control)
  {
    match TableFor(allocate, rounds, blocks, table, index)
    case None => Refused
    case Some(room) => ObjectIn(allocate, room, index - 1, control)
  }

  /** The block of the object, if one is made. */
  function NewBlock(allocate: Policy, rounds: nat, blocks: map<nat, nat>, table: Option<Table>, index: nat, control: Control): nat
    requires index < 0x200_0000_0000_0000
  {
    match TableFor(allocate, rounds, blocks, table, index)
    case None => 0
    case Some(room) => allocate.choose(room.blocks, BlockSize(control))
  }
}
