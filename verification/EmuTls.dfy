/** The storage half of emutls.c: per-thread tables that grow, over-aligned
    objects with a hidden back pointer, and the key destructor, over a byte
    memory and an allocator whose choices are parameters. */
module EmuTls {
  import opened Arithmetic
  import opened Bits
  import opened Bytes
  import opened Counting
  import opened Options
  import opened EmuMemory
  import opened TlsAccess
  import N = TlsIndex

  // ---- the state ----

  /** A slot of a thread's table. */
  datatype Slot = Slot(thread: nat, i: nat)

  /** Controls and indices: byIndex[k] is the control with index k + 1. */
  ghost predicate Indexed(controls: seq<Control>, numObject: nat, byIndex: seq<nat>) {
    && |byIndex| == numObject <= |controls| < 0x100_0000_0000_0000
    && (forall c :: 0 <= c < |controls| ==> ControlOk(controls[c]))
    && (forall k :: 0 <= k < numObject ==> byIndex[k] < |controls| && controls[byIndex[k]].index == k + 1)
    && (forall c :: 0 <= c < |controls| && controls[c].index > 0 ==>
        controls[c].index <= numObject && byIndex[controls[c].index - 1] == c)
  }

  ghost predicate TablesOk(blocks: map<nat, nat>, tables: map<nat, Table>) {
    && (forall t :: t in tables ==> tables[t].base in blocks && blocks[tables[t].base] == 16 + 8 * |tables[t].data|)
    && (forall t, u :: t in tables && u in tables && t != u ==> tables[t].base != tables[u].base)
  }

  predicate Occupied(tables: map<nat, Table>, s: Slot) {
    s.thread in tables && s.i < |tables[s.thread].data| && tables[s.thread].data[s.i] != 0
  }

  /** home maps each occupied slot to the block its object lies in: one each, and
      none of them a table. */
  ghost predicate HomesOk(tables: map<nat, Table>, home: map<Slot, nat>) {
    && (forall s :: s in home <==> Occupied(tables, s))
    && (forall s, r :: s in home && r in home && s != r ==> home[s] != home[r])
    && (forall s, t :: s in home && t in tables ==> home[s] != tables[t].base)
  }

  ghost predicate ObjectsOk(m: Memory, blocks: map<nat, nat>, tables: map<nat, Table>, home: map<Slot, nat>,
                            controls: seq<Control>, byIndex: seq<nat>) {
    forall s :: s in home ==>
      && Occupied(tables, s) && s.i < |byIndex| && byIndex[s.i] < |controls|
      && ObjectOk(m, blocks, home[s], tables[s.thread].data[s.i], controls[byIndex[s.i]])
  }

  /** No table skips more rounds than configured. */
  predicate RoundsOk(tables: map<nat, Table>, rounds: nat) {
    forall t :: t in tables ==> tables[t].skipRounds <= rounds
  }

  lemma RoundsWithSlot(tables: map<nat, Table>, t: nat, i: nat, p: nat, rounds: nat)
    requires RoundsOk(tables, rounds) && t in tables && i < |tables[t].data|
    ensures RoundsOk(tables[t := SetSlot(tables[t], i, p)], rounds)
  {}

  lemma RoundsBound(tables: map<nat, Table>, t: nat, rounds: nat)
    requires RoundsOk(tables, rounds) && t in tables
    ensures tables[t].skipRounds <= rounds
  {}

  ghost predicate Inv(m: Memory, blocks: map<nat, nat>, tables: map<nat, Table>, home: map<Slot, nat>,
                      controls: seq<Control>, numObject: nat, byIndex: seq<nat>) {
    && AllocatorOk(blocks)
    && Indexed(controls, numObject, byIndex)
    && TablesOk(blocks, tables)
    && HomesOk(tables, home)
    && ObjectsOk(m, blocks, tables, home, controls, byIndex)
  }

  /** Changing memory outside all live blocks, and blocks that are not homes,
      keeps all objects. */
  lemma ObjectsKept(m: Memory, m': Memory, blocks: map<nat, nat>, blocks': map<nat, nat>, tables: map<nat, Table>,
                    tables': map<nat, Table>, home: map<Slot, nat>, home': map<Slot, nat>, controls: seq<Control>, byIndex: seq<nat>)
    requires ObjectsOk(m, blocks, tables, home, controls, byIndex)
    requires forall s :: s in home' ==> s in home && home'[s] == home[s]
    requires forall s :: s in home' ==> Occupied(tables', s) && tables'[s.thread].data[s.i] == tables[s.thread].data[s.i]
    requires forall s :: s in home' ==> home[s] in blocks' && blocks'[home[s]] == blocks[home[s]]
    requires forall s, x: nat :: s in home' && home[s] <= x < home[s] + blocks[home[s]] ==> m'.at(x) == m.at(x)
    ensures ObjectsOk(m', blocks', tables', home', controls, byIndex)
  {
    forall s | s in home' ensures
      && Occupied(tables', s) && s.i < |byIndex| && byIndex[s.i] < |controls|
      && ObjectOk(m', blocks', home'[s], tables'[s.thread].data[s.i], controls[byIndex[s.i]])
    {
      ObjectKept(m, m', blocks, blocks', home[s], tables[s.thread].data[s.i], controls[byIndex[s.i]]);
    }
  }

  /** Objects of different threads or controls lie in different places. */
  lemma AddressesNeverCoincide(m: Memory, blocks: map<nat, nat>, tables: map<nat, Table>, home: map<Slot, nat>,
                               controls: seq<Control>, numObject: nat, byIndex: seq<nat>, s: Slot, r: Slot)
    requires Inv(m, blocks, tables, home, controls, numObject, byIndex)
    requires Occupied(tables, s) && Occupied(tables, r) && s != r
    ensures s.i < numObject && r.i < numObject
    ensures var p, q := tables[s.thread].data[s.i], tables[r.thread].data[r.i];
      p != q && Apart(p, controls[byIndex[s.i]].size, q, controls[byIndex[r.i]].size)
  {
    assert s in home && r in home;
    assert Apart(home[s], blocks[home[s]], home[r], blocks[home[r]]);
  }

  // ---- numbering ----

  function IndexWords(controls: seq<Control>): (words: seq<nat>)
    ensures |words| == |controls|
  {
    seq(|controls|, c requires 0 <= c < |controls| => controls[c].index)
  }

  /** The next index goes to a control that has none. */
  lemma IndexedAfterNumbering(controls: seq<Control>, numObject: nat, byIndex: seq<nat>, c: nat)
    requires Indexed(controls, numObject, byIndex) && c < |controls| && controls[c].index == 0
    ensures Indexed(controls[c := controls[c].(index := numObject + 1)], numObject + 1, byIndex + [c])
  {
    forall j, k | 0 <= j < k < |byIndex| ensures byIndex[j] != byIndex[k] {
      assert controls[byIndex[j]].index == j + 1;
    }
    FewerThan(byIndex, |controls|, c);
  }

  lemma NumberedSoFar(controls: seq<Control>, numObject: nat, byIndex: seq<nat>)
    requires Indexed(controls, numObject, byIndex)
    ensures |byIndex| == numObject
  {}

  lemma ObjectsAfterNumbering(m: Memory, blocks: map<nat, nat>, tables: map<nat, Table>, home: map<Slot, nat>,
                              controls: seq<Control>, numObject: nat, byIndex: seq<nat>, c: nat)
    requires ObjectsOk(m, blocks, tables, home, controls, byIndex) && Indexed(controls, numObject, byIndex)
    requires c < |controls| && controls[c].index == 0
    ensures ObjectsOk(m, blocks, tables, home, controls[c := controls[c].(index := numObject + 1)], byIndex + [c])
  {
    hide ObjectOk;
  }

  // ---- one object more ----

  function SetSlot(table: Table, i: nat, p: nat): Table
    requires i < |table.data|
  {
    table.(data := table.data[i := p])
  }

  /** One slot of one table has been set. */
  ghost predicate Filled(before: map<nat, Table>, after: map<nat, Table>, t: nat, i: nat, p: nat) {
    t in before && i < |before[t].data| && after == before[t := SetSlot(before[t], i, p)]
  }

  /** An aligned object with its initial bytes. */
  ghost predicate Freshly(p: nat, c: Control, m: Memory) {
    ControlOk(c) && Aligned(p, c.align) && Load(m, p, c.size) == InitialBytes(c)
  }

  /** A fresh object as the control asks for it. */
  lemma FreshlyMeans(p: nat, c: Control, m: Memory)
    requires Freshly(p, c, m)
    ensures p % 8 == 0 && (c.align >= 8 ==> p % c.align == 0)
    ensures c.template.Some? ==>
      |c.template.value| == c.size && forall x: nat :: p <= x < p + c.size ==> m.at(x) == c.template.value[x - p]
    ensures c.template.None? ==> forall x: nat :: p <= x < p + c.size ==> m.at(x) == 0
  {
    hide InitialBytes, Load;
    InitialMeans(m, p, c);
  }

  /** When there is no object: for an alignment of at least a pointer that is no power
      of two, and when malloc refuses the bytes of the object, of the back pointer and
      of the alignment's slack. */
  lemma AbortMeans(c: Control, allocate: Policy, blocks: map<nat, nat>)
    ensures BlockSize(c) == (if c.align < 8 then 8 else c.align) + 7 + c.size
    ensures MustAbort(c, allocate, blocks) <==>
      || (c.align >= 8 && !PowerOfTwo(c.align))
      || allocate.choose(blocks, (if c.align < 8 then 8 else c.align) + 7 + c.size) == 0
  {
    hide PowerOfTwo, Alignment;
    AlignmentTest(c.align);
  }

  /** When an access aborts: without a table, or without an object where there is none
      yet. */
  lemma RefusalMeans(allocate: Policy, rounds: nat, blocks: map<nat, nat>, table: Option<Table>, index: nat, c: Control)
    requires 0 < index < 0x200_0000_0000_0000 && ControlOk(c)
    ensures Accessed(allocate, rounds, blocks, table, index, c).Refused? <==>
      match TableFor(allocate, rounds, blocks, table, index)
      case None => true
      case Some(room) =>
        && room.table.data[index - 1] == 0
        && (|| (c.align >= 8 && !PowerOfTwo(c.align))
            || allocate.choose(room.blocks, (if c.align < 8 then 8 else c.align) + 7 + c.size) == 0)
  {
    hide TableFor, PowerOfTwo, BlockSize, MustAbort, Placed;
    match TableFor(allocate, rounds, blocks, table, index)
    case None =>
    case Some(room) => AbortMeans(c, allocate, room.blocks);
  }

  /** No byte of these blocks has changed. */
  ghost predicate Untouched(blocks: map<nat, nat>, m: Memory, m': Memory) {
    forall b, x: nat :: b in blocks && b <= x < b + blocks[b] ==> m'.at(x) == m.at(x)
  }

  /** No byte of a block that holds an object has changed. */
  ghost predicate ObjectsUntouched(home: map<Slot, nat>, blocks: map<nat, nat>, m: Memory, m': Memory) {
    forall s, x: nat :: s in home && home[s] in blocks && home[s] <= x < home[s] + blocks[home[s]] ==> m'.at(x) == m.at(x)
  }

  lemma UntouchedNothing(blocks: map<nat, nat>, m: Memory)
    ensures Untouched(blocks, m, m)
  {}

  lemma UntouchedObjects(home: map<Slot, nat>, before: map<nat, nat>, blocks: map<nat, nat>, m: Memory, m': Memory)
    requires HomesKept(before, blocks, home) && Untouched(blocks, m, m')
    ensures ObjectsUntouched(home, before, m, m')
  {}

  lemma FreshlyIgnoresIndex(p: nat, c: Control, d: Control, m: Memory)
    requires Freshly(p, c, m) && c.(index := 0) == d.(index := 0)
    ensures Freshly(p, d, m)
  {}

  lemma OutsideOfFresh(blocks: map<nat, nat>, m: Memory, m': Memory, q: nat, n: nat)
    requires m' == m || (Available(blocks, q, n) && forall x: nat :: !(q <= x < q + n) ==> m'.at(x) == m.at(x))
    ensures Untouched(blocks, m, m')
  {}

  lemma TablesWithObject(blocks: map<nat, nat>, tables: map<nat, Table>, slot: Slot, q: nat, n: nat, p: nat)
    requires TablesOk(blocks, tables) && q !in blocks
    requires slot.thread in tables && slot.i < |tables[slot.thread].data|
    ensures TablesOk(blocks[q := n], tables[slot.thread := SetSlot(tables[slot.thread], slot.i, p)])
  {}

  lemma HomesWithObject(blocks: map<nat, nat>, tables: map<nat, Table>, home: map<Slot, nat>, slot: Slot, q: nat, p: nat)
    requires HomesOk(tables, home) && TablesOk(blocks, tables) && q !in blocks && p != 0
    requires forall s :: s in home ==> home[s] in blocks
    requires slot.thread in tables && slot.i < |tables[slot.thread].data| && tables[slot.thread].data[slot.i] == 0
    ensures HomesOk(tables[slot.thread := SetSlot(tables[slot.thread], slot.i, p)], home[slot := q])
  {
    var tables' := tables[slot.thread := SetSlot(tables[slot.thread], slot.i, p)];
    forall s ensures s in home[slot := q] <==> Occupied(tables', s) {
      if s != slot {
        assert Occupied(tables', s) <==> Occupied(tables, s);
      }
    }
  }

  lemma ObjectsWithObject(m: Memory, blocks: map<nat, nat>, m': Memory, blocks': map<nat, nat>,
                          tables: map<nat, Table>, home: map<Slot, nat>, controls: seq<Control>, byIndex: seq<nat>,
                          slot: Slot, q: nat, n: nat, p: nat)
    requires ObjectsOk(m, blocks, tables, home, controls, byIndex) && Untouched(blocks, m, m')
    requires q !in blocks && blocks' == blocks[q := n] && p != 0
    requires slot.thread in tables && slot.i < |tables[slot.thread].data| && tables[slot.thread].data[slot.i] == 0
    requires slot.i < |byIndex| && byIndex[slot.i] < |controls| && ObjectOk(m', blocks', q, p, controls[byIndex[slot.i]])
    ensures ObjectsOk(m', blocks', tables[slot.thread := SetSlot(tables[slot.thread], slot.i, p)], home[slot := q], controls, byIndex)
  {
    var tables', home' := tables[slot.thread := SetSlot(tables[slot.thread], slot.i, p)], home[slot := q];
    hide ObjectOk;
    forall s | s in home' ensures
      && Occupied(tables', s) && s.i < |byIndex| && byIndex[s.i] < |controls|
      && ObjectOk(m', blocks', home'[s], tables'[s.thread].data[s.i], controls[byIndex[s.i]])
    {
      if s != slot {
        assert Occupied(tables, s);
        HomeIsBlock(m, blocks, home[s], tables[s.thread].data[s.i], controls[byIndex[s.i]]);
        ObjectKept(m, m', blocks, blocks', home[s], tables[s.thread].data[s.i], controls[byIndex[s.i]]);
      }
    }
  }

  lemma HomeIsBlock(m: Memory, blocks: map<nat, nat>, b: nat, p: nat, c: Control)
    requires ObjectOk(m, blocks, b, p, c)
    ensures b in blocks && p <= b + blocks[b]
  {}

  lemma HomesInBlocks(m: Memory, blocks: map<nat, nat>, tables: map<nat, Table>, home: map<Slot, nat>,
                      controls: seq<Control>, byIndex: seq<nat>)
    requires ObjectsOk(m, blocks, tables, home, controls, byIndex)
    ensures forall s :: s in home ==> home[s] in blocks
  {}

  /** The invariant's parts with a new object at p in the new block q. */
  lemma PlaceObject(m: Memory, blocks: map<nat, nat>, m': Memory, blocks': map<nat, nat>,
                    tables: map<nat, Table>, home: map<Slot, nat>, controls: seq<Control>, byIndex: seq<nat>,
                    slot: Slot, q: nat, n: nat, p: nat)
    requires TablesOk(blocks, tables) && HomesOk(tables, home)
    requires ObjectsOk(m, blocks, tables, home, controls, byIndex) && Untouched(blocks, m, m')
    requires q !in blocks && blocks' == blocks[q := n]
    requires slot.thread in tables && slot.i < |tables[slot.thread].data| && tables[slot.thread].data[slot.i] == 0
    requires slot.i < |byIndex| && byIndex[slot.i] < |controls| && ObjectOk(m', blocks', q, p, controls[byIndex[slot.i]])
    ensures p != 0
    ensures var tables' := tables[slot.thread := SetSlot(tables[slot.thread], slot.i, p)];
      && TablesOk(blocks', tables') && HomesOk(tables', home[slot := q])
      && ObjectsOk(m', blocks', tables', home[slot := q], controls, byIndex)
  {
    hide TablesOk, HomesOk, ObjectsOk, Untouched;
    TablesWithObject(blocks, tables, slot, q, n, p);
    HomesInBlocks(m, blocks, tables, home, controls, byIndex);
    HomesWithObject(blocks, tables, home, slot, q, p);
    ObjectsWithObject(m, blocks, m', blocks', tables, home, controls, byIndex, slot, q, n, p);
  }

  lemma ObjectPlaced(m: Memory, blocks: map<nat, nat>, m': Memory, blocks': map<nat, nat>,
                     tables: map<nat, Table>, home: map<Slot, nat>, controls: seq<Control>, numObject: nat, byIndex: seq<nat>,
                     slot: Slot, q: nat, n: nat, p: nat)
    requires Inv(m, blocks, tables, home, controls, numObject, byIndex) && AllocatorOk(blocks') && Untouched(blocks, m, m')
    requires q !in blocks && blocks' == blocks[q := n]
    requires slot.thread in tables && slot.i < |tables[slot.thread].data| && tables[slot.thread].data[slot.i] == 0
    requires slot.i < |byIndex| && byIndex[slot.i] < |controls| && ObjectOk(m', blocks', q, p, controls[byIndex[slot.i]])
    ensures p != 0
    ensures Inv(m', blocks', tables[slot.thread := SetSlot(tables[slot.thread], slot.i, p)], home[slot := q], controls, numObject, byIndex)
  {
    hide AllocatorOk, Indexed, TablesOk, HomesOk, ObjectsOk, ObjectOk, SetSlot, Untouched;
    PlaceObject(m, blocks, m', blocks', tables, home, controls, byIndex, slot, q, n, p);
  }

  // ---- what a caller sees ----

  /** The address a thread has for a control, if it has used it. */
  function AddressOf(tables: map<nat, Table>, controls: seq<Control>, t: nat, c: nat): Option<nat> {
    if c < |controls| && controls[c].index > 0 && Occupied(tables, Slot(t, controls[c].index - 1))
    then Some(tables[t].data[controls[c].index - 1])
    else None
  }

  lemma AddressFound(tables: map<nat, Table>, controls: seq<Control>, t: nat, c: nat)
    requires c < |controls|
    ensures var found := AddressOf(tables, controls, t, c);
      found.Some? ==>
        && controls[c].index > 0 && t in tables && controls[c].index <= |tables[t].data|
        && tables[t].data[controls[c].index - 1] == found.value != 0
  {}

  lemma AddressKnown(tables: map<nat, Table>, controls: seq<Control>, t: nat, c: nat, i: nat)
    requires c < |controls| && controls[c].index == i + 1 && t in tables && i < |tables[t].data| && tables[t].data[i] != 0
    ensures AddressOf(tables, controls, t, c) == Some(tables[t].data[i])
  {}

  lemma IndexGrown(before: seq<Control>, after: seq<Control>, c: nat)
    requires SameButIndices(before, after) && c < |before|
    ensures |before| == |after| && after[c].(index := 0) == before[c].(index := 0)
  {}

  /** The slot for a control holds what the thread had before: its address, or
      nothing if it had none. */
  ghost predicate SlotReady(before: map<nat, Table>, after: map<nat, Table>, controls: seq<Control>, t: nat, c: nat, index: nat, ok: bool) {
    && (ok ==> t in after && 0 < index <= |after[t].data|)
    && match AddressOf(before, controls, t, c)
       case Some(p) => ok && after[t].data[index - 1] == p != 0
       case None => ok ==> after[t].data[index - 1] == 0
  }

  lemma SlotIsReady(before: map<nat, Table>, after: map<nat, Table>, controls: seq<Control>,
                    t: nat, c: nat, index: nat, ok: bool, numObject: nat)
    requires Extends(before, after, t) && c < |controls|
    requires ok ==> t in after && 0 < index <= |after[t].data|
    requires t in before && index <= |before[t].data| ==> ok && after == before
    requires forall s :: Occupied(before, s) ==> s.i < numObject
    requires index == if controls[c].index == 0 then numObject + 1 else controls[c].index
    ensures SlotReady(before, after, controls, t, c, index, ok)
  {
    if ok {
      assert Occupied(after, Slot(t, index - 1)) <==> Occupied(before, Slot(t, index - 1));
    }
  }

  lemma SlotTells(before: map<nat, Table>, after: map<nat, Table>, controls: seq<Control>, t: nat, c: nat, index: nat)
    requires SlotReady(before, after, controls, t, c, index, true)
    ensures t in after && 0 < index <= |after[t].data|
    ensures AddressOf(before, controls, t, c).Some? ==> AddressOf(before, controls, t, c).value == after[t].data[index - 1] != 0
    ensures AddressOf(before, controls, t, c).None? ==> after[t].data[index - 1] == 0
  {}

  lemma SlotFails(before: map<nat, Table>, after: map<nat, Table>, controls: seq<Control>, t: nat, c: nat, index: nat)
    requires SlotReady(before, after, controls, t, c, index, false)
    ensures AddressOf(before, controls, t, c).None?
  {}

  lemma SlotIsSet(before: map<nat, Table>, after: map<nat, Table>, t: nat, i: nat, p: nat)
    requires Filled(before, after, t, i, p)
    ensures t in after && i < |after[t].data| && after[t].data[i] == p
  {}

  ghost predicate SameButIndices(before: seq<Control>, after: seq<Control>) {
    && |before| == |after|
    && forall d :: 0 <= d < |after| ==>
      && after[d].(index := 0) == before[d].(index := 0)
      && (before[d].index > 0 ==> after[d] == before[d])
  }

  ghost predicate OtherThreadsKept(before: map<nat, Table>, after: map<nat, Table>, t: nat) {
    forall u :: u != t ==> (u in after <==> u in before) && (u in after ==> after[u] == before[u])
  }

  /** Every address handed out stays what it is. */
  ghost predicate SlotsKept(before: map<nat, Table>, after: map<nat, Table>) {
    forall s :: Occupied(before, s) ==> Occupied(after, s) && after[s.thread].data[s.i] == before[s.thread].data[s.i]
  }

  /** The invariant's parts with a table placed at q, and what callers see of it. */
  lemma PlaceTable(m: Memory, was: map<nat, nat>, tables: map<nat, Table>, home: map<Slot, nat>,
                   controls: seq<Control>, byIndex: seq<nat>,
                   t: nat, gone: set<nat>, q: nat, table: Table, now: map<nat, nat>)
    requires TablesOk(was, tables) && HomesOk(tables, home)
    requires ObjectsOk(m, was, tables, home, controls, byIndex)
    requires gone == if t in tables then {tables[t].base} else {}
    requires q !in was - gone && table.base == q && now == (was - gone)[q := Asize(|table.data|)]
    requires t in tables ==> tables[t].data <= table.data && tables[t].skipRounds == table.skipRounds
    requires forall k :: (if t in tables then |tables[t].data| else 0) <= k < |table.data| ==> table.data[k] == 0
    ensures TablesOk(now, tables[t := table]) && HomesOk(tables[t := table], home)
    ensures ObjectsOk(m, now, tables[t := table], home, controls, byIndex)
    ensures HomesKept(was, now, home) && Extends(tables, tables[t := table], t)
  {
    hide TablesOk, HomesOk, ObjectsOk, Extends;
    HomesInBlocks(m, was, tables, home, controls, byIndex);
    TablesAfterPlacing(was, tables, t, gone, q, table);
    HomesAfterPlacing(was, tables, home, t, gone, q, table);
    ObjectsKept(m, m, was, now, tables, tables[t := table], home, home, controls, byIndex);
    TableExtends(tables, t, table);
  }

  lemma TableExtends(tables: map<nat, Table>, t: nat, table: Table)
    requires t in tables ==> tables[t].data <= table.data && tables[t].skipRounds == table.skipRounds
    requires forall k :: (if t in tables then |tables[t].data| else 0) <= k < |table.data| ==> table.data[k] == 0
    ensures Extends(tables, tables[t := table], t)
  {}

  /** Extending a table and filling one empty slot disturbs no address. */
  lemma StagesKeepSlots(before: map<nat, Table>, middle: map<nat, Table>, after: map<nat, Table>, t: nat, i: nat, p: nat)
    requires Extends(before, middle, t) && t in middle && i < |middle[t].data|
    requires after == middle || (middle[t].data[i] == 0 && Filled(middle, after, t, i, p))
    ensures OtherThreadsKept(before, after, t)
    ensures p != 0 ==> SlotsKept(before, after)
  {
    if p != 0 {
      forall s | Occupied(before, s) ensures Occupied(after, s) && after[s.thread].data[s.i] == before[s.thread].data[s.i] {
        assert Occupied(middle, s);
      }
    }
  }

  lemma ExtendsKeepsOthers(before: map<nat, Table>, after: map<nat, Table>, t: nat)
    requires Extends(before, after, t)
    ensures OtherThreadsKept(before, after, t)
    ensures forall s :: Occupied(after, s) <==> Occupied(before, s)
  {}

  // ---- clients and destructors ----

  /** Writing inside one object harms no object. */
  lemma WriteInside(m: Memory, blocks: map<nat, nat>, tables: map<nat, Table>, home: map<Slot, nat>,
                    controls: seq<Control>, byIndex: seq<nat>, s: Slot, offset: nat, bytes: seq<byte>)
    requires AllocatorOk(blocks) && HomesOk(tables, home) && ObjectsOk(m, blocks, tables, home, controls, byIndex)
    requires s in home && s.i < |byIndex| && byIndex[s.i] < |controls|
    requires Occupied(tables, s) && offset + |bytes| <= controls[byIndex[s.i]].size
    ensures ObjectsOk(Patch(m, tables[s.thread].data[s.i] + offset, bytes), blocks, tables, home, controls, byIndex)
  {
    var p := tables[s.thread].data[s.i];
    var m' := Patch(m, p + offset, bytes);
    assert ObjectOk(m, blocks, home[s], p, controls[byIndex[s.i]]);
    forall r | r in home ensures
      && Occupied(tables, r) && r.i < |byIndex| && byIndex[r.i] < |controls|
      && ObjectOk(m', blocks, home[r], tables[r.thread].data[r.i], controls[byIndex[r.i]])
    {
      var c := controls[byIndex[r.i]];
      assert ObjectOk(m, blocks, home[r], tables[r.thread].data[r.i], c);
      if r != s {
        assert Apart(home[r], blocks[home[r]], home[s], blocks[home[s]]);
      }
      ObjectKept(m, m', blocks, blocks, home[r], tables[r.thread].data[r.i], c);
    }
  }

  /** The blocks of the first n slots of a thread, in slot order. */
  function HomeList(home: map<Slot, nat>, t: nat, n: nat): seq<nat> {
    if n == 0 then []
    else HomeList(home, t, n - 1) + (if Slot(t, n - 1) in home then [home[Slot(t, n - 1)]] else [])
  }

  lemma {:induction false} HomeListCovers(home: map<Slot, nat>, t: nat, n: nat)
    ensures forall i :: 0 <= i < n && Slot(t, i) in home ==> home[Slot(t, i)] in HomeList(home, t, n)
    ensures forall b :: b in HomeList(home, t, n) ==> exists i :: 0 <= i < n && Slot(t, i) in home && home[Slot(t, i)] == b
  {
    if n > 0 {
      HomeListCovers(home, t, n - 1);
    }
  }

  function HomesWithout(home: map<Slot, nat>, t: nat): map<Slot, nat> {
    map s | s in home && s.thread != t :: home[s]
  }

  /** Each of them once. */
  lemma {:induction false} HomeListDistinct(tables: map<nat, Table>, home: map<Slot, nat>, t: nat, n: nat)
    requires HomesOk(tables, home)
    ensures Distinct(HomeList(home, t, n))
  {
    if n > 0 {
      HomeListDistinct(tables, home, t, n - 1);
      HomeListCovers(home, t, n - 1);
      if Slot(t, n - 1) in home {
        assert home[Slot(t, n - 1)] !in HomeList(home, t, n - 1);
      }
    }
  }

  function Members(s: seq<nat>): (m: set<nat>)
    ensures forall x :: x in m <==> x in s
  {
    set x | x in s
  }

  /** An object still to be freed: its back pointer leads to a block that is live. */
  lemma NextIsLive(m: Memory, blocks: map<nat, nat>, tables: map<nat, Table>, home: map<Slot, nat>,
                   controls: seq<Control>, numObject: nat, byIndex: seq<nat>, t: nat, i: nat)
    requires Inv(m, blocks, tables, home, controls, numObject, byIndex)
    requires t in tables && i < |tables[t].data| && tables[t].data[i] != 0
    ensures POINTER_BYTES <= tables[t].data[i] && Slot(t, i) in home
    ensures LoadPointer(m, tables[t].data[i] - POINTER_BYTES) == home[Slot(t, i)]
    ensures home[Slot(t, i)] in blocks && home[Slot(t, i)] !in Members(HomeList(home, t, i))
    ensures HomeList(home, t, i + 1) == HomeList(home, t, i) + [home[Slot(t, i)]]
  {
    assert Occupied(tables, Slot(t, i));
    HomeListCovers(home, t, i);
  }

  lemma NothingToFree(tables: map<nat, Table>, home: map<Slot, nat>, t: nat, i: nat)
    requires HomesOk(tables, home) && t in tables && i < |tables[t].data| && tables[t].data[i] == 0
    ensures HomeList(home, t, i + 1) == HomeList(home, t, i)
  {
    assert !Occupied(tables, Slot(t, i));
  }

  lemma TableIsLive(m: Memory, blocks: map<nat, nat>, tables: map<nat, Table>, home: map<Slot, nat>,
                    controls: seq<Control>, numObject: nat, byIndex: seq<nat>, t: nat, n: nat)
    requires Inv(m, blocks, tables, home, controls, numObject, byIndex) && t in tables
    ensures tables[t].base in blocks - Members(HomeList(home, t, n))
  {
    HomeListCovers(home, t, n);
  }

  lemma MinusOneMore(blocks: map<nat, nat>, s: seq<nat>, b: nat)
    ensures blocks - Members(s) - {b} == blocks - Members(s + [b])
    ensures blocks - Members([]) == blocks
  {}

  lemma HomesWithoutThread(tables: map<nat, Table>, home: map<Slot, nat>, t: nat)
    requires HomesOk(tables, home)
    ensures HomesOk(tables - {t}, HomesWithout(home, t))
    ensures forall s :: s in HomesWithout(home, t) ==> s in home && s.thread != t && HomesWithout(home, t)[s] == home[s]
  {
    forall s ensures s in HomesWithout(home, t) <==> Occupied(tables - {t}, s) {
      assert s in home <==> Occupied(tables, s);
    }
  }

  /** The blocks of other threads' objects are not in a thread's list. */
  lemma OthersNotListed(tables: map<nat, Table>, home: map<Slot, nat>, t: nat, n: nat)
    requires HomesOk(tables, home) && t in tables
    ensures forall s :: s in home && s.thread != t ==> home[s] !in Members(HomeList(home, t, n) + [tables[t].base])
  {
    HomeListCovers(home, t, n);
  }

  lemma TablesWithoutThread(blocks: map<nat, nat>, tables: map<nat, Table>, home: map<Slot, nat>, t: nat, n: nat)
    requires TablesOk(blocks, tables) && HomesOk(tables, home) && t in tables
    ensures TablesOk(blocks - Members(HomeList(home, t, n) + [tables[t].base]), tables - {t})
  {
    HomeListCovers(home, t, n);
  }

  /** The invariant after a thread's table and objects are gone. */
  lemma InvWithoutThread(m: Memory, blocks: map<nat, nat>, tables: map<nat, Table>, home: map<Slot, nat>,
                         controls: seq<Control>, numObject: nat, byIndex: seq<nat>, t: nat, gone: set<nat>)
    requires Inv(m, blocks, tables, home, controls, numObject, byIndex) && t in tables
    requires gone == Members(HomeList(home, t, |tables[t].data|) + [tables[t].base])
    ensures Inv(m, blocks - gone, tables - {t}, HomesWithout(home, t), controls, numObject, byIndex)
  {
    hide ObjectsOk, Indexed, HomesOk, TablesOk, AllocatorOk, HomesWithout, HomeList, Members;
    AllocatorAfterFree(blocks, gone);
    OthersNotListed(tables, home, t, |tables[t].data|);
    TablesWithoutThread(blocks, tables, home, t, |tables[t].data|);
    HomesInBlocks(m, blocks, tables, home, controls, byIndex);
    HomesWithoutThread(tables, home, t);
    HomesOccupied(tables - {t}, HomesWithout(home, t));
    ObjectsKept(m, m, blocks, blocks - gone, tables, tables - {t}, home, HomesWithout(home, t), controls, byIndex);
  }

  lemma HomesOccupied(tables: map<nat, Table>, home: map<Slot, nat>)
    requires HomesOk(tables, home)
    ensures forall s :: s in home ==> Occupied(tables, s)
  {}

  /** The invariant does not depend on the skipped rounds. */
  lemma InvAfterSkip(m: Memory, blocks: map<nat, nat>, tables: map<nat, Table>, home: map<Slot, nat>,
                     controls: seq<Control>, numObject: nat, byIndex: seq<nat>, t: nat, rounds: nat)
    requires Inv(m, blocks, tables, home, controls, numObject, byIndex) && t in tables
    ensures Inv(m, blocks, tables[t := tables[t].(skipRounds := rounds)], home, controls, numObject, byIndex)
  {
    hide ObjectOk, AllocatorOk, Indexed;
    var tables' := tables[t := tables[t].(skipRounds := rounds)];
    assert forall s :: Occupied(tables', s) <==> Occupied(tables, s);
  }

  lemma WriteKeepsInv(m: Memory, blocks: map<nat, nat>, tables: map<nat, Table>, home: map<Slot, nat>,
                      controls: seq<Control>, numObject: nat, byIndex: seq<nat>, t: nat, c: nat, offset: nat, bytes: seq<byte>)
    requires Inv(m, blocks, tables, home, controls, numObject, byIndex) && c < |controls|
    requires AddressOf(tables, controls, t, c).Some? && offset + |bytes| <= controls[c].size
    ensures Inv(Patch(m, AddressOf(tables, controls, t, c).value + offset, bytes), blocks, tables, home, controls, numObject, byIndex)
  {
    hide AllocatorOk, TablesOk, ObjectsOk, Patch;
    var s := Slot(t, controls[c].index - 1);
    assert s in home;
    WriteInside(m, blocks, tables, home, controls, byIndex, s, offset, bytes);
  }

  // ---- the process ----

  datatype Got = Address(p: nat) | Aborted

  /** The index a control has or is about to get. */
  function IndexFor(controls: seq<Control>, numObject: nat, c: nat): nat
    requires c < |controls|
  {
    if controls[c].index == 0 then numObject + 1 else controls[c].index
  }

  lemma IndexForMeans(controls: seq<Control>, numObject: nat, c: nat)
    requires c < |controls|
    ensures IndexFor(controls, numObject, c) == if controls[c].index == 0 then numObject + 1 else controls[c].index
  {}

  /** The table of a thread, if it has one. */
  function TableOf(tables: map<nat, Table>, t: nat): Option<Table> {
    if t in tables then Some(tables[t]) else None
  }

  /** The three cases of a request for a table. */
  lemma RequestFirst(allocate: Policy, rounds: nat, blocks: map<nat, nat>, tables: map<nat, Table>, t: nat, index: nat)
    requires index < 0x200_0000_0000_0000 && t !in tables
    ensures var size := NewDataArraySize(index); var q := allocate.choose(blocks, Asize(size));
      TableFor(allocate, rounds, blocks, TableOf(tables, t), index)
      == if q == 0 then None else Some(Room(Table(q, rounds, NullSlots(size)), blocks[q := Asize(size)]))
  {
    hide Asize, NewDataArraySize;
  }

  lemma RequestMore(allocate: Policy, rounds: nat, blocks: map<nat, nat>, tables: map<nat, Table>, t: nat, index: nat)
    requires index < 0x200_0000_0000_0000 && t in tables && index > |tables[t].data|
    ensures |tables[t].data| <= NewDataArraySize(index)
    ensures var size := NewDataArraySize(index); var rest := blocks - {tables[t].base};
      var q := allocate.choose(rest, Asize(size));
      TableFor(allocate, rounds, blocks, TableOf(tables, t), index)
      == if q == 0 then None
         else Some(Room(Table(q, tables[t].skipRounds, tables[t].data + NullSlots(size - |tables[t].data|)), rest[q := Asize(size)]))
  {
    hide Asize, NewDataArraySize;
    NewSizeIsEnough(index);
  }

  lemma RequestNone(allocate: Policy, rounds: nat, blocks: map<nat, nat>, tables: map<nat, Table>, t: nat, index: nat)
    requires index < 0x200_0000_0000_0000 && t in tables && index <= |tables[t].data|
    ensures TableFor(allocate, rounds, blocks, TableOf(tables, t), index) == Some(Room(tables[t], blocks))
    ensures tables == tables[t := tables[t]]
  {
    hide Asize, NewDataArraySize;
  }

  /** Object and table step make up an access. */
  lemma AccessSteps(allocate: Policy, rounds: nat, blocks: map<nat, nat>, table: Option<Table>, index: nat, control: Control)
    requires 0 < index < 0x200_0000_0000_0000 && ControlOk(control)
    ensures Accessed(allocate, rounds, blocks, table, index, control)
         == match TableFor(allocate, rounds, blocks, table, index)
            case None => Refused
            case Some(room) => ObjectIn(allocate, room, index - 1, control)
  {}

  /** An access in the table it has prepared. */
  lemma AccessedIn(allocate: Policy, rounds: nat, blocks: map<nat, nat>, table: Option<Table>, index: nat, control: Control, room: Room)
    requires 0 < index < 0x200_0000_0000_0000 && ControlOk(control)
    requires TableFor(allocate, rounds, blocks, table, index) == Some(room)
    ensures index <= |room.table.data|
    ensures Accessed(allocate, rounds, blocks, table, index, control) == ObjectIn(allocate, room, index - 1, control)
    ensures NewBlock(allocate, rounds, blocks, table, index, control) == allocate.choose(room.blocks, BlockSize(control))
  {}

  lemma RoomIsTable(allocate: Policy, rounds: nat, before: map<nat, nat>, blocks: map<nat, nat>,
                    was: map<nat, Table>, tables: map<nat, Table>, t: nat, index: nat)
    requires index < 0x200_0000_0000_0000 && t in tables
    requires match TableFor(allocate, rounds, before, TableOf(was, t), index)
      case None => false
      case Some(room) => tables == was[t := room.table] && blocks == room.blocks
    ensures TableFor(allocate, rounds, before, TableOf(was, t), index) == Some(Room(tables[t], blocks))
  {}

  /** A null slot gets an object. */
  lemma ObjectMade(allocate: Policy, tables: map<nat, Table>, t: nat, blocks: map<nat, nat>, i: nat, control: Control)
    requires ControlOk(control) && t in tables && i < |tables[t].data| && tables[t].data[i] == 0
    ensures ObjectIn(allocate, Room(tables[t], blocks), i, control) ==
      if MustAbort(control, allocate, blocks) then Refused
      else
        var q := allocate.choose(blocks, BlockSize(control));
        var p := Placed(q, Alignment(control.align));
        Done(p, Room(SetSlot(tables[t], i, p), blocks[q := BlockSize(control)]))
  {}

  lemma NewBlockLive(before: map<nat, nat>, after: map<nat, nat>, q: nat, n: nat)
    requires OneMore(before, after, q, n)
    ensures after == before[q := n]
  {}

  lemma FilledTable(tables: map<nat, Table>, t: nat, i: nat, p: nat)
    requires t in tables && i < |tables[t].data|
    ensures SetSlot(tables[t], i, p) == tables[t].(data := tables[t].data[i := p])
  {}

  lemma OccupiedIn(allocate: Policy, room: Room, i: nat, control: Control)
    requires i < |room.table.data| && ControlOk(control) && room.table.data[i] != 0
    ensures ObjectIn(allocate, room, i, control) == Done(room.table.data[i], room)
  {}

  /** Only size, alignment and template of a control matter. */
  lemma ObjectIgnoresIndex(allocate: Policy, room: Room, i: nat, c: Control, d: Control)
    requires i < |room.table.data| && ControlOk(c) && c.(index := 0) == d.(index := 0)
    ensures ControlOk(d) && BlockSize(c) == BlockSize(d) && ObjectIn(allocate, room, i, c) == ObjectIn(allocate, room, i, d)
  {}

  /** A new block of n bytes at q. */
  ghost predicate OneMore(before: map<nat, nat>, after: map<nat, nat>, q: nat, n: nat) {
    q !in before && Available(before, q, n) && after == before[q := n]
  }

  // ---- tables ----

  /** Only thread t's table may differ, and then by empty slots added at the end. */
  ghost predicate Extends(before: map<nat, Table>, after: map<nat, Table>, t: nat) {
    && (forall u :: u in before ==>
        u in after && before[u].data <= after[u].data && before[u].skipRounds == after[u].skipRounds)
    && (forall u :: u != t ==> (u in after <==> u in before) && (u in after ==> after[u] == before[u]))
    && (forall s :: Occupied(after, s) <==> Occupied(before, s))
  }

  lemma ExtendsItself(tables: map<nat, Table>, t: nat)
    ensures Extends(tables, tables, t)
  {}

  ghost predicate HomesKept(before: map<nat, nat>, after: map<nat, nat>, home: map<Slot, nat>) {
    forall s :: s in home ==> home[s] in before && home[s] in after && after[home[s]] == before[home[s]]
  }

  /** Adding a table block, or replacing one, leaves all objects alone. */
  lemma TablesAfterPlacing(blocks: map<nat, nat>, tables: map<nat, Table>, t: nat, gone: set<nat>, q: nat, table: Table)
    requires TablesOk(blocks, tables)
    requires gone == if t in tables then {tables[t].base} else {}
    requires q !in blocks - gone && table.base == q
    ensures TablesOk((blocks - gone)[q := Asize(|table.data|)], tables[t := table])
  {}

  lemma HomesAfterPlacing(blocks: map<nat, nat>, tables: map<nat, Table>, home: map<Slot, nat>,
                          t: nat, gone: set<nat>, q: nat, table: Table)
    requires HomesOk(tables, home) && (forall s :: s in home ==> home[s] in blocks)
    requires gone == if t in tables then {tables[t].base} else {}
    requires q !in blocks - gone && table.base == q
    requires t in tables ==> tables[t].data <= table.data
    requires forall k :: (if t in tables then |tables[t].data| else 0) <= k < |table.data| ==> table.data[k] == 0
    ensures HomesOk(tables[t := table], home)
    ensures forall s :: s in home ==>
      && Occupied(tables[t := table], s)
      && tables[t := table][s.thread].data[s.i] == tables[s.thread].data[s.i]
    ensures forall s :: s in home ==> home[s] in blocks - gone && home[s] != q
  {}

  lemma NothingYet(variables: seq<Control>, contents: Memory, live: map<nat, nat>, rounds: nat)
    requires |variables| < 0x100_0000_0000_0000 && AllocatorOk(live)
    requires forall c :: 0 <= c < |variables| ==> ControlOk(variables[c]) && variables[c].index == 0
    ensures Inv(contents, live, map[], map[], variables, 0, []) && RoundsOk(map[], rounds)
  {
    hide AllocatorOk, ControlOk, ObjectOk;
  }

  class Process {
    const skipRounds: nat
    var memory: Memory
    var blocks: map<nat, nat>
    var tables: map<nat, Table>
    var controls: seq<Control>
    var numObject: nat
    ghost var home: map<Slot, nat>
    ghost var byIndex: seq<nat>
    ghost var freed: seq<nat>

    ghost predicate Valid()
      reads this
    {
      Inv(memory, blocks, tables, home, controls, numObject, byIndex) && RoundsOk(tables, skipRounds)
    }

    /** A process before its first thread-local access, with whatever else malloc
        has handed out. */
    constructor (variables: seq<Control>, contents: Memory, live: map<nat, nat>, rounds: nat)
      requires |variables| < 0x100_0000_0000_0000 && AllocatorOk(live)
      requires forall c :: 0 <= c < |variables| ==> ControlOk(variables[c]) && variables[c].index == 0
      ensures Valid() && tables == map[] && controls == variables && numObject == 0
      ensures blocks == live && memory == contents && skipRounds == rounds
    {
      hide Inv, RoundsOk, AllocatorOk, ControlOk;
      NothingYet(variables, contents, live, rounds);
      skipRounds := rounds;
      memory, blocks, tables, controls, numObject := contents, live, map[], variables, 0;
      home, byIndex, freed := map[], [], [];
    }

    /** malloc, given the allocator's policy; zero is failure. */
    method Malloc(n: nat, allocate: Policy) returns (q: nat)
      requires 0 < n && AllocatorOk(blocks) && Honest(allocate)
      modifies this`blocks
      ensures q == allocate.choose(old(blocks), n) && AllocatorOk(blocks)
      ensures q != 0 ==> Available(old(blocks), q, n) && q !in old(blocks) && blocks == old(blocks)[q := n]
      ensures q == 0 ==> blocks == old(blocks)
    {
      hide Honest, AllocatorOk, Available;
      HonestChoice(allocate, blocks, n);
      q := allocate.choose(blocks, n);
      if q != 0 {
        AllocatorAfterMalloc(blocks, q, n);
        blocks := blocks[q := n];
      }
    }

    /** free, which only a live block may be passed to. */
    method Free(q: nat)
      requires q in blocks && AllocatorOk(blocks)
      modifies this`blocks, this`freed
      ensures blocks == old(blocks) - {q} && AllocatorOk(blocks)
      ensures freed == old(freed) + [q]
    {
      hide AllocatorOk;
      AllocatorAfterFree(blocks, {q});
      blocks := blocks - {q};
      freed := freed + [q];
    }

    /** emutls_get_index, run to its end without interference. */
    method GetIndex(c: nat) returns (index: nat)
      requires Valid() && c < |controls|
      modifies this`controls, this`numObject, this`byIndex
      ensures Valid() && 0 < index <= numObject && byIndex[index - 1] == c && controls[c].index == index
      ensures old(controls[c].index) != 0 ==> index == old(controls[c].index) && controls == old(controls) && byIndex == old(byIndex)
      ensures old(controls[c].index) == 0 ==> index == old(numObject) + 1
      ensures N.Numbering(IndexWords(controls), numObject)
           == N.Number(N.Numbering(IndexWords(old(controls)), old(numObject)), c)
      ensures SameButIndices(old(controls), controls) && old(byIndex) <= byIndex
    {
      hide AllocatorOk, TablesOk, HomesOk, ObjectsOk, Indexed;
      index := controls[c].index;
      if index > 0 {
        IndexedControl(c);
      }
      if index == 0 {
        NumberedSoFar(controls, numObject, byIndex);
        IndexedAfterNumbering(controls, numObject, byIndex, c);
        ObjectsAfterNumbering(memory, blocks, tables, home, controls, numObject, byIndex, c);
        numObject := numObject + 1;
        index := numObject;
        controls := controls[c := controls[c].(index := index)];
        byIndex := byIndex + [c];
      }
    }

    /** The first table of a thread. */
    method NewTable(t: nat, newSize: nat, allocate: Policy) returns (ok: bool)
      requires Valid() && Honest(allocate) && t !in tables
      modifies this`blocks, this`tables
      ensures Valid() && Extends(old(tables), tables, t) && HomesKept(old(blocks), blocks, home)
      ensures ok ==> t in tables && |tables[t].data| == newSize && tables[t].skipRounds == skipRounds
      ensures ok <==> allocate.choose(old(blocks), Asize(newSize)) != 0
      ensures ok ==> tables == old(tables)[t := Table(allocate.choose(old(blocks), Asize(newSize)), skipRounds, NullSlots(newSize))]
      ensures ok ==> blocks == old(blocks)[allocate.choose(old(blocks), Asize(newSize)) := Asize(newSize)]
      ensures !ok ==> tables == old(tables) && blocks == old(blocks)
    {
      hide AllocatorOk, Indexed, TablesOk, HomesOk, ObjectsOk, Available, HomesKept, Extends;
      HomesAreBlocks();
      ExtendsItself(tables, t);
      var q := Malloc(Asize(newSize), allocate);
      ok := q != 0;
      if ok {
        var table := Table(q, skipRounds, NullSlots(newSize));
        assert old(blocks) - {} == old(blocks);
        PlaceTable(memory, old(blocks), tables, home, controls, byIndex, t, {}, q, table, blocks);
        tables := tables[t := table];
      }
    }

    /** realloc to more slots: the old slots are copied, the new ones cleared. */
    method GrowTable(t: nat, newSize: nat, allocate: Policy) returns (ok: bool)
      requires Valid() && Honest(allocate) && t in tables && |tables[t].data| <= newSize
      modifies this`blocks, this`tables
      ensures Valid() && Extends(old(tables), tables, t) && HomesKept(old(blocks), blocks, home)
      ensures ok ==> t in tables && |tables[t].data| == newSize
      ensures ok <==> allocate.choose(old(blocks) - {old(tables)[t].base}, Asize(newSize)) != 0
      ensures ok ==>
        var rest := old(blocks) - {old(tables)[t].base};
        var q := allocate.choose(rest, Asize(newSize));
        && blocks == rest[q := Asize(newSize)]
        && tables == old(tables)[t := Table(q, old(tables)[t].skipRounds,
                                            old(tables)[t].data + NullSlots(newSize - |old(tables)[t].data|))]
      ensures !ok ==> tables == old(tables) && blocks == old(blocks)
    {
      hide AllocatorOk, Indexed, TablesOk, HomesOk, ObjectsOk, Available, HomesKept, Extends;
      HomesAreBlocks();
      ExtendsItself(tables, t);
      hide Honest;
      var origSize, base := |tables[t].data|, tables[t].base;
      HonestChoice(allocate, blocks - {base}, Asize(newSize));
      var q := allocate.choose(blocks - {base}, Asize(newSize));
      ok := q != 0;
      if ok {
        AllocatorAfterFree(blocks, {base});
        AllocatorAfterMalloc(blocks - {base}, q, Asize(newSize));
        var table := Table(q, tables[t].skipRounds, tables[t].data + NullSlots(newSize - origSize));
        PlaceTable(memory, blocks, tables, home, controls, byIndex, t, {base}, q, table, (blocks - {base})[q := Asize(newSize)]);
        blocks := (blocks - {base})[q := Asize(newSize)];
        tables := tables[t := table];
      }
    }

    /** emutls_get_address_array: the thread's table, allocated or grown so that
        it has a slot for the index. False is abort. */
    method GetAddressArray(t: nat, index: nat, allocate: Policy) returns (ok: bool)
      requires Valid() && 0 < index <= numObject && Honest(allocate)
      modifies this`blocks, this`tables
      ensures Valid() && Extends(old(tables), tables, t) && HomesKept(old(blocks), blocks, home)
      ensures ok ==> t in tables && index <= |tables[t].data|
      ensures ok && t !in old(tables) ==> tables[t].skipRounds == skipRounds
      ensures index < 0x200_0000_0000_0000
      ensures match TableFor(allocate, skipRounds, old(blocks), TableOf(old(tables), t), index)
        case None => !ok && tables == old(tables) && blocks == old(blocks)
        case Some(room) => ok && tables == old(tables)[t := room.table] && blocks == room.blocks
      ensures t in old(tables) && index <= |old(tables)[t].data| ==> ok && tables == old(tables) && blocks == old(blocks)
    {
      hide *;
      IndexIsSmall(index);
      NewSizeIsEnough(index);
      HomesAreBlocks();
      ExtendsItself(tables, t);
      ok := true;
      if t !in tables {
        RequestFirst(allocate, skipRounds, blocks, tables, t, index);
        ok := NewTable(t, NewDataArraySize(index), allocate);
      } else if index > |tables[t].data| {
        RequestMore(allocate, skipRounds, blocks, tables, t, index);
        ok := GrowTable(t, NewDataArraySize(index), allocate);
      } else {
        RequestNone(allocate, skipRounds, blocks, tables, t, index);
      }
    }

    lemma HomesAreBlocks()
      requires Valid()
      ensures HomesKept(blocks, blocks, home)
    {}

    lemma IndexIsSmall(index: nat)
      requires Valid() && index <= numObject
      ensures index < 0x200_0000_0000_0000
    {}

    /** emutls_memalign_alloc. Zero is abort. */
    method MemalignAlloc(align: nat, size: nat, allocate: Policy) returns (base: nat, ghost q: nat)
      requires AllocatorOk(blocks) && Honest(allocate) && PowerOfTwo(align)
      requires POINTER_BYTES <= align < 0x1_0000_0000_0000_0000
      modifies this`blocks, this`memory
      ensures AllocatorOk(blocks) && q == allocate.choose(old(blocks), align - 1 + POINTER_BYTES + size)
      ensures base == 0 <==> q == 0
      ensures base == 0 ==> blocks == old(blocks) && memory == old(memory)
      ensures base != 0 ==> base == Placed(q, align)
      ensures base != 0 ==>
        && q !in old(blocks) && Available(old(blocks), q, align - 1 + POINTER_BYTES + size)
        && blocks == old(blocks)[q := align - 1 + POINTER_BYTES + size]
        && q + 8 <= base < q + 8 + align && base + size <= q + blocks[q] && base % align == 0 && base % 8 == 0
        && memory == StorePointer(old(memory), base - POINTER_BYTES, q)
    {
      hide AllocatorOk, PowerOfTwo, StorePointer, And, Pow2;
      q := 0;
      var block := Malloc(align - 1 + POINTER_BYTES + size, allocate);
      q := block;
      if block == 0 {
        return 0, q;
      }
      AvailableEnds(old(blocks), block, align - 1 + POINTER_BYTES + size);
      AlignedInside(block, align, size);
      base := And(block + (align - 1 + POINTER_BYTES), Not(64, align - 1));
      memory := StorePointer(memory, base - POINTER_BYTES, block);
    }

    /** emutls_allocate_object: an aligned, initialised object in a block of its own. */
    method AllocateObject(control: Control, allocate: Policy) returns (r: Got, ghost q: nat)
      requires AllocatorOk(blocks) && ControlOk(control) && Honest(allocate)
      modifies this`blocks, this`memory
      ensures AllocatorOk(blocks)
      ensures r.Aborted? ==> blocks == old(blocks) && memory == old(memory)
      ensures r.Aborted? <==> MustAbort(control, allocate, old(blocks))
      ensures r.Address? ==>
        && OneMore(old(blocks), blocks, q, BlockSize(control))
        && r.p == Placed(q, Alignment(control.align)) && q == allocate.choose(old(blocks), BlockSize(control))
        && ObjectOk(memory, blocks, q, r.p, control)
        && Freshly(r.p, control, memory)
      ensures Untouched(old(blocks), old(memory), memory)
      ensures r.Aborted? <==>
        || (control.align >= 8 && !PowerOfTwo(control.align))
        || allocate.choose(old(blocks), (if control.align < 8 then 8 else control.align) + 7 + control.size) == 0
      ensures r.Address? ==>
        var align := if control.align < 8 then 8 else control.align;
        && blocks == old(blocks)[q := align + 7 + control.size]
        && r.p % 8 == 0 && r.p % align == 0
        && q + 8 <= r.p < q + 8 + align && LoadPointer(memory, r.p - 8) == q
      ensures r.Address? && control.template.Some? ==>
        |control.template.value| == control.size
        && forall x: nat :: r.p <= x < r.p + control.size ==> memory.at(x) == control.template.value[x - r.p]
      ensures r.Address? && control.template.None? ==>
        forall x: nat :: r.p <= x < r.p + control.size ==> memory.at(x) == 0
    {
      hide AllocatorOk, PowerOfTwo, StorePointer, LoadPointer, Load, Patch, Available, InitialBytes, Untouched, Aligned;
      UntouchedNothing(blocks, memory);
      AbortMeans(control, allocate, blocks);
      AlignmentTest(control.align);
      var align := Alignment(control.align);
      q := 0;
      if !PowerOfTwo(align) {
        return Aborted, q;
      }
      var base;
      base, q := MemalignAlloc(align, control.size, allocate);
      if base == 0 {
        return Aborted, q;
      }
      AlignedFor(base, control.align);
      AvailableEnds(old(blocks), q, align - 1 + POINTER_BYTES + control.size);
      InitialisedMemory(old(memory), q, base, InitialBytes(control), blocks[q]);
      memory := Patch(memory, base, InitialBytes(control));
      OutsideOfFresh(old(blocks), old(memory), memory, q, blocks[q]);
      InitialMeans(memory, base, control);
      r := Address(base);
    }

    /** The first access of a thread to a variable. */
    method FillSlot(t: nat, i: nat, c: nat, allocate: Policy) returns (r: Got)
      requires Valid() && Honest(allocate) && c < |controls| && controls[c].index == i + 1
      requires t in tables && i < |tables[t].data| && tables[t].data[i] == 0
      modifies this`blocks, this`memory, this`tables, this`home
      ensures r.Address? ==> Valid() && r.p != 0 && Filled(old(tables), tables, t, i, r.p)
      ensures r.Address? ==> Freshly(r.p, controls[c], memory)
      ensures r.Aborted? <==> MustAbort(controls[c], allocate, old(blocks))
      ensures r.Aborted? ==> tables == old(tables)
      ensures ControlOk(controls[c])
      ensures match ObjectIn(allocate, Room(old(tables)[t], old(blocks)), i, controls[c])
        case Refused => r.Aborted?
        case Done(p, room) => r == Address(p) && tables == old(tables)[t := room.table] && blocks == room.blocks
      ensures r.Address? ==> home == old(home)[Slot(t, i) := allocate.choose(old(blocks), BlockSize(controls[c]))]
      ensures Untouched(old(blocks), old(memory), memory)
    {
      hide *;
      IndexedControl(c);
      ValidIsInv();
      var control := controls[c];
      ghost var n, q, m0, b0 := BlockSize(control), 0, memory, blocks;
      r, q := AllocateObject(control, allocate);
      ObjectMade(allocate, tables, t, b0, i, control);
      if r.Aborted? {
        return;
      }
      NewBlockLive(b0, blocks, q, n);
      FilledTable(tables, t, i, r.p);
      SetData(t, i, r.p, m0, b0, q, n);
    }

    /** array->data[index] = base, completing the invariant. */
    method SetData(t: nat, i: nat, p: nat, ghost was: Memory, ghost wasBlocks: map<nat, nat>, ghost q: nat, ghost n: nat)
      requires Inv(was, wasBlocks, tables, home, controls, numObject, byIndex) && AllocatorOk(blocks) && Untouched(wasBlocks, was, memory)
      requires OneMore(wasBlocks, blocks, q, n) && RoundsOk(tables, skipRounds)
      requires t in tables && i < |tables[t].data| && tables[t].data[i] == 0
      requires i < |byIndex| && byIndex[i] < |controls| && ObjectOk(memory, blocks, q, p, controls[byIndex[i]])
      modifies this`tables, this`home
      ensures Valid() && p != 0 && Filled(old(tables), tables, t, i, p)
      ensures tables == old(tables)[t := SetSlot(old(tables)[t], i, p)] && home == old(home)[Slot(t, i) := q]
    {
      hide AllocatorOk, Untouched, ObjectOk, Inv, SetSlot;
      ObjectPlaced(was, wasBlocks, memory, blocks, tables, home, controls, numObject, byIndex, Slot(t, i), q, n, p);
      home := home[Slot(t, i) := q];
      RoundsWithSlot(tables, t, i, p, skipRounds);
      tables := tables[t := SetSlot(tables[t], i, p)];
    }

    lemma ValidIsInv()
      requires Valid()
      ensures Inv(memory, blocks, tables, home, controls, numObject, byIndex)
      ensures AllocatorOk(blocks) && HomesOk(tables, home) && RoundsOk(tables, skipRounds)
    {}

    lemma ControlsOk(c: nat)
      requires Valid() && c < |controls|
      ensures ControlOk(controls[c])
    {}

    lemma OccupiedBelow()
      requires Valid()
      ensures forall s :: Occupied(tables, s) ==> s.i < numObject
    {}

    lemma IndexedControl(c: nat)
      requires Valid() && c < |controls| && controls[c].index > 0
      ensures ControlOk(controls[c]) && controls[c].index - 1 < |byIndex| == numObject && byIndex[controls[c].index - 1] == c
    {}

    /** The first two lines of __emutls_get_address: an index, and a table with a
        slot for it. */
    method Prepare(t: nat, c: nat, allocate: Policy) returns (ok: bool, index: nat)
      requires Valid() && c < |controls| && Honest(allocate)
      modifies this`controls, this`numObject, this`byIndex, this`blocks, this`tables
      ensures Valid() && SameButIndices(old(controls), controls) && old(byIndex) <= byIndex
      ensures Extends(old(tables), tables, t) && HomesKept(old(blocks), blocks, home)
      ensures ok ==> 0 < index == controls[c].index && t in tables && index <= |tables[t].data|
      ensures SlotReady(old(tables), tables, old(controls), t, c, index, ok)
      ensures AddressOf(old(tables), old(controls), t, c).Some? ==> blocks == old(blocks)
      ensures index == IndexFor(old(controls), old(numObject), c) && 0 < index < 0x200_0000_0000_0000
      ensures N.Numbering(IndexWords(controls), numObject)
           == N.Number(N.Numbering(IndexWords(old(controls)), old(numObject)), c)
      ensures match TableFor(allocate, skipRounds, old(blocks), TableOf(old(tables), t), index)
        case None => !ok && tables == old(tables) && blocks == old(blocks)
        case Some(room) => ok && tables == old(tables)[t := room.table] && blocks == room.blocks
    {
      hide *;
      IndexForMeans(controls, numObject, c);
      OccupiedBelow();
      AddressFound(tables, controls, t, c);
      index := GetIndex(c);
      IndexGrown(old(controls), controls, c);
      ok := GetAddressArray(t, index, allocate);
      SlotIsReady(old(tables), tables, old(controls), t, c, index, ok, old(numObject));
    }

    /** __emutls_get_address. Repeated calls give the same address, also after the
        table has grown; a first call gives a fresh, aligned, initialised object;
        nothing else changes. */
    method GetAddress(t: nat, c: nat, allocate: Policy) returns (r: Got)
      requires Valid() && c < |controls| && Honest(allocate)
      modifies this
      ensures r.Address? ==> Valid() && AddressOf(tables, controls, t, c) == Some(r.p)
      ensures SameButIndices(old(controls), controls) && old(byIndex) <= byIndex
      ensures OtherThreadsKept(old(tables), tables, t)
      ensures r.Address? ==> SlotsKept(old(tables), tables)
      ensures ObjectsUntouched(old(home), old(blocks), old(memory), memory)
      ensures AddressOf(old(tables), old(controls), t, c).Some? ==>
        r == Address(AddressOf(old(tables), old(controls), t, c).value) && memory == old(memory) && blocks == old(blocks)
      ensures AddressOf(old(tables), old(controls), t, c).None? && r.Address? ==>
        && r.p % 8 == 0 && (old(controls)[c].align >= 8 ==> r.p % old(controls)[c].align == 0)
        && Freshly(r.p, old(controls)[c], memory)
      ensures N.Numbering(IndexWords(controls), numObject)
           == N.Number(N.Numbering(IndexWords(old(controls)), old(numObject)), c)
      ensures 0 < IndexFor(old(controls), old(numObject), c) < 0x200_0000_0000_0000 && ControlOk(old(controls)[c])
      ensures var index := IndexFor(old(controls), old(numObject), c);
        match Accessed(allocate, skipRounds, old(blocks), TableOf(old(tables), t), index, old(controls)[c])
        case Refused => r.Aborted?
        case Done(p, room) => r == Address(p) && tables == old(tables)[t := room.table] && blocks == room.blocks
      ensures var index, d := IndexFor(old(controls), old(numObject), c), old(controls)[c];
        r.Aborted? <==>
        match TableFor(allocate, skipRounds, old(blocks), TableOf(old(tables), t), index)
        case None => true
        case Some(room) =>
          && room.table.data[index - 1] == 0
          && (|| (d.align >= 8 && !PowerOfTwo(d.align))
              || allocate.choose(room.blocks, (if d.align < 8 then 8 else d.align) + 7 + d.size) == 0)
      ensures r.Address? && AddressOf(old(tables), old(controls), t, c).Some? ==> home == old(home)
      ensures r.Address? && AddressOf(old(tables), old(controls), t, c).None? ==>
        var index := IndexFor(old(controls), old(numObject), c);
        var q := NewBlock(allocate, skipRounds, old(blocks), TableOf(old(tables), t), index, old(controls)[c]);
        home == old(home)[Slot(t, index - 1) := q]
    {
      hide *;
      UntouchedNothing(blocks, memory);
      ControlsOk(c);
      var ok, index := Prepare(t, c, allocate);
      RefusalMeans(allocate, skipRounds, old(blocks), TableOf(old(tables), t), index, old(controls)[c]);
      AccessSteps(allocate, skipRounds, old(blocks), TableOf(old(tables), t), index, old(controls)[c]);
      ExtendsKeepsOthers(old(tables), tables, t);
      IndexGrown(old(controls), controls, c);
      UntouchedNothing(blocks, memory);
      UntouchedObjects(old(home), old(blocks), blocks, memory, memory);
      if !ok {
        SlotFails(old(tables), tables, old(controls), t, c, index);
        return Aborted;
      }
      SlotTells(old(tables), tables, old(controls), t, c, index);
      RoomIsTable(allocate, skipRounds, old(blocks), blocks, old(tables), tables, t, index);
      AccessedIn(allocate, skipRounds, old(blocks), TableOf(old(tables), t), index, old(controls)[c], Room(tables[t], blocks));
      index := index - 1;
      ObjectIgnoresIndex(allocate, Room(tables[t], blocks), index, old(controls)[c], controls[c]);
      ghost var middle, middleBlocks := tables, blocks;
      if tables[t].data[index] == 0 {
        r := FillSlot(t, index, c, allocate);
        UntouchedObjects(old(home), old(blocks), middleBlocks, old(memory), memory);
        if r.Aborted? {
          return;
        }
        SlotIsSet(middle, tables, t, index, r.p);
        FreshlyIgnoresIndex(r.p, controls[c], old(controls)[c], memory);
        FreshlyMeans(r.p, old(controls)[c], memory);
      } else {
        OccupiedIn(allocate, Room(tables[t], blocks), index, old(controls)[c]);
      }
      r := Address(tables[t].data[index]);
      StagesKeepSlots(old(tables), middle, tables, t, index, r.p);
      AddressKnown(tables, controls, t, c, index);
    }

    /** A client writes inside its object. */
    method ClientWrite(t: nat, c: nat, offset: nat, bytes: seq<byte>)
      requires Valid() && c < |controls| && AddressOf(tables, controls, t, c).Some? && offset + |bytes| <= controls[c].size
      modifies this`memory
      ensures Valid()
      ensures memory == Patch(old(memory), AddressOf(tables, controls, t, c).value + offset, bytes)
    {
      hide *;
      ValidIsInv();
      AddressFound(tables, controls, t, c);
      WriteKeepsInv(memory, blocks, tables, home, controls, numObject, byIndex, t, c, offset, bytes);
      memory := Patch(memory, tables[t].data[controls[c].index - 1] + offset, bytes);
      InvIsValid();
    }

    /** emutls_memalign_free: the block's address is stored before the object. */
    method MemalignFree(base: nat)
      requires POINTER_BYTES <= base && LoadPointer(memory, base - POINTER_BYTES) in blocks && AllocatorOk(blocks)
      modifies this`blocks, this`freed
      ensures blocks == old(blocks) - {LoadPointer(memory, base - POINTER_BYTES)} && AllocatorOk(blocks)
      ensures freed == old(freed) + [LoadPointer(memory, base - POINTER_BYTES)]
    {
      Free(LoadPointer(memory, base - POINTER_BYTES));
    }

    /** emutls_shutdown: frees the objects of a thread's table. */
    method Shutdown(t: nat, table: Table)
      requires Valid() && t in tables && tables[t] == table
      modifies this`blocks, this`freed
      ensures AllocatorOk(blocks)
      ensures freed == old(freed) + HomeList(home, t, |table.data|)
      ensures blocks == old(blocks) - Members(HomeList(home, t, |table.data|))
    {
      hide *;
      ValidIsInv();
      ghost var was := blocks;
      HomeListStart(t);
      MinusOneMore(blocks, [], 0);
      var i := 0;
      while i < |table.data|
        invariant 0 <= i <= |table.data| && AllocatorOk(blocks)
        invariant freed == old(freed) + HomeList(home, t, i)
        invariant blocks == was - Members(HomeList(home, t, i))
      {
        if table.data[i] != 0 {
          NextIsLive(memory, was, tables, home, controls, numObject, byIndex, t, i);
          MinusOneMore(was, HomeList(home, t, i), home[Slot(t, i)]);
          MemalignFree(table.data[i]);
        } else {
          NothingToFree(tables, home, t, i);
        }
        i := i + 1;
      }
    }

    lemma HomeListStart(t: nat)
      ensures HomeList(home, t, 0) == []
    {}

    lemma InvIsValid()
      requires Inv(memory, blocks, tables, home, controls, numObject, byIndex) && RoundsOk(tables, skipRounds)
      ensures Valid()
    {}

    /** emutls_key_destructor: puts the table back for the configured number of
        rounds, then frees every object and the table, each exactly once. */
    method KeyDestructor(t: nat)
      requires Valid() && t in tables
      modifies this
      ensures Valid() && controls == old(controls) && memory == old(memory)
      ensures old(tables)[t].skipRounds > 0 ==>
        && tables == old(tables)[t := old(tables)[t].(skipRounds := old(tables)[t].skipRounds - 1)]
        && blocks == old(blocks) && freed == old(freed) && home == old(home)
      ensures old(tables)[t].skipRounds == 0 ==>
        && tables == old(tables) - {t}
        && freed == old(freed) + HomeList(old(home), t, |old(tables)[t].data|) + [old(tables)[t].base]
        && blocks == old(blocks) - Members(HomeList(old(home), t, |old(tables)[t].data|)) - {old(tables)[t].base}
    {
      hide *;
      ValidIsInv();
      var table := tables[t];
      if table.skipRounds > 0 {
        InvAfterSkip(memory, blocks, tables, home, controls, numObject, byIndex, t, table.skipRounds - 1);
        tables := tables[t := table.(skipRounds := table.skipRounds - 1)];
      } else {
        ghost var was, list := blocks, HomeList(home, t, |table.data|);
        MinusOneMore(was, list, table.base);
        TableIsLive(memory, was, tables, home, controls, numObject, byIndex, t, |table.data|);
        InvWithoutThread(memory, was, tables, home, controls, numObject, byIndex, t, Members(list + [table.base]));
        Shutdown(t, table);
        Free(table.base);
        tables := tables - {t};
        home := HomesWithout(home, t);
      }
      InvIsValid();
    }

    /** A thread ends: its destructor runs until the key stays clear. */
    method ThreadExit(t: nat) returns (rounds: nat)
      requires Valid() && t in tables
      modifies this
      ensures Valid() && t !in tables && rounds == old(tables)[t].skipRounds + 1 <= skipRounds + 1
      ensures freed == old(freed) + HomeList(old(home), t, |old(tables)[t].data|) + [old(tables)[t].base]
      ensures controls == old(controls) && memory == old(memory)
    {
      hide *;
      ValidIsInv();
      RoundsBound(tables, t, skipRounds);
      rounds := 0;
      while t in tables
        invariant Valid() && controls == old(controls) && memory == old(memory)
        invariant t in tables ==> tables[t].(skipRounds := 0) == old(tables)[t].(skipRounds := 0)
        invariant t in tables ==> rounds + tables[t].skipRounds == old(tables)[t].skipRounds && home == old(home) && freed == old(freed)
        invariant t !in tables ==> rounds == old(tables)[t].skipRounds + 1
        invariant t !in tables ==> freed == old(freed) + HomeList(old(home), t, |old(tables)[t].data|) + [old(tables)[t].base]
        decreases if t in tables then tables[t].skipRounds + 1 else 0
      {
        KeyDestructor(t);
        rounds := rounds + 1;
      }
    }
  }
}
