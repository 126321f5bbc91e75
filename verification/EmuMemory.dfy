/** Memory as emutls.c uses it: bytes and pointers, the blocks malloc has handed
    out, the sizes it asks for, and over-aligned objects with a hidden back
    pointer. */
module EmuMemory {
  import opened Arithmetic
  import opened Bits
  import opened Bytes
  import opened Options

  const POINTER_BYTES: nat := 8
  const HEADER_WORDS: nat := 2

  // ---- sizes ----

  /** emutls_new_data_array_size. */
  function NewDataArraySize(index: nat): nat {
    Pow2Values();
    Wrap(64, And(Wrap(64, index + HEADER_WORDS + 15), Not(64, 15)) - HEADER_WORDS)
  }

  /** Header and slots together fill the least multiple of 16 words that has room
      for the index. */
  lemma NewSizeIsLeast(index: nat)
    requires index + 17 < Pow2(64)
    ensures index <= NewDataArraySize(index) < index + 16
    ensures (NewDataArraySize(index) + 2) % 16 == 0
  {
    hide And, Pow2, Wrap;
    Pow2Values();
    var x := index + HEADER_WORDS + 15;
    Unwrapped(64, x);
    AndHighMask(64, x, 4);
    RoundDown(x, 16);
    var y := And(x, Not(64, 15));
    Unwrapped(64, y - HEADER_WORDS);
  }

  lemma RoundDown(x: nat, d: nat)
    requires 0 < d
    ensures (x - x % d) % d == 0 && x - d < x - x % d <= x
  {
    DivModIdentity(x, d);
    DivModUnique(x - x % d, d, x / d, 0);
  }

  /** For indices short of the address space. */
  lemma NewSizeIsEnough(index: nat)
    requires index < 0x200_0000_0000_0000
    ensures index <= NewDataArraySize(index) < 0x1_0000_0000_0000_0000
  {
    hide NewDataArraySize;
    Pow2Values();
    NewSizeIsLeast(index);
  }

  /** emutls_asize. */
  function Asize(n: nat): nat { n * POINTER_BYTES + HEADER_WORDS * POINTER_BYTES }

  // ---- memory ----

  /** The byte at every address. */
  datatype Memory = Memory(at: nat -> byte)

  function Load(m: Memory, a: nat, n: nat): (bytes: seq<byte>)
    ensures |bytes| == n
    ensures forall i :: 0 <= i < n ==> bytes[i] == m.at(a + i)
  {
    seq<byte>(n, i requires 0 <= i < n => m.at(a + i))
  }

  function Patched(at: nat -> byte, a: nat, bytes: seq<byte>): nat -> byte {
    (x: nat) => if a <= x < a + |bytes| then bytes[x - a] else at(x)
  }

  function Patch(m: Memory, a: nat, bytes: seq<byte>): Memory {
    Memory(Patched(m.at, a, bytes))
  }

  function LoadPointer(m: Memory, a: nat): nat { Number(Load(m, a, POINTER_BYTES)) }

  function StorePointer(m: Memory, a: nat, p: nat): Memory { Patch(m, a, Digits(POINTER_BYTES, p)) }

  lemma LoadPatched(m: Memory, a: nat, bytes: seq<byte>)
    ensures Load(Patch(m, a, bytes), a, |bytes|) == bytes
  {}

  lemma LoadAgrees(m: Memory, m': Memory, a: nat, n: nat)
    requires forall x :: a <= x < a + n ==> m'.at(x) == m.at(x)
    ensures Load(m', a, n) == Load(m, a, n)
  {}

  lemma PointerStored(m: Memory, a: nat, p: nat)
    requires p < Pow2(64)
    ensures LoadPointer(StorePointer(m, a, p), a) == p
  {
    LoadPatched(m, a, Digits(POINTER_BYTES, p));
    NumberOfDigits(POINTER_BYTES, p);
    DivModUnique(p, Pow2(64), 0, p);
  }

  // ---- objects and blocks ----

  /** __emutls_control. The template, if any, is as long as the object. */
  datatype Control = Control(size: nat, align: nat, template: Option<seq<byte>>, index: nat)

  /** The alignment an object gets. */
  function Alignment(align: nat): nat { if align < POINTER_BYTES then POINTER_BYTES else align }

  /** The bytes asked of malloc besides the object's own. */
  function Extra(align: nat): nat { Alignment(align) - 1 + POINTER_BYTES }

  /** All the bytes asked of malloc for an object. */
  function BlockSize(c: Control): nat { Extra(c.align) + c.size }

  /** Where emutls_memalign_alloc puts the object in the block at q. */
  function Placed(q: nat, align: nat): nat
    requires 0 < align < 0x1_0000_0000_0000_0000
  {
    Pow2Values();
    And(q + (align - 1 + POINTER_BYTES), Not(64, align - 1))
  }

  predicate PowerOfTwo(x: nat) { x > 0 && And(x, x - 1) == 0 }

  /** The test with the predecessor finds the powers of two. */
  lemma PowerOfTwoMeans(x: nat)
    ensures PowerOfTwo(x) <==> exists k: nat :: x == Pow2(k)
  {
    if x > 0 {
      AndPredecessor(x);
    }
    if k: nat :| x == Pow2(k) {
      TrailingZerosOfPower(k);
    }
  }

  /** The alignment is one that makes the source abort: at least a pointer's, and no
      power of two. Otherwise the one in use is a power of two. */
  lemma AlignmentTest(align: nat)
    ensures PowerOfTwo(Alignment(align)) <==> !(align >= 8 && !PowerOfTwo(align))
    ensures Alignment(align) == if align < 8 then 8 else align
  {
    assert Pow2(3) == 8;
    PowerOfTwoMeans(8);
  }

  /** At a multiple of eight, and of the alignment asked for if that is larger. */
  predicate Aligned(p: nat, align: nat) { p % 8 == 0 && (align >= 8 ==> p % align == 0) }

  lemma AlignedMeans(p: nat, align: nat)
    requires Aligned(p, align)
    ensures p % 8 == 0 && (align >= 8 ==> p % align == 0)
  {}

  lemma AlignedFor(p: nat, align: nat)
    requires p % 8 == 0 && p % Alignment(align) == 0
    ensures Aligned(p, align)
  {}

  /** A multiple of a power of two that is at least eight is one of eight. */
  lemma EightDivides(align: nat, p: nat)
    requires PowerOfTwo(align) && align >= 8 && p % align == 0
    ensures p % 8 == 0
  {
    hide And, Pow2;
    PowersBelowFive();
    PowerOfTwoMeans(align);
    var k: nat :| align == Pow2(k);
    if k < 3 {
      Pow2Monotone(k, 3);
    }
    Pow2Add(k - 3, 3);
    ModOfMod(p, Pow2(k - 3), 8);
  }

  predicate ControlOk(c: Control) {
    && c.size + Alignment(c.align) < 0x8000_0000_0000_0000
    && (c.template.Some? ==> |c.template.value| == c.size)
  }

  function InitialBytes(c: Control): (bytes: seq<byte>)
    requires ControlOk(c)
    ensures |bytes| == c.size
  {
    if c.template.Some? then c.template.value else seq(c.size, _ => 0)
  }

  /** The template, if there is one, and zeros otherwise. */
  lemma InitialMeans(m: Memory, p: nat, c: Control)
    requires ControlOk(c) && Load(m, p, c.size) == InitialBytes(c)
    ensures c.template.Some? ==> 
      |c.template.value| == c.size && forall x: nat :: p <= x < p + c.size ==> m.at(x) == c.template.value[x - p]
    ensures c.template.None? ==> forall x: nat :: p <= x < p + c.size ==> m.at(x) == 0
  {
    forall x: nat | p <= x < p + c.size ensures m.at(x) == InitialBytes(c)[x - p] {
      assert Load(m, p, c.size)[x - p] == m.at(x);
    }
  }

  /** Two address ranges with nothing in common. */
  predicate Apart(a: nat, m: nat, b: nat, n: nat) { a + m <= b || b + n <= a }

  /** Where malloc(n) may return q: a nonzero address whose block and the address
      after it exist and meet no live block. */
  predicate Available(blocks: map<nat, nat>, q: nat, n: nat) {
    0 < q && q + n < 0x1_0000_0000_0000_0000 && forall b :: b in blocks ==> Apart(q, n, b, blocks[b])
  }

  ghost predicate AllocatorOk(blocks: map<nat, nat>) {
    && (forall b :: b in blocks ==> 0 < b && 0 < blocks[b] && b + blocks[b] < 0x1_0000_0000_0000_0000)
    && (forall b, d :: b in blocks && d in blocks && b != d ==> Apart(b, blocks[b], d, blocks[d]))
  }

  /** The object at p in the block at b: aligned, inside, and with the block's
      address stored just before it. */
  ghost predicate ObjectOk(m: Memory, blocks: map<nat, nat>, b: nat, p: nat, c: Control) {
    && b in blocks && blocks[b] == Extra(c.align) + c.size
    && b + POINTER_BYTES <= p && p + c.size <= b + blocks[b]
    && Aligned(p, c.align)
    && LoadPointer(m, p - POINTER_BYTES) == b
  }

  // ---- placement ----

  /** Rounding down to the alignment after adding the extra bytes gives the first
      aligned address with room for the back pointer below, and there is room for the
      object above. */
  lemma AlignedInside(block: nat, align: nat, size: nat)
    requires PowerOfTwo(align) && POINTER_BYTES <= align
    requires block + align - 1 + POINTER_BYTES + size < 0x1_0000_0000_0000_0000
    ensures align - 1 < Pow2(64)
    ensures var p := And(block + (align - 1 + POINTER_BYTES), Not(64, align - 1));
      && p % align == 0 && p % 8 == 0
      && block + 8 <= p < block + 8 + align
      && p + size <= block + (align - 1 + POINTER_BYTES + size)
  {
    hide And, Pow2;
    Pow2Values();
    var x, k := block + (align - 1 + POINTER_BYTES), TrailingZeros(align);
    AndPredecessor(align);
    if k > 64 {
      Pow2Monotone(64, k);
    }
    AndHighMask(64, x, k);
    DivModIdentity(x, align);
    ModAddMultiple(0, x / align, align);
    EightDivides(align, x - x % align);
  }

  /** A block just handed out is apart from every live one. */
  lemma AllocatorAfterMalloc(blocks: map<nat, nat>, q: nat, n: nat)
    requires AllocatorOk(blocks) && Available(blocks, q, n) && 0 < n
    ensures q !in blocks && AllocatorOk(blocks[q := n])
  {}

  lemma AllocatorAfterFree(blocks: map<nat, nat>, gone: set<nat>)
    requires AllocatorOk(blocks)
    ensures AllocatorOk(blocks - gone)
  {}

  /** An object survives changes of memory outside its block. */
  lemma ObjectKept(m: Memory, m': Memory, blocks: map<nat, nat>, blocks': map<nat, nat>, b: nat, p: nat, c: Control)
    requires ObjectOk(m, blocks, b, p, c)
    requires b in blocks' && blocks'[b] == blocks[b]
    requires forall x: nat :: b <= x < p ==> m'.at(x) == m.at(x)
    ensures ObjectOk(m', blocks', b, p, c)
  {
    LoadAgrees(m, m', p - POINTER_BYTES, POINTER_BYTES);
  }

  lemma AvailableEnds(blocks: map<nat, nat>, q: nat, n: nat)
    requires Available(blocks, q, n)
    ensures 0 < q && q + n < 0x1_0000_0000_0000_0000
  {}

  /** Memory with the back pointer and then the initial bytes written. */
  lemma InitialisedMemory(m: Memory, q: nat, base: nat, bytes: seq<byte>, total: nat)
    requires q + POINTER_BYTES <= base && base + |bytes| <= q + total < 0x1_0000_0000_0000_0000
    ensures var m' := Patch(StorePointer(m, base - POINTER_BYTES, q), base, bytes);
      && LoadPointer(m', base - POINTER_BYTES) == q
      && Load(m', base, |bytes|) == bytes
      && forall x: nat :: !(q <= x < q + total) ==> m'.at(x) == m.at(x)
  {
    hide Number, Digits, Pow2;
    Pow2Values();
    var s := StorePointer(m, base - POINTER_BYTES, q);
    PointerStored(m, base - POINTER_BYTES, q);
    LoadPatched(s, base, bytes);
    LoadAgrees(s, Patch(s, base, bytes), base - POINTER_BYTES, POINTER_BYTES);
  }
}
