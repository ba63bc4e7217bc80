/** The mark bitset of compiler/cvm.c over the memory that runtime/driver.c maps for it. */
module MarkBits {
  import opened WordBits

  const TWO_64: nat := 0x1_0000_0000_0000_0000
  const SYSTEM_PAGE_SIZE := 4096

  /** Memory as 64-bit words at 8-aligned addresses. */
  type Memory = map<nat, bv64>

  // ---------------------------------------------------------------- compiler/cvm.c

  function BitIndex(p: nat): nat { p / 8 }
  function BitShift(p: nat): (shift: nat)
    ensures shift < 64
  {
    BitIndex(p) % 64
  }

  /** A uint64_t pointer plus a number of words; pointers wrap around at 2^64. */
  function BitAddress(p: nat, base: nat): nat { (base + 8 * (BitIndex(p) / 64)) % TWO_64 }

  // ---------------------------------------------------------------- runtime/driver.c

  function RoundUpToWholePages(x: nat): nat { (x + SYSTEM_PAGE_SIZE - 1) / SYSTEM_PAGE_SIZE * SYSTEM_PAGE_SIZE }

  function BitsetSize(heap_size: nat): nat {
    var heap_size_in_longs := (heap_size + 7) / 8;
    var bitset_size_in_longs := (heap_size_in_longs + 63) / 64;
    RoundUpToWholePages(bitset_size_in_longs * 8)
  }

  datatype Heap = Heap(start: nat, size: nat, bitset: nat)

  /** heap_bitset_base, the address the bit of address 0 would have. */
  function Base(h: Heap): nat { (h.bitset - h.start / 64) % TWO_64 }

  /** What the memory map gives: regions inside the address space, the heap page-aligned, the bitset as checked. */
  predicate Valid(h: Heap) {
    && h.start % SYSTEM_PAGE_SIZE == 0 && h.bitset % 512 == 0
    && h.start + h.size <= TWO_64 && h.bitset + BitsetSize(h.size) <= TWO_64
  }

  /** An 8-aligned address in the heap. */
  predicate In(h: Heap, p: nat) { h.start <= p < h.start + h.size && p % 8 == 0 }

  lemma OffsetParts(start: nat, d: nat)
    requires start % SYSTEM_PAGE_SIZE == 0
    ensures (start + d) / 8 / 64 == start / 512 + d / 512 && start / 64 == 8 * (start / 512)
  {
    var page := start / SYSTEM_PAGE_SIZE;
    assert start == 512 * (8 * page);
    assert (start + d) / 8 == 64 * (8 * page) + d / 8;
    assert d / 8 / 64 == d / 512;
  }

  lemma OffsetFits(d: nat, size: nat)
    requires d < size
    ensures 8 * (d / 512) + 8 <= BitsetSize(size)
  {
    assert d / 512 < ((size + 7) / 8 + 63) / 64;
  }

  lemma WrapsBack(x: int, y: nat)
    requires 0 <= x + y < TWO_64
    ensures (x % TWO_64 + y) % TWO_64 == x + y
  {
  }

  lemma WordAligned(bitset: nat, n: nat)
    requires bitset % 512 == 0
    ensures (bitset + 8 * n) % 8 == 0
  {
    assert bitset + 8 * n == 8 * (64 * (bitset / 512) + n);
  }

  /** Every word of marks lies inside the bytes that were mapped for the heap's size. */
  lemma AddressInBitset(h: Heap, p: nat)
    requires Valid(h) && In(h, p)
    ensures var a := BitAddress(p, Base(h));
      a == h.bitset + 8 * ((p - h.start) / 512) && a % 8 == 0 && h.bitset <= a && a + 8 <= h.bitset + BitsetSize(h.size)
  {
    OffsetParts(h.start, p - h.start);
    OffsetFits(p - h.start, h.size);
    hide BitsetSize;
    WrapsBack(h.bitset - h.start / 64, 8 * (BitIndex(p) / 64));
    WordAligned(h.bitset, (p - h.start) / 512);
  }

  lemma DistinctBits(h: Heap, p: nat, q: nat)
    requires Valid(h) && In(h, p) && In(h, q)
    ensures BitAddress(p, Base(h)) == BitAddress(q, Base(h)) && BitShift(p) == BitShift(q) ==> p == q
  {
    AddressInBitset(h, p);
    AddressInBitset(h, q);
    OffsetParts(h.start, p - h.start);
    OffsetParts(h.start, q - h.start);
    hide BitsetSize;
    hide BitAddress;
    if (p - h.start) / 512 == (q - h.start) / 512 && BitShift(p) == BitShift(q) {
      assert p / 8 / 64 == q / 8 / 64 && (p / 8) % 64 == (q / 8) % 64;
      assert p / 8 == q / 8;
    }
  }

  // ---------------------------------------------------------------- words and single bits

  function Narrow(shift: nat): (k: bv7)
    requires shift < 64
    ensures k < 64
  {
    shift as bv7
  }

  lemma ShiftsDistinct(i: nat, j: nat)
    requires i < 64 && j < 64
    ensures Narrow(i) == Narrow(j) ==> i == j
  {
    NarrowBack(i);
    NarrowBack(j);
    hide Narrow;
  }

  lemma NarrowBack(i: nat)
    requires i < 64
    ensures Narrow(i) as nat == i
  {
  }

  function With(w: bv64, shift: nat): bv64
    requires shift < 64
  {
    Or(w, Mask(Narrow(shift)))
  }

  function Without(w: bv64, shift: nat): bv64
    requires shift < 64
  {
    AndNot(w, Mask(Narrow(shift)))
  }

  predicate Has(w: bv64, shift: nat)
    requires shift < 64
  {
    Probe(w, Mask(Narrow(shift)))
  }

  function Test(w: bv64, shift: nat): bv64
    requires shift < 64
  {
    Shifted(w, Narrow(shift))
  }

  lemma BitsOf(w: bv64, i: nat, j: nat)
    requires i < 64 && j < 64
    ensures Has(With(w, i), j) <==> i == j || Has(w, j)
    ensures Has(Without(w, i), j) <==> i != j && Has(w, j)
    ensures Test(w, i) == if Has(w, i) then 1 else 0
  {
    hide Or;
    hide AndNot;
    hide Probe;
    hide Shifted;
    hide Mask;
    hide Narrow;
    ShiftsDistinct(i, j);
    OrBits(w, Narrow(i), Narrow(j));
    AndNotBits(w, Narrow(i), Narrow(j));
    ShiftedBit(w, Narrow(i));
  }

  // ---------------------------------------------------------------- memory

  /** The bitset's bytes are mapped. */
  ghost predicate Mapped(h: Heap, m: Memory) {
    forall a :: a % 8 == 0 && h.bitset <= a && a + 8 <= h.bitset + BitsetSize(h.size) ==> a in m
  }

  predicate IsMarked(h: Heap, m: Memory, p: nat) {
    var a := BitAddress(p, Base(h));
    a in m && Has(m[a], BitShift(p))
  }

  ghost function Marked(h: Heap, m: Memory): iset<nat> { iset p: nat | In(h, p) && IsMarked(h, m, p) }

  function SetMark(h: Heap, m: Memory, p: nat): Memory {
    var a := BitAddress(p, Base(h));
    if a in m then m[a := With(m[a], BitShift(p))] else m
  }

  function ClearMark(h: Heap, m: Memory, p: nat): Memory {
    var a := BitAddress(p, Base(h));
    if a in m then m[a := Without(m[a], BitShift(p))] else m
  }

  lemma OneBitChanges(h: Heap, m: Memory, p: nat, q: nat)
    requires Valid(h) && Mapped(h, m) && In(h, p) && In(h, q)
    ensures IsMarked(h, SetMark(h, m, p), q) <==> p == q || IsMarked(h, m, q)
    ensures IsMarked(h, ClearMark(h, m, p), q) <==> p != q && IsMarked(h, m, q)
  {
    hide Has;
    hide With;
    hide Without;
    hide BitAddress;
    hide BitShift;
    AddressInBitset(h, p);
    DistinctBits(h, p, q);
    BitsOf(m[BitAddress(p, Base(h))], BitShift(p), BitShift(q));
  }

  /** Marking and clearing an address adds it to and takes it from the set of marked addresses, and no other. */
  lemma MarkingIsASet(h: Heap, m: Memory, p: nat)
    requires Valid(h) && Mapped(h, m) && In(h, p)
    ensures Mapped(h, SetMark(h, m, p)) && Marked(h, SetMark(h, m, p)) == Marked(h, m) + iset{p}
    ensures Mapped(h, ClearMark(h, m, p)) && Marked(h, ClearMark(h, m, p)) == Marked(h, m) - iset{p}
  {
    forall q: nat | In(h, q)
      ensures IsMarked(h, SetMark(h, m, p), q) <==> p == q || IsMarked(h, m, q)
      ensures IsMarked(h, ClearMark(h, m, p), q) <==> p != q && IsMarked(h, m, q)
    {
      OneBitChanges(h, m, p, q);
    }
    hide IsMarked;
    hide In;
  }

  // ---------------------------------------------------------------- the operations

  class Bitset {
    const heap: Heap
    const base: nat
    var memory: Memory

    ghost predicate Ready()
      reads this
    {
      Valid(heap) && base == Base(heap) && Mapped(heap, memory)
    }

    constructor (heap: Heap, memory: Memory)
      requires Valid(heap) && Mapped(heap, memory)
      ensures Ready() && this.heap == heap && this.memory == memory
    {
      this.heap := heap;
      this.base := Base(heap);
      this.memory := memory;
    }

    method SetMarkAt(p: nat)
      requires Ready() && In(heap, p)
      modifies this
      ensures Ready() && memory == SetMark(heap, old(memory), p)
      ensures Marked(heap, memory) == old(Marked(heap, memory)) + iset{p}
    {
      AddressInBitset(heap, p);
      MarkingIsASet(heap, memory, p);
      var address := BitAddress(p, base);
      memory := memory[address := With(memory[address], BitShift(p))];
    }

    method ClearMarkAt(p: nat)
      requires Ready() && In(heap, p)
      modifies this
      ensures Ready() && memory == ClearMark(heap, old(memory), p)
      ensures Marked(heap, memory) == old(Marked(heap, memory)) - iset{p}
    {
      AddressInBitset(heap, p);
      MarkingIsASet(heap, memory, p);
      var address := BitAddress(p, base);
      memory := memory[address := Without(memory[address], BitShift(p))];
    }

    /** set_bit on the bit index of an address is set_mark on the address. */
    method SetBit(bit_index: nat)
      requires Ready() && In(heap, 8 * bit_index)
      modifies this
      ensures Ready() && memory == SetMark(heap, old(memory), 8 * bit_index)
      ensures Marked(heap, memory) == old(Marked(heap, memory)) + iset{8 * bit_index}
    {
      AddressInBitset(heap, 8 * bit_index);
      MarkingIsASet(heap, memory, 8 * bit_index);
      var word_index, word_bit_index := bit_index / 64, bit_index % 64;
      var address := (base + 8 * word_index) % TWO_64;
      assert BitIndex(8 * bit_index) == bit_index;
      assert address == BitAddress(8 * bit_index, base) && word_bit_index == BitShift(8 * bit_index);
      hide BitAddress;
      hide BitShift;
      hide With;
      hide Without;
      hide Marked;
      hide BitsetSize;
      memory := memory[address := With(memory[address], word_bit_index)];
    }

    method ClearBit(bit_index: nat)
      requires Ready() && In(heap, 8 * bit_index)
      modifies this
      ensures Ready() && memory == ClearMark(heap, old(memory), 8 * bit_index)
      ensures Marked(heap, memory) == old(Marked(heap, memory)) - iset{8 * bit_index}
    {
      AddressInBitset(heap, 8 * bit_index);
      MarkingIsASet(heap, memory, 8 * bit_index);
      var word_index, word_bit_index := bit_index / 64, bit_index % 64;
      var address := (base + 8 * word_index) % TWO_64;
      assert BitIndex(8 * bit_index) == bit_index;
      assert address == BitAddress(8 * bit_index, base) && word_bit_index == BitShift(8 * bit_index);
      hide BitAddress;
      hide BitShift;
      hide With;
      hide Without;
      hide Marked;
      hide BitsetSize;
      memory := memory[address := Without(memory[address], word_bit_index)];
    }

    method TestBit(bit_index: nat) returns (bit: bv64)
      requires Ready() && In(heap, 8 * bit_index)
      ensures bit == if 8 * bit_index in Marked(heap, memory) then 1 else 0
    {
      AddressInBitset(heap, 8 * bit_index);
      var word_index, word_bit_index := bit_index / 64, bit_index % 64;
      assert BitIndex(8 * bit_index) == bit_index;
      var word := memory[(base + 8 * word_index) % TWO_64];
      BitsOf(word, word_bit_index, word_bit_index);
      bit := Test(word, word_bit_index);
    }

    method TestAndSetBit(bit_index: nat) returns (bit: bv64)
      requires Ready() && In(heap, 8 * bit_index)
      modifies this
      ensures Ready() && bit == if 8 * bit_index in old(Marked(heap, memory)) then 1 else 0
      ensures Marked(heap, memory) == old(Marked(heap, memory)) + iset{8 * bit_index}
    {
      bit := TestBit(bit_index);
      SetBit(bit_index);
    }

    method TestAndClearBit(bit_index: nat) returns (bit: bv64)
      requires Ready() && In(heap, 8 * bit_index)
      modifies this
      ensures Ready() && bit == if 8 * bit_index in old(Marked(heap, memory)) then 1 else 0
      ensures Marked(heap, memory) == old(Marked(heap, memory)) - iset{8 * bit_index}
    {
      bit := TestBit(bit_index);
      ClearBit(bit_index);
    }
  }

  // ---------------------------------------------------------------- runs

  datatype Operation = Set(p: nat) | Clear(p: nat)

  function Apply(h: Heap, m: Memory, ops: seq<Operation>): Memory {
    if |ops| == 0 then m
    else
      var before := Apply(h, m, ops[..|ops| - 1]);
      match ops[|ops| - 1] case Set(p) => SetMark(h, before, p) case Clear(p) => ClearMark(h, before, p)
  }

  /** The last operation on the address was a set, or there was none and it was marked before. */
  predicate LastSet(ops: seq<Operation>, q: nat, before: bool) {
    if |ops| == 0 then before
    else if ops[|ops| - 1].p == q then ops[|ops| - 1].Set?
    else LastSet(ops[..|ops| - 1], q, before)
  }

  /** After any run of sets and clears an address is marked exactly when the last operation on it was a set. */
  lemma {:induction false} RunOfMarks(h: Heap, m: Memory, ops: seq<Operation>, q: nat)
    requires Valid(h) && Mapped(h, m) && In(h, q) && forall i :: 0 <= i < |ops| ==> In(h, ops[i].p)
    ensures Mapped(h, Apply(h, m, ops))
    ensures IsMarked(h, Apply(h, m, ops), q) <==> LastSet(ops, q, IsMarked(h, m, q))
    decreases |ops|
  {
    hide IsMarked;
    hide Mapped;
    hide In;
    hide SetMark;
    hide ClearMark;
    if |ops| > 0 {
      var init := ops[..|ops| - 1];
      RunOfMarks(h, m, init, q);
      OneBitChanges(h, Apply(h, m, init), ops[|ops| - 1].p, q);
      MarkingIsASet(h, Apply(h, m, init), ops[|ops| - 1].p);
    }
  }
}
