/** kheap.c: the bump allocator over one MiB behind the kernel. */
module Heaps {
  import opened CTypes
  import opened Bits

  const HEAP_SIZE := 0x10_0000
  const TWO64 := 0x1_0000_0000_0000_0000

  type Address = n: int | 0 <= n < 0x1_0000_0000_0000_0000

  lemma Power64()
    ensures Pow2(64) == TWO64
  {
    assert Pow2(8) == 256;
    assert Pow2(16) == 256 * Pow2(8);
    assert Pow2(24) == 256 * Pow2(16);
    assert Pow2(32) == 256 * Pow2(24);
    assert Pow2(40) == 256 * Pow2(32);
    assert Pow2(48) == 256 * Pow2(40);
    assert Pow2(56) == 256 * Pow2(48);
    assert Pow2(64) == 256 * Pow2(56);
  }

  /** On 64-bit addresses: the aligned address is a multiple, and less than one multiple away. */
  lemma AlignedTo(value: nat, a: nat, k: nat) returns (q: nat)
    requires k < 64 && a == Pow2(k) <= 4096 && value < TWO64 - 4096
    ensures value <= AlignUp(value, a, TWO64) < value + a && AlignUp(value, a, TWO64) == q * a
  {
    Power64();
    AlignUpIs(value, a, TWO64, k, 64);
    q := High(value + a - 1, k);
  }

  /** `align_up` to 16 bytes. */
  function Align16(value: nat): nat { AlignUp(value, 16, TWO64) }

  lemma Align16Is(value: nat)
    requires value < TWO64 - 4096
    ensures value <= Align16(value) < value + 16 && Align16(value) % 16 == 0
  {
    assert Pow2(4) == 16;
    var q := AlignedTo(value, 16, 4);
    Divides16(q, Align16(value));
  }

  lemma Divides16(q: nat, a: nat)
    requires a == q * 16
    ensures a % 16 == 0
  {
  }

  /** `align_up` to a page. */
  function Align4096(value: nat): nat { AlignUp(value, 4096, TWO64) }

  lemma Align4096Is(value: nat)
    requires value < TWO64 - 4096
    ensures value <= Align4096(value) < value + 4096 && Align4096(value) % 4096 == 0
  {
    assert Pow2(6) == 64 && Pow2(12) == 64 * Pow2(6);
    var q := AlignedTo(value, 4096, 12);
    Divides4096(q, Align4096(value));
  }

  lemma Divides4096(q: nat, a: nat)
    requires a == q * 4096
    ensures a % 4096 == 0
  {
  }

  /** An address range handed out. */
  datatype Block = Block(start: nat, size: nat)

  function End(b: Block): nat { b.start + b.size }

  function Sizes(bs: seq<Block>): nat {
    if bs == [] then 0 else Sizes(bs[..|bs| - 1]) + bs[|bs| - 1].size
  }

  /** The heap of a run: its bounds, the cursor, and every block ever handed out. */
  datatype Heap = Heap(start: nat, current: nat, blocks: seq<Block>)

  function HeapEnd(h: Heap): nat { h.start + HEAP_SIZE }

  predicate InHeap(h: Heap, b: Block) {
    b.size > 0 && b.start % 16 == 0 && h.start <= b.start && End(b) <= h.current
  }

  /** All blocks are aligned, inside the heap and apart, and little is lost between them. */
  ghost predicate Sound(h: Heap) {
    && 0 < h.start && h.start % 4096 == 0 && h.start <= h.current <= HeapEnd(h) < TWO64 - 4096
    && (forall i :: 0 <= i < |h.blocks| ==> InHeap(h, h.blocks[i]))
    && (forall i, j :: 0 <= i < j < |h.blocks| ==> End(h.blocks[i]) <= h.blocks[j].start)
    && h.current - h.start <= Sizes(h.blocks) + 15 * |h.blocks|
    && Sizes(h.blocks) <= h.current - h.start
  }

  /** Whether a request is granted: it is not empty and fits behind the aligned cursor. */
  predicate Granted(h: Heap, size: nat) {
    size > 0 && Align16(h.current) + size <= HeapEnd(h)
  }

  function Allocate(h: Heap, size: nat): Heap {
    if !Granted(h, size) then h
    else
      var b := Block(Align16(h.current), size);
      Heap(h.start, End(b), h.blocks + [b])
  }

  lemma AllocateStaysSound(h: Heap, size: nat)
    requires Sound(h)
    ensures Sound(Allocate(h, size))
  {
    if Granted(h, size) {
      Align16Is(h.current);
      var h' := Allocate(h, size);
      assert h'.blocks[..|h.blocks|] == h.blocks;
      forall i | 0 <= i < |h'.blocks| ensures InHeap(h', h'.blocks[i]) {
        if i < |h.blocks| {
          assert InHeap(h, h.blocks[i]);
        }
      }
      forall i, j | 0 <= i < j < |h'.blocks| ensures End(h'.blocks[i]) <= h'.blocks[j].start {
        assert InHeap(h, h.blocks[i]);
      }
    }
  }

  /**
   * A granted block is the one asked for, at the first multiple of 16 from the cursor on, and ends inside the
   * MiB; a request is refused only if it is empty or its block would end outside.
   */
  lemma AllocatePlace(h: Heap, size: nat, at: nat)
    requires Sound(h) && at % 16 == 0 && h.current <= at < h.current + 16
    ensures Allocate(h, size) == if size > 0 && at + size <= h.start + 0x10_0000
                                 then Heap(h.start, at + size, h.blocks + [Block(at, size)]) else h
  {
    Align16Is(h.current);
    OneMultiple(h.current, at, Align16(h.current));
  }

  lemma OneMultiple(from: nat, a: nat, b: nat)
    requires a % 16 == 0 && b % 16 == 0 && from <= a < from + 16 && from <= b < from + 16
    ensures a == b
  {
  }

  function Run(h: Heap, sizes: seq<nat>): Heap {
    if sizes == [] then h else Allocate(Run(h, sizes[..|sizes| - 1]), sizes[|sizes| - 1])
  }

  /** Over any run every block keeps its place: aligned, in the heap, apart from all others. */
  lemma {:induction false} RunStaysSound(h: Heap, sizes: seq<nat>)
    requires Sound(h)
    ensures Sound(Run(h, sizes)) && h.blocks <= Run(h, sizes).blocks
    decreases |sizes|
  {
    if sizes != [] {
      RunStaysSound(h, sizes[..|sizes| - 1]);
      AllocateStaysSound(Run(h, sizes[..|sizes| - 1]), sizes[|sizes| - 1]);
    }
  }

  /** As blocks are not empty, there are never more of them than bytes in the heap. */
  lemma {:induction false} FewBlocks(bs: seq<Block>)
    requires forall i :: 0 <= i < |bs| ==> bs[i].size > 0
    ensures |bs| <= Sizes(bs)
    decreases |bs|
  {
    if bs != [] {
      FewBlocks(bs[..|bs| - 1]);
    }
  }

  lemma CountStaysSmall(h: Heap)
    requires Sound(h)
    ensures |h.blocks| <= HEAP_SIZE
  {
    forall i | 0 <= i < |h.blocks| ensures h.blocks[i].size > 0 {
      assert InHeap(h, h.blocks[i]);
    }
    FewBlocks(h.blocks);
  }

  /** The code's test on wrapped addresses refuses exactly the requests that do not fit. */
  lemma WrapTestIsExact(allocation: nat, size: Address, end: nat)
    requires allocation <= end < TWO64
    ensures var next := (allocation + size) % TWO64;
            && (next < allocation || next > end <==> allocation + size > end)
            && (allocation + size <= end ==> next == allocation + size)
  {
  }

  class Kheap {
    /** The bytes of the heap. */
    const memory: array<byte>
    var heapStart: Address
    var heapCurrent: Address
    var heapEnd: Address
    var allocationCount: nat
    ghost var blocks: seq<Block>

    ghost predicate Valid()
      reads this
    {
      memory.Length == HEAP_SIZE && Sound(View()) && heapEnd == HeapEnd(View()) && allocationCount == |blocks|
    }

    ghost function View(): Heap
      reads this
    {
      Heap(heapStart, heapCurrent, blocks)
    }

    /** `kheap_init`, given where the kernel ends. */
    constructor (kernelEnd: Address)
      requires 0 < kernelEnd < TWO64 - HEAP_SIZE - 2 * 4096
      ensures Valid() && blocks == [] && fresh(memory)
      ensures kernelEnd <= heapStart < kernelEnd + 4096
    {
      Align4096Is(kernelEnd);
      memory := new byte[HEAP_SIZE];
      heapStart := Align4096(kernelEnd);
      heapCurrent := Align4096(kernelEnd);
      heapEnd := Align4096(kernelEnd) + HEAP_SIZE;
      allocationCount := 0;
      blocks := [];
    }

    /** The address of a new block, or 0. */
    method Malloc(size: Address) returns (r: Address)
      requires Valid()
      modifies this`heapCurrent, this`allocationCount, this`blocks
      ensures Valid() && View() == Allocate(old(View()), size)
      ensures r == if Granted(old(View()), size) then Align16(old(heapCurrent)) else 0
      ensures r != 0 <==> Granted(old(View()), size)
    {
      if size == 0 {
        return 0;
      }
      ghost var h := View();
      AllocateStaysSound(h, size);
      var allocation := Align16(heapCurrent);
      var next: Address := (allocation + size) % TWO64;
      DecisionIsExact(h, size, allocation, next);
      if next < allocation || next > heapEnd {
        return 0;
      }
      heapCurrent := next;
      allocationCount := allocationCount + 1;
      blocks := blocks + [Block(allocation, size)];
      assert View() == Allocate(h, size);
      return allocation;
    }

    /** The block is zeroed, and no other byte of the heap changes. */
    method Zalloc(size: Address) returns (r: Address)
      requires Valid()
      modifies this`heapCurrent, this`allocationCount, this`blocks, memory
      ensures Valid() && View() == Allocate(old(View()), size)
      ensures r == if Granted(old(View()), size) then Align16(old(heapCurrent)) else 0
      ensures forall i :: 0 <= i < HEAP_SIZE ==>
        memory[i] == if Granted(old(View()), size) && r <= heapStart + i < r + size then 0 else old(memory[i])
    {
      r := Malloc(size);
      if r != 0 {
        assert blocks[|blocks| - 1] == Block(r, size);
        assert InHeap(View(), blocks[|blocks| - 1]);
        Fill(r - heapStart, size);
      }
    }

    /** `memset` with zero. */
    method Fill(at: nat, size: nat)
      requires memory.Length == HEAP_SIZE && at + size <= HEAP_SIZE
      modifies memory
      ensures forall i :: 0 <= i < HEAP_SIZE ==> memory[i] == if at <= i < at + size then 0 else old(memory[i])
    {
      for k := 0 to size
        invariant forall i :: 0 <= i < HEAP_SIZE ==> memory[i] == if at <= i < at + k then 0 else old(memory[i])
      {
        memory[at + k] := 0;
      }
    }
  }

  lemma MultipleBelow(a: nat, current: nat, end: nat)
    requires a % 16 == 0 && end % 16 == 0 && a < current + 16 && current <= end
    ensures a <= end
  {
  }

  lemma PageEnd(start: nat)
    requires start % 4096 == 0
    ensures (start + HEAP_SIZE) % 16 == 0
  {
    var pages := start / 4096;
    assert start + HEAP_SIZE == 16 * (256 * pages + 65536);
    Sixteenfold(start + HEAP_SIZE, 256 * pages + 65536);
  }

  lemma Sixteenfold(n: nat, m: nat)
    requires n == 16 * m
    ensures n % 16 == 0
  {
  }

  /** The end of the heap is aligned, so the aligned cursor never passes it. */
  lemma CursorStaysInHeap(start: nat, current: nat)
    requires start % 4096 == 0 && current <= start + HEAP_SIZE < TWO64 - 4096
    ensures current <= Align16(current) <= start + HEAP_SIZE
  {
    Align16Is(current);
    PageEnd(start);
    MultipleBelow(Align16(current), current, start + HEAP_SIZE);
  }

  /** What `kmalloc` computes decides whether the request is granted. */
  lemma DecisionIsExact(h: Heap, size: Address, allocation: nat, next: Address)
    requires Sound(h) && size > 0 && allocation == Align16(h.current) && next == (allocation + size) % TWO64
    ensures h.current <= allocation <= HeapEnd(h)
    ensures Granted(h, size) <==> !(next < allocation || next > HeapEnd(h))
    ensures Granted(h, size) ==> next == allocation + size
  {
    CursorStaysInHeap(h.start, h.current);
    WrapTestIsExact(allocation, size, HeapEnd(h));
  }
}
