/** Runs of the heap in memory, from boot, in which `realloc` and `free` (Kernel/Memory.c) go wrong. */
module HeapCases {
  import opened Words
  import opened Options
  import opened HeapSpec
  import opened KernelHeap

  /** The payload of the first block of a run. */
  const FIRST: uint32 := MEMORY_START + HEADER

  lemma FindFirst(blocks: seq<Block>)
    requires blocks != [] && blocks[0].addr == MEMORY_START
    ensures Find(blocks, FIRST) == 0
  {
  }

  /** After boot, with an empty map: a first block of this size. */
  method BootWithBlock(size: uint32) returns (h: Heap32)
    requires 1 <= size < 0x1000
    ensures fresh(h) && fresh(h.mem) && h.Valid()
    ensures h.Abs() == Heap([], MEMORY_START + size + OVERHEAD, [Block(MEMORY_START, size, size, true)])
    ensures forall a: uint32 :: FIRST <= a < FIRST + size ==> h.mem[a] == 0
  {
    h := new Heap32([]);
    GrantedIffFits([], MEMORY_START, size);
    label Booted:
    var r := h.Malloc(size, 0);
    h.PayloadsKept@Booted(0);
  }

  // ----- A moving `realloc` loses the contents

  const TWO_BLOCKS :=
    Heap([], MEMORY_START + 52, [Block(MEMORY_START, 8, 8, true), Block(MEMORY_START + 26, 8, 8, true)])

  method TwoBlocks() returns (h: Heap32)
    ensures fresh(h) && fresh(h.mem) && h.Valid()
    ensures h.Abs() == TWO_BLOCKS
  {
    h := BootWithBlock(8);
    GrantedIffFits([], h.next, 8);
    var r := h.Malloc(8, 0);
  }

  method StoreSeven() returns (h: Heap32)
    ensures fresh(h) && fresh(h.mem) && h.Valid() && h.mem[FIRST] == 7
    ensures h.Abs() == TWO_BLOCKS
  {
    h := TwoBlocks();
    FindFirst(h.blocks);
    h.StorePayload(FIRST, 0, 7);
  }

  /** The first of two blocks is asked to grow by one byte: the call returns a new block, and the 7
      that had been stored in the old one is not in it. */
  method MovedContentsAreLost(h: Heap32) returns (q: uint32)
    requires h.Valid() && h.mem[FIRST] == 7
    requires h.Abs() == TWO_BLOCKS
    modifies h, h.mem
    ensures h.Valid() && old(IsLive(h.blocks, FIRST)) && !h.ContentsAt(FIRST, q)
    ensures q == MEMORY_START + 52 + HEADER && |h.blocks| == 3 && h.blocks[2] == Block(MEMORY_START + 52, 9, 9, true)
    ensures h.mem[FIRST] == 7 && h.mem[q] == 0
  {
    FindFirst(h.blocks);
    h.LengthAndNext(FIRST, 9);
    var r := h.Realloc(FIRST, 9, 0);
    assert !old(h.ContentsZero(FIRST));
    assert Moves(old(h.blocks), FIRST, 9) && Fits([], MEMORY_START + 52, 9);
    q := Value(r);
    h.PayloadsKept(0);
    h.PayloadsKept(2);
  }

  /** The whole run, from boot. */
  method LoseContents() returns (h: Heap32, q: uint32)
    ensures h.Valid() && |h.blocks| == 3 && q == h.blocks[2].Data() && h.blocks[2].len == 9
    ensures h.mem[FIRST] == 7 && h.mem[q] == 0
  {
    h := StoreSeven();
    q := MovedContentsAreLost(h);
  }

  // ----- An imitated header is believed

  /** A block of 40 zero bytes gets the magic word at its start, and a 9 at offset 16. */
  method Imitate() returns (h: Heap32)
    ensures fresh(h) && fresh(h.mem) && Imitated(h)
  {
    h := BootWithBlock(40);
    FindFirst(h.blocks);
    h.StorePayload(FIRST, 1, 0xC0);
    h.StorePayload(FIRST, 2, 0x10);
    h.StorePayload(FIRST, 3, 0xA1);
    h.StorePayload(FIRST, 16, 9);
  }

  ghost predicate Imitated(h: Heap32)
    reads h, h.mem
  {
    && h.Valid() && h.Abs() == Heap([], MEMORY_START + 58, [Block(MEMORY_START, 40, 40, true)])
    && h.mem[FIRST] == 0 && h.mem[FIRST + 1] == 0xC0 && h.mem[FIRST + 2] == 0x10 && h.mem[FIRST + 3] == 0xA1
    && (forall a: uint32 :: FIRST + 4 <= a < FIRST + 16 ==> h.mem[a] == 0) && h.mem[FIRST + 16] == 9
  }

  /** Freeing the pointer 17 bytes behind, which `malloc` never returned, overwrites two bytes of the
      block and frees nothing. */
  method FreeImitation(h: Heap32)
    requires Imitated(h)
    modifies h, h.mem
    ensures h.blocks == old(h.blocks)
    ensures old(h.mem[FIRST]) == 0 && h.mem[FIRST] == 1 && old(h.mem[FIRST + 16]) == 9 && h.mem[FIRST + 16] == 0
  {
    assert Find(h.blocks, FIRST + HEADER) == 1;
    h.Free(FIRST + HEADER);
  }

  /** Growing it to 100 bytes returns it, and overwrites bytes 12 to 15 of the block with the length. */
  method ReallocImitation(h: Heap32) returns (r: Outcome<uint32>)
    requires Imitated(h)
    modifies h, h.mem
    ensures r == Returned(FIRST + HEADER) && h.blocks == old(h.blocks)
    ensures old(h.mem[FIRST + 12]) == 0 && h.Load(FIRST + 12) == 100
  {
    assert Find(h.blocks, FIRST + HEADER) == 1;
    assert h.Load(FIRST + 8) == 0;
    r := h.Realloc(FIRST + HEADER, 100, 0);
  }

  /** Both, each from boot. */
  method ImitationsAreBelieved() returns (freed: Heap32, grown: Heap32)
    ensures freed.mem.Length == ADDRESS_SPACE && freed.mem[FIRST] == 1 && freed.mem[FIRST + 16] == 0
    ensures grown.mem.Length == ADDRESS_SPACE && grown.Load(FIRST + 12) == 100
    ensures freed.blocks == grown.blocks == [Block(MEMORY_START, 40, 40, true)]
  {
    freed := Imitate();
    FreeImitation(freed);
    grown := Imitate();
    var r := ReallocImitation(grown);
  }

  // ----- Setting up again

  /** With one block allocated, setting up memory management again leaves a heap out of order: the
      next block would be carved over the first. */
  method SetUpAgain() returns (h: Heap32)
    ensures !h.Valid() && h.next == MEMORY_START && h.blocks == [Block(MEMORY_START, 8, 8, true)]
  {
    h := BootWithBlock(8);
    h.Setup([]);
  }
}
