/** The kernel heap as Kernel/Memory.c keeps it: packed headers inside a byte array that is the
    whole 32-bit address space, the blocks doubly linked through those bytes. */
module KernelHeap {
  import opened Words
  import opened HeapSpec

  /** How a call of the two mutually recursive functions ends. The fuel bounds the nested calls;
      a call that runs out for every fuel is one that never returns. */
  datatype Outcome<T> = Returned(value: T) | Halted | OutOfFuel

  function Value(r: Outcome<uint32>): uint32 {
    if r.Returned? then r.value else 0
  }

  datatype Header = Header(magic: uint32, previous: uint32, next: uint32, length: uint32, flags: byte)

  /** The header that block i must carry: the magic word tells a live block from a freed one, as
      do the flags, and the links are the addresses of the neighbouring blocks. */
  ghost predicate Encodes(h: Header, blocks: seq<Block>, i: nat)
    requires i < |blocks|
  {
    && h.magic == (if blocks[i].live then MAGIC else MAGIC + 1)
    && h.flags == (if blocks[i].live then 1 else 0)
    && h.previous == (if i == 0 then 0 else blocks[i - 1].addr)
    && h.next == (if i == |blocks| - 1 then 0 else blocks[i + 1].addr)
    && h.length == blocks[i].len
  }

  /** Appending a block changes the header of the block that was last, in its link only. */
  lemma EncodesAfterCarve(h: Header, blocks: seq<Block>, b: Block, i: nat)
    requires i < |blocks| && Encodes(h, blocks, i)
    ensures Encodes(if i == |blocks| - 1 then h.(next := b.addr) else h, blocks + [b], i)
  {
  }

  ghost predicate InAddressSpace(blocks: seq<Block>) {
    forall i :: 0 <= i < |blocks| ==> MEMORY_START <= blocks[i].addr <= MEMORY_TOP
  }

  /** The payload and padding of a block read the same in two images of memory. */
  ghost predicate BlockKept(b: Block, was: seq<byte>, now: seq<byte>) {
    |was| == |now| == ADDRESS_SPACE && forall a: uint32 :: b.Data() <= a < b.End() ==> now[a] == was[a]
  }

  /** The earlier blocks are in the same place with the same contents. */
  ghost predicate Kept(before: seq<Block>, was: seq<byte>, after: seq<Block>, now: seq<byte>) {
    && |before| <= |after|
    && forall i :: 0 <= i < |before| ==>
         after[i].addr == before[i].addr && after[i].cap == before[i].cap && BlockKept(before[i], was, now)
  }

  lemma KeptIsTransitive(b0: seq<Block>, m0: seq<byte>, b1: seq<Block>, m1: seq<byte>, b2: seq<Block>, m2: seq<byte>)
    requires Kept(b0, m0, b1, m1) && Kept(b1, m1, b2, m2)
    ensures Kept(b0, m0, b2, m2)
  {
    forall i | 0 <= i < |b0| ensures BlockKept(b0[i], m0, m2) {
      assert BlockKept(b0[i], m0, m1) && BlockKept(b1[i], m1, m2);
    }
  }

  /** The byte lies in the header of one of these blocks. */
  ghost predicate HeaderByte(blocks: seq<Block>, a: uint32) {
    exists k :: 0 <= k < |blocks| && blocks[k].addr <= a < blocks[k].addr + HEADER
  }

  ghost predicate InPlace(before: seq<Block>, after: seq<Block>) {
    |before| <= |after| && forall i :: 0 <= i < |before| ==> after[i].addr == before[i].addr
  }

  /** Outside the headers, memory holds what these acts stored last, or what it held before. */
  ghost predicate LastStored(blocks: seq<Block>, acts: seq<Act>, was: seq<byte>, now: seq<byte>) {
    && |was| == |now| == ADDRESS_SPACE
    && forall a: uint32 :: now[a] == LastPut(acts, a, was[a]) || HeaderByte(blocks, a)
  }

  lemma LastStoredStep(acts: seq<Act>, m0: seq<byte>, m1: seq<byte>, m2: seq<byte>, b1: seq<Block>, b2: seq<Block>)
    requires acts != [] && InPlace(b1, b2)
    requires LastStored(b1, [acts[0]], m0, m1) && LastStored(b2, acts[1..], m1, m2)
    ensures LastStored(b2, acts, m0, m2)
  {
    forall a: uint32 ensures m2[a] == LastPut(acts, a, m0[a]) || HeaderByte(b2, a) {
      if HeaderByte(b1, a) {
        var k :| 0 <= k < |b1| && b1[k].addr <= a < b1[k].addr + HEADER;
        assert b2[k].addr == b1[k].addr;
      } else {
        assert m1[a] == LastPut([acts[0]], a, m0[a]);
        LastPutFirst(acts, a, m0[a]);
      }
    }
  }

  class Heap32 {
    const mem: array<byte>
    var map_: seq<MapEntry>
    var next: uint32
    var first: uint32
    var last: uint32
    var numAllocs: uint32
    ghost var blocks: seq<Block>

    ghost function Abs(): Heap
      reads this
    {
      Heap(map_, next, blocks)
    }

    function Load(a: uint32): uint32
      requires mem.Length == ADDRESS_SPACE && a + 4 <= ADDRESS_SPACE
      reads mem
    {
      var b0: int, b1: int, b2: int, b3: int := mem[a], mem[a + 1], mem[a + 2], mem[a + 3];
      b0 + 0x100 * b1 + 0x1_0000 * b2 + 0x100_0000 * b3
    }

    /** The header stored from address a on. */
    function HeaderAt(a: uint32): Header
      requires mem.Length == ADDRESS_SPACE && a + HEADER <= ADDRESS_SPACE
      reads mem
    {
      Header(Load(a), Load(a + 4), Load(a + 8), Load(a + 12), mem[a + 16])
    }

    ghost predicate Linked(i: nat)
      requires mem.Length == ADDRESS_SPACE && InAddressSpace(blocks) && i < |blocks|
      reads this, mem
    {
      Encodes(HeaderAt(blocks[i].addr), blocks, i)
    }

    ghost predicate Valid()
      reads this, mem
    {
      && mem.Length == ADDRESS_SPACE
      && Inv(Abs())
      && InAddressSpace(blocks)
      && numAllocs == |blocks|
      && first == (if blocks == [] then 0 else blocks[0].addr)
      && last == (if blocks == [] then 0 else blocks[|blocks| - 1].addr)
      && (forall i :: 0 <= i < |blocks| ==> Linked(i))
      && (forall a :: next <= a < ADDRESS_SPACE ==> mem[a] == 0)
    }

    method Store(a: uint32, v: uint32)
      requires mem.Length == ADDRESS_SPACE && a + 4 <= ADDRESS_SPACE
      modifies mem
      ensures Load(a) == v
      ensures forall x: uint32 :: !(a <= x < a + 4) ==> mem[x] == old(mem[x])
    {
      WordRoundTrip(v, []);
      mem[a], mem[a + 1], mem[a + 2], mem[a + 3] := ByteOf(v, 0), ByteOf(v, 1), ByteOf(v, 2), ByteOf(v, 3);
    }

    /** Kernel start-up: zeroed memory and the static initialisers of Memory.c. */
    constructor (map_: seq<MapEntry>)
      ensures Valid() && Abs() == Boot(map_) && fresh(mem)
    {
      mem := new byte[ADDRESS_SPACE](_ => 0);
      this.map_ := map_;
      next, first, last, numAllocs := MEMORY_START, 0, 0, 0;
      blocks := [];
    }

    /** What a stopped or unfinished request says about its fate. */
    ghost predicate Explains(halted: bool, unfinished: bool, size: uint32, fuel: nat)
      reads this
    {
      && (halted ==> FateOf(map_, next, size) == OutOfMemory)
      && (unfinished ==>
            && InBounds(next, size)
            && FateOf(map_, next, size) != Granted
            && (FateOf(map_, next, size) == OutOfMemory ==> fuel <= FirstHit(map_, next, size)))
    }

    method CanSafelyAllocate(size: uint32, fuel: nat) returns (r: Outcome<bool>)
      requires Valid()
      modifies this, mem
      ensures unchanged(this) && unchanged(mem)
      ensures size == 0 ==> r == Returned(true)
      ensures size != 0 ==> (r == Returned(true) <==> Allowed(map_, next, size))
      ensures size != 0 ==> (r == Returned(false) <==> !Allowed([], next, size))
      ensures size != 0 ==> Explains(r.Halted?, r.OutOfFuel?, size, fuel)
      decreases fuel, 0
    {
      if size == 0 { return Returned(true); }
      GrantedExactly(map_, next, size);
      GrantedExactly([], next, size);
      if next < MEMORY_START || next > MEMORY_TOP { return Returned(false); }
      if Wrap(next + size) < MEMORY_START || Wrap(next + size) > MEMORY_TOP { return Returned(false); }
      var left := fuel;
      var i := 0;
      while i < |map_|
        invariant 0 <= i <= FirstHit(map_, next, size)
        invariant unchanged(this) && unchanged(mem)
        invariant 0 <= left <= fuel
        invariant left < fuel ==> FateOf(map_, next, size) == Spins && FirstHit(map_, next, size) < |map_|
        decreases left, |map_| - i
      {
        var e := map_[i];
        if EntryEnd(e) < next {
          i := i + 1;
          continue;
        }
        if (next >= EntryStart(e) && next <= EntryEnd(e))
           || (Wrap(next + size) >= EntryStart(e) && Wrap(next + size) <= EntryEnd(e)) {
          assert i == FirstHit(map_, next, size);
          NestedRequestSharesFate(map_, next, size);
          if left == 0 { return OutOfFuel; }
          var nested := Malloc(StepOver(e, next), left - 1);
          if nested.Halted? { return Halted; }
          if nested.OutOfFuel? { return OutOfFuel; }
          left := left - 1;
          i := -1;
        }
        i := i + 1;
      }
      return Returned(true);
    }

    method Malloc(size: uint32, fuel: nat) returns (r: Outcome<uint32>)
      requires Valid()
      modifies this, mem
      ensures size == 0 ==> r == Returned(0)
      ensures size != 0 ==> (r.Returned? <==> FateOf(map_, old(next), size) == Granted)
      ensures size != 0 ==> (r.Returned? <==> Allowed(map_, old(next), size))
      ensures size == 0 || !r.Returned? ==>
        unchanged(this) && unchanged(mem) && Explains(r.Halted?, r.OutOfFuel?, size, fuel)
      ensures r.Returned? && size != 0 ==> r.value == old(next) + HEADER && Carved(size)
      decreases fuel, 1
    {
      if size == 0 { return Returned(0); }
      GrantedExactly(map_, next, size);
      var ok := CanSafelyAllocate(size, fuel);
      if ok.OutOfFuel? { return OutOfFuel; }
      if ok.Halted? || !ok.value { return Halted; }
      var data := Grant(size);
      return Returned(data);
    }

    /** The part of `malloc` behind a successful check. */
    method Grant(size: uint32) returns (data: uint32)
      requires Valid() && size != 0 && Fits(map_, next, size)
      modifies this, mem
      ensures data == old(next) + HEADER && Carved(size)
    {
      LastBelowNext();
      CarveKeepsInvExactly(Abs(), size);
      data := Place(size);
      PlacedIsCarved(size);
    }

    twostate lemma PlacedIsCarved(size: uint32)
      requires old(Valid()) && mem.Length == ADDRESS_SPACE && old(next) <= MEMORY_TOP && Placed(size)
      requires size != 0 && (SoundSize(old(next), size) ==> Inv(Abs()))
      ensures Carved(size)
    {
      PlacedInHeaders(size);
      MagicsSurvive(size);
      if SoundSize(old(next), size) { PlaceKeepsValid(size); }
    }

    method Place(size: uint32) returns (data: uint32)
      requires mem.Length == ADDRESS_SPACE && MEMORY_START <= next <= MEMORY_TOP && last <= MEMORY_TOP
      requires next != MEMORY_START ==> MEMORY_START <= last && last + HEADER <= next
      modifies this, mem
      ensures data == old(next) + HEADER && Placed(size)
    {
      var alloc, previous := next, last;
      if alloc == MEMORY_START { first := alloc; }
      last, numAllocs, next := alloc, Wrap(numAllocs + 1), Wrap(Wrap(next + size) + HEADER + 1);
      blocks := blocks + [Block(alloc, size, size, true)];
      LinkHeader(alloc, previous, size);
      data := Wrap(alloc + HEADER);
    }

    /** The allocation position is MEMORY_START exactly while there is no block. */
    lemma LastBelowNext()
      requires Valid()
      ensures numAllocs < MEMORY_TOP
      ensures next == MEMORY_START <==> blocks == []
      ensures blocks != [] ==> MEMORY_START <= last && last + OVERHEAD < next
    {
      BlocksAreDisjoint(blocks);
    }

    /** The bytes `malloc` writes, and those it leaves alone. */
    twostate predicate HeaderAdded(size: uint32)
      requires mem.Length == ADDRESS_SPACE && old(next) <= MEMORY_TOP && old(last) <= MEMORY_TOP
      reads this, mem
    {
      var alloc := old(next);
      && HeaderAt(alloc) == Header(MAGIC, if alloc == MEMORY_START then 0 else old(last), old(Load(alloc + 8)), size, 1)
      && (alloc != MEMORY_START ==> HeaderAt(old(last)) == old(HeaderAt(last)).(next := alloc))
      && forall a: uint32 ::
           !(alloc <= a < alloc + HEADER) && (alloc == MEMORY_START || !(old(last) + 8 <= a < old(last) + 12)) ==>
           mem[a] == old(mem[a])
    }

    /** Every byte that changed lies inside a block header. */
    twostate predicate HeadersOnly()
      requires mem.Length == ADDRESS_SPACE
      reads this, mem
    {
      forall a: uint32 :: mem[a] != old(mem[a]) ==> InHeader(a)
    }

    ghost predicate InHeader(a: uint32)
      reads this
    {
      exists k :: 0 <= k < |blocks| && blocks[k].addr <= a < blocks[k].addr + HEADER
    }

    /** A call that writes headers only leaves the payload and padding of every block alone. */
    twostate lemma PayloadsKept(i: nat)
      requires Valid() && HeadersOnly() && i < |blocks|
      ensures forall a: uint32 :: blocks[i].Data() <= a < blocks[i].End() ==> mem[a] == old(mem[a])
    {
      forall a: uint32 | blocks[i].Data() <= a < blocks[i].End() ensures !InHeader(a) {
        forall k | 0 <= k < |blocks| ensures !(blocks[k].addr <= a < blocks[k].addr + HEADER) {
          if i < k { Apart(blocks, i, k); } else if k < i { Apart(blocks, k, i); }
        }
      }
    }

    /** Everything `malloc` does behind a successful check. */
    twostate predicate Placed(size: uint32)
      requires mem.Length == ADDRESS_SPACE && old(next) <= MEMORY_TOP && old(last) <= MEMORY_TOP
      reads this, mem
    {
      && map_ == old(map_)
      && blocks == old(blocks) + [Block(old(next), size, size, true)]
      && next == Wrap(Wrap(old(next) + size) + OVERHEAD)
      && numAllocs == Wrap(old(numAllocs) + 1)
      && last == old(next)
      && first == (if old(next) == MEMORY_START then old(next) else old(first))
      && HeaderAdded(size)
    }

    /** Taking a new block does not disturb the magic word of a live one. */
    twostate lemma MagicSurvives(data: uint32)
      requires old(Valid()) && old(IsLive(blocks, data)) && mem.Length == ADDRESS_SPACE
      requires old(next) <= MEMORY_TOP && |old(blocks)| < |blocks| && Placed(blocks[|old(blocks)|].cap)
      requires InAddressSpace(blocks)
      ensures MagicWord(data) == MAGIC
    {
      LinkedAfterPlace(old(Find(blocks, data)));
      LinkTellsMagic(old(Find(blocks, data)), data);
    }

    twostate lemma MagicsSurvive(size: uint32)
      requires old(Valid()) && mem.Length == ADDRESS_SPACE && old(next) <= MEMORY_TOP && Placed(size)
      ensures InAddressSpace(blocks)
      ensures forall data: uint32 :: old(IsLive(blocks, data)) ==> MagicWord(data) == MAGIC
    {
      CountBelowTop(old(blocks));
      assert InAddressSpace(blocks);
      forall data: uint32 | old(IsLive(blocks, data)) ensures MagicWord(data) == MAGIC {
        MagicSurvives(data);
      }
    }

    lemma LinkTellsMagic(k: nat, data: uint32)
      requires mem.Length == ADDRESS_SPACE && InAddressSpace(blocks) && k < |blocks| && Linked(k)
      requires blocks[k].Data() == data
      ensures MagicWord(data) == if blocks[k].live then MAGIC else MAGIC + 1
    {
    }

    /** The new block is carved at the old allocation position, only headers are written, the
        magic words of the live blocks survive, and the heap stays valid as long as the size is
        in the sound range. */
    twostate predicate Carved(size: uint32)
      reads this, mem
    {
      && mem.Length == ADDRESS_SPACE
      && Abs() == Carve(old(Abs()), size) && InAddressSpace(blocks)
      && HeadersOnly()
      && (forall data: uint32 :: old(IsLive(blocks, data)) ==> MagicWord(data) == MAGIC)
      && (SoundSize(old(next), size) ==> Valid())
    }

    twostate lemma PlacedInHeaders(size: uint32)
      requires old(Valid()) && mem.Length == ADDRESS_SPACE && old(next) <= MEMORY_TOP && Placed(size)
      ensures HeadersOnly()
    {
      var n := |old(blocks)|;
      forall a: uint32 | mem[a] != old(mem[a]) ensures InHeader(a) {
        if old(next) <= a < old(next) + HEADER {
          assert blocks[n].addr == old(next);
        } else {
          CountBelowTop(old(blocks));
          assert blocks[n - 1] == old(blocks)[n - 1];
        }
      }
    }

    twostate lemma PlaceKeepsValid(size: uint32)
      requires old(Valid()) && mem.Length == ADDRESS_SPACE && old(next) <= MEMORY_TOP && Placed(size)
      requires size != 0 && SoundSize(old(next), size) && Inv(Abs())
      ensures Valid()
    {
      CountBelowTop(old(blocks));
      TopOfAppend(old(blocks), Block(old(next), size, size, true));
      assert next == old(next) + size + OVERHEAD;
      assert InAddressSpace(blocks);
      forall i | 0 <= i < |blocks| ensures Linked(i) {
        if i < |old(blocks)| { LinkedAfterPlace(i); } else { NewBlockLinked(size); }
      }
      if old(blocks) != [] { BelowTop(old(blocks), |old(blocks)| - 1); }
    }

    twostate lemma NewBlockLinked(size: uint32)
      requires old(Valid()) && mem.Length == ADDRESS_SPACE && old(next) <= MEMORY_TOP && Placed(size)
      requires InAddressSpace(blocks)
      ensures Linked(|old(blocks)|)
    {
      CountBelowTop(old(blocks));
      assert old(Load(next + 8)) == 0;
    }

    twostate lemma LinkedAfterPlace(i: nat)
      requires old(Valid()) && i < |old(blocks)| && mem.Length == ADDRESS_SPACE && old(next) <= MEMORY_TOP
      requires |old(blocks)| < |blocks| && Placed(blocks[|old(blocks)|].cap) && InAddressSpace(blocks)
      ensures Linked(i)
    {
      var before := old(blocks);
      assert old(Linked(i));
      BelowTop(before, i);
      var a := before[i].addr;
      if i < |before| - 1 {
        Apart(before, i, |before| - 1);
        HeaderKept(a);
      }
      EncodesAfterCarve(old(HeaderAt(a)), before, blocks[|before|], i);
    }

    /** Block k has had its header rewritten in place: everything else is as it was. */
    twostate predicate HeaderRewritten(k: nat)
      requires mem.Length == ADDRESS_SPACE && k < |old(blocks)|
      reads this, mem
    {
      var was := old(blocks)[k];
      && |blocks| == |old(blocks)| && blocks == old(blocks)[k := blocks[k]]
      && blocks[k].addr == was.addr <= MEMORY_TOP && blocks[k].cap == was.cap
      && Encodes(HeaderAt(was.addr), blocks, k)
      && forall a: uint32 :: !(was.addr <= a < was.addr + HEADER) ==> mem[a] == old(mem[a])
    }

    twostate lemma RewriteKeepsValid(k: nat)
      requires old(Valid()) && mem.Length == ADDRESS_SPACE && k < |old(blocks)| && HeaderRewritten(k)
      requires next == old(next) && first == old(first) && last == old(last) && numAllocs == old(numAllocs)
      ensures Valid()
    {
      var before := old(blocks);
      LaidUpdate(before, k, blocks[k]);
      BelowTop(before, k);
      forall i | 0 <= i < |blocks| ensures Linked(i) {
        if i != k { OthersKept(i); }
      }
    }

    twostate lemma OthersKept(i: nat)
      requires old(Valid()) && mem.Length == ADDRESS_SPACE && InAddressSpace(blocks)
      requires i < |old(blocks)| == |blocks|
      requires exists k :: 0 <= k < |old(blocks)| && k != i && HeaderRewritten(k)
      ensures Linked(i)
    {
      var k :| 0 <= k < |old(blocks)| && k != i && HeaderRewritten(k);
      if i < k { Apart(old(blocks), i, k); } else { Apart(old(blocks), k, i); }
      assert old(Linked(i));
      StillLinked(i);
    }

    /** A block whose header and neighbours are where they were is linked as it was. */
    twostate lemma StillLinked(i: nat)
      requires mem.Length == ADDRESS_SPACE && i < |blocks| == |old(blocks)| && InAddressSpace(blocks)
      requires old(InAddressSpace(blocks)) && old(Linked(i)) && blocks[i] == old(blocks)[i]
      requires forall n :: 0 <= n < |blocks| ==> blocks[n].addr == old(blocks)[n].addr
      requires forall x :: blocks[i].addr <= x < blocks[i].addr + HEADER ==> mem[x] == old(mem[x])
      ensures Linked(i)
    {
      HeaderKept(blocks[i].addr);
    }

    /** Unchanged bytes hold an unchanged header. */
    twostate lemma HeaderKept(a: uint32)
      requires mem.Length == ADDRESS_SPACE && a + HEADER <= ADDRESS_SPACE
      requires forall x :: a <= x < a + HEADER ==> mem[x] == old(mem[x])
      ensures HeaderAt(a) == old(HeaderAt(a))
    {
    }

    /** The writes of `malloc`: the new header, except its Next field, and the Next field of the
        block that was last. */
    method LinkHeader(alloc: uint32, previous: uint32, size: uint32)
      requires mem.Length == ADDRESS_SPACE && MEMORY_START <= alloc <= MEMORY_TOP
      requires alloc != MEMORY_START ==> MEMORY_START <= previous && previous + HEADER <= alloc
      modifies mem
      ensures HeaderAt(alloc) ==
        Header(MAGIC, if alloc == MEMORY_START then 0 else previous, old(Load(alloc + 8)), size, 1)
      ensures alloc != MEMORY_START ==> HeaderAt(previous) == old(HeaderAt(previous)).(next := alloc)
      ensures forall a: uint32 ::
        !(alloc <= a < alloc + HEADER) && (alloc == MEMORY_START || !(previous + 8 <= a < previous + 12)) ==>
        mem[a] == old(mem[a])
    {
      if alloc != MEMORY_START {
        Store(alloc + 4, previous);
        Store(Load(alloc + 4) + 8, alloc);
        assert HeaderAt(previous) == old(HeaderAt(previous)).(next := alloc);
      } else {
        Store(alloc + 4, 0);
      }
      label Linked:
      FillHeader(alloc, size);
      if alloc != MEMORY_START { HeaderKept@Linked(previous); }
    }

    method FillHeader(alloc: uint32, size: uint32)
      requires mem.Length == ADDRESS_SPACE && MEMORY_START <= alloc <= MEMORY_TOP
      modifies mem
      ensures HeaderAt(alloc) == Header(MAGIC, old(Load(alloc + 4)), old(Load(alloc + 8)), size, 1)
      ensures forall a: uint32 :: !(alloc <= a < alloc + HEADER) ==> mem[a] == old(mem[a])
    {
      Store(alloc, MAGIC);
      mem[alloc + 16] := 1;
      Store(alloc + 12, size);
    }

    /** The word `free` and `realloc` take for the magic word of a block whose payload is at data. */
    function MagicWord(data: uint32): uint32
      requires mem.Length == ADDRESS_SPACE
      reads mem
    {
      var a := Wrap(data - HEADER);
      var b0: int, b1: int, b2: int, b3: int := mem[a], mem[Wrap(a + 1)], mem[Wrap(a + 2)], mem[Wrap(a + 3)];
      b0 + 0x100 * b1 + 0x1_0000 * b2 + 0x100_0000 * b3
    }

    /** The magic test answers truthfully: it passes for the live blocks and for nothing else. */
    ghost predicate Told(data: uint32)
      requires mem.Length == ADDRESS_SPACE
      reads this, mem
    {
      MagicWord(data) == MAGIC <==> IsLive(blocks, data)
    }

    /** In a valid heap the test can only be deceived by a pointer `malloc` never returned, in
        front of which payload bytes imitate a live header. */
    lemma MagicTellsLive(data: uint32)
      requires Valid()
      ensures Told(data) <==> !(Find(blocks, data) == |blocks| && MagicWord(data) == MAGIC)
    {
      var i := Find(blocks, data);
      if i < |blocks| {
        LinkTellsMagic(i, data);
      }
    }

    /** The magic word goes up by one and the flags are cleared: two bytes change. */
    twostate predicate MarkedFree(alloc: uint32)
      requires mem.Length == ADDRESS_SPACE
      reads mem
    {
      forall a: uint32 :: mem[a] == if a == Wrap(alloc + 16) then 0 else if a == alloc then 1 else old(mem[a])
    }

    method MarkFree(alloc: uint32)
      requires mem.Length == ADDRESS_SPACE && MagicWord(Wrap(alloc + HEADER)) == MAGIC
      modifies mem
      ensures MarkedFree(alloc)
    {
      MagicBytes(alloc);
      var word := Wrap(MagicWord(Wrap(alloc + HEADER)) + 1);
      assert ByteOf(word, 0) == 1 && ByteOf(word, 1) == 0xC0 && ByteOf(word, 2) == 0x10 && ByteOf(word, 3) == 0xA1;
      mem[Wrap(alloc + 16)] := 0;
      mem[alloc], mem[Wrap(alloc + 1)] := ByteOf(word, 0), ByteOf(word, 1);
      mem[Wrap(alloc + 2)], mem[Wrap(alloc + 3)] := ByteOf(word, 2), ByteOf(word, 3);
    }

    lemma MagicBytes(alloc: uint32)
      requires mem.Length == ADDRESS_SPACE && MagicWord(Wrap(alloc + HEADER)) == MAGIC
      ensures mem[alloc] == 0 && mem[Wrap(alloc + 1)] == 0xC0
      ensures mem[Wrap(alloc + 2)] == 0x10 && mem[Wrap(alloc + 3)] == 0xA1
    {
      assert Wrap(Wrap(alloc + HEADER) - HEADER) == alloc;
    }

    twostate lemma MarkedHeader(alloc: uint32)
      requires mem.Length == ADDRESS_SPACE && alloc + HEADER <= ADDRESS_SPACE && old(Load(alloc)) == MAGIC
      requires MarkedFree(alloc)
      ensures HeaderAt(alloc) == old(HeaderAt(alloc)).(magic := MAGIC + 1, flags := 0)
    {
      assert old(mem[alloc]) == 0;
    }

    /** Releases what the magic word marks as a live block, whether or not it is one: for a pointer
        that is not `malloc`'s, in front of which the magic word has been imitated, two bytes are
        overwritten and no block is released. */
    method Free(data: uint32)
      requires mem.Length == ADDRESS_SPACE && InAddressSpace(blocks)
      modifies this, mem
      ensures Abs() == if old(MagicWord(data)) == MAGIC then Release(old(Abs()), data) else old(Abs())
      ensures first == old(first) && last == old(last) && numAllocs == old(numAllocs)
      ensures if old(MagicWord(data)) == MAGIC then MarkedFree(Wrap(data - HEADER)) else unchanged(mem)
      ensures old(Valid()) && (old(IsLive(blocks, data)) || old(MagicWord(data)) != MAGIC) ==> Valid()
      ensures old(IsLive(blocks, data)) ==> HeadersOnly()
      ensures old(Valid()) && old(MagicWord(data)) == MAGIC && HEADER <= data && OffHeaders(data - HEADER) ==> Valid()
    {
      var alloc := Wrap(data - HEADER);
      if MagicWord(data) == MAGIC {
        MagicBytes(alloc);
        ghost var k, live := Find(blocks, data), IsLive(blocks, data);
        if live { blocks := blocks[k := blocks[k].(live := false)]; }
        MarkFree(alloc);
        if live {
          assert blocks[k].addr == alloc;
          if old(Valid()) { FreedKeepsValid(k); }
        } else if old(Valid()) && HEADER <= data && OffHeaders(alloc) {
          OffHeadersKeepsValid();
        }
      }
    }

    /** The two bytes that `free` writes lie outside all headers. */
    ghost predicate OffHeaders(alloc: uint32)
      reads this
    {
      !InHeader(alloc) && !InHeader(Wrap(alloc + 16))
    }

    /** Writing outside the headers, and only zeros behind the blocks, keeps the heap valid. */
    twostate lemma OffHeadersKeepsValid()
      requires old(Valid()) && mem.Length == ADDRESS_SPACE && Abs() == old(Abs())
      requires first == old(first) && last == old(last) && numAllocs == old(numAllocs)
      requires forall a: uint32 :: mem[a] != old(mem[a]) ==> !InHeader(a) && (a < next || mem[a] == 0)
      ensures Valid()
    {
      forall i | 0 <= i < |blocks| ensures Linked(i) {
        assert old(Linked(i));
        StillLinked(i);
      }
    }

    twostate lemma FreedKeepsValid(k: nat)
      requires old(Valid()) && k < |old(blocks)| && old(blocks)[k].live && mem.Length == ADDRESS_SPACE
      requires blocks == old(blocks)[k := old(blocks)[k].(live := false)]
      requires next == old(next) && first == old(first) && last == old(last) && numAllocs == old(numAllocs)
      requires MarkedFree(old(blocks)[k].addr)
      ensures Valid()
    {
      assert old(Linked(k));
      MarkedHeader(blocks[k].addr);
      RewriteKeepsValid(k);
    }

    /** For a pointer in front of which a live header has been imitated, `realloc` believes the
        imitation. Either it overwrites its length; or it takes a new block and frees the imitation:
        if that lies outside all headers, two of its bytes change, and the heap, new block included,
        is otherwise in order. */
    twostate predicate Believed(data: uint32, size: uint32, returned: bool, value: uint32)
      requires mem.Length == ADDRESS_SPACE && HEADER <= data
      reads this, mem
    {
      var alloc: uint32 := data - HEADER;
      if old(Load(alloc + 12)) >= size || old(Load(alloc + 8)) == 0 then
        && returned && value == data && Abs() == old(Abs()) && Load(alloc + 12) == size
        && forall a: uint32 :: !(alloc + 12 <= a < alloc + 16) ==> mem[a] == old(mem[a])
      else
        && returned == Fits(map_, old(next), size)
        && (returned ==> value == old(next) + HEADER && Beside(data, size))
    }

    /** The magic word and the flags of an imitated header lie outside all headers. */
    ghost predicate ImitationApart(alloc: uint32)
      reads this
    {
      OffHeaders(alloc) && !InHeader(Wrap(alloc + 1)) && !InHeader(Wrap(alloc + 2)) && !InHeader(Wrap(alloc + 3))
    }

    /** Every byte that changed lies inside a block header, or is one of the two that `free` writes. */
    twostate predicate HeadersOnlyBut(alloc: uint32)
      requires mem.Length == ADDRESS_SPACE
      reads this, mem
    {
      forall a: uint32 :: mem[a] != old(mem[a]) ==> InHeader(a) || a == alloc || a == Wrap(alloc + 16)
    }

    /** For the pointer of a live block, the block list changes as it should, only headers are
        written, and the old contents are found behind the result exactly if the block did not have
        to move or held nothing but zeros. */
    twostate predicate Resized(data: uint32, size: uint32, returned: bool, value: uint32)
      requires mem.Length == ADDRESS_SPACE && old(IsLive(blocks, data))
      reads this, mem
    {
      && returned == Resize(old(Abs()), data, size).Some?
      && (returned ==> (Abs(), value) == Resize(old(Abs()), data, size).value)
      && HeadersOnly()
      && (returned && Sound(old(Abs()), Call.Realloc(data, size)) ==>
            && Valid()
            && (old(WithinCapacity(blocks)) ==>
                  (ContentsAt(data, value) <==> !old(Moves(blocks, data, size)) || old(ContentsZero(data)))))
    }

    /** What happens is decided by the magic word in front of the pointer: without it nothing; with
        it, the block is resized if there is one, and an imitation is believed. */
    method Realloc(data: uint32, size: uint32, fuel: nat) returns (r: Outcome<uint32>)
      requires Valid() && (MagicWord(data) == MAGIC ==> HEADER <= data)
      modifies this, mem
      ensures !r.Returned? || old(MagicWord(data)) != MAGIC ==> unchanged(this) && unchanged(mem)
      ensures old(MagicWord(data)) != MAGIC ==> !old(IsLive(blocks, data)) && r == Returned(0)
      ensures old(IsLive(blocks, data)) ==> Resized(data, size, r.Returned?, Value(r))
      ensures old(MagicWord(data)) == MAGIC && !old(IsLive(blocks, data)) ==>
        Believed(data, size, r.Returned?, Value(r))
    {
      MagicTellsLive(data);
      if MagicWord(data) != MAGIC { return Returned(0); }
      var alloc := Wrap(data - HEADER);
      ghost var live := IsLive(blocks, data);
      if live { LengthAndNext(data, size); }
      if Load(alloc + 12) >= size || Load(alloc + 8) == 0 {
        SetLength(data, size);
        return Returned(data);
      }
      r := Move(data, size, fuel);
    }

    /** The two fields `realloc` looks at tell whether a live block has to move. */
    lemma LengthAndNext(data: uint32, size: uint32)
      requires Valid() && IsLive(blocks, data)
      ensures HEADER <= data && MagicWord(data) == MAGIC
      ensures Moves(blocks, data, size) <==> !(Load(data - HEADER + 12) >= size || Load(data - HEADER + 8) == 0)
    {
      var k := Find(blocks, data);
      assert Linked(k);
      BelowTop(blocks, k);
      if k < |blocks| - 1 { BelowTop(blocks, k + 1); }
      MagicTellsLive(data);
    }

    /** The payload bytes the caller had behind data are now found behind to. */
    twostate predicate ContentsAt(data: uint32, to: uint32)
      requires mem.Length == ADDRESS_SPACE && old(IsLive(blocks, data))
      reads this, mem
    {
      var n := old(blocks)[old(Find(blocks, data))].len;
      && data + n <= ADDRESS_SPACE && to + n <= ADDRESS_SPACE
      && forall a :: data <= a < data + n ==> mem[to + (a - data)] == old(mem[a])
    }

    ghost predicate ContentsZero(data: uint32)
      requires mem.Length == ADDRESS_SPACE && IsLive(blocks, data)
      reads this, mem
    {
      var n := blocks[Find(blocks, data)].len;
      data + n <= ADDRESS_SPACE && forall a :: data <= a < data + n ==> mem[a] == 0
    }

    /** The last branch of `realloc`: a new block is taken and the old one freed. Nothing is
        copied in between. */
    method Move(data: uint32, size: uint32, fuel: nat) returns (r: Outcome<uint32>)
      requires Valid() && MagicWord(data) == MAGIC && HEADER <= data
      requires size != 0 && (IsLive(blocks, data) ==> Moves(blocks, data, size))
      modifies this, mem
      ensures r.Returned? <==> Fits(map_, old(next), size)
      ensures r.Returned? ==> r.value == old(next) + HEADER
      ensures !r.Returned? ==> unchanged(this) && unchanged(mem)
      ensures old(IsLive(blocks, data)) ==> Resized(data, size, r.Returned?, Value(r))
      ensures r.Returned? && !old(IsLive(blocks, data)) ==> Beside(data, size)
    {
      r := TakeAndFree(data, size, fuel);
      if old(IsLive(blocks, data)) {
        ResizeOfMoving(old(Abs()), data, size);
        if r.Returned? { ReplacedIsResized(data); }
      }
    }

    twostate lemma ReplacedIsResized(data: uint32)
      requires old(Valid()) && mem.Length == ADDRESS_SPACE && |blocks| == |old(blocks)| + 1
      requires var size := blocks[|old(blocks)|].cap;
        Moves(old(blocks), data, size) && Fits(map_, old(next), size) && Replaced(data, size)
      ensures Resized(data, blocks[|old(blocks)|].cap, true, old(next) + HEADER)
    {
      var size := blocks[|old(blocks)|].cap;
      ResizeOfMoving(old(Abs()), data, size);
      if SoundSize(old(next), size) {
        NothingCopied(size);
        ContentsMissing(data);
      }
    }

    method TakeAndFree(data: uint32, size: uint32, fuel: nat) returns (r: Outcome<uint32>)
      requires Valid() && MagicWord(data) == MAGIC && HEADER <= data && size != 0
      modifies this, mem
      ensures r.Returned? <==> Fits(map_, old(next), size)
      ensures r.Returned? ==> r.value == old(next) + HEADER
      ensures !r.Returned? ==> unchanged(this) && unchanged(mem)
      ensures r.Returned? && old(IsLive(blocks, data)) ==> Replaced(data, size)
      ensures r.Returned? && !old(IsLive(blocks, data)) ==> Beside(data, size)
    {
      GrantedIffFits(map_, next, size);
      ghost var live := IsLive(blocks, data);
      if live { FindAfterCarve(Abs(), size, data); } else { ImitationStaysUnknown(data, size); }
      r := Malloc(size, fuel);
      // a returned pointer is not null, as size is not 0
      if r.Returned? {
        assert IsLive(blocks, data) == live;
        if ImitationApart(data - HEADER) { MagicKept(data); }
        label Taken:
        Free(data);
        if !live { ImitationFreed@Taken(data); }
        forall a: uint32 | mem[a] != old(mem[a])
          ensures InHeader(a) || (!live && (a == data - HEADER || a == Wrap(data - 1)))
        {
          if old@Taken(mem[a]) != old(mem[a]) {
            assert Abs() == Release(old@Taken(Abs()), data);
            InHeaderAfterRelease@Taken(a);
          }
        }
      }
    }

    /** A block has been carved, and the live one at data released. */
    twostate predicate Replaced(data: uint32, size: uint32)
      requires mem.Length == ADDRESS_SPACE
      reads this, mem
    {
      && |blocks| == |old(blocks)| + 1 && blocks[|old(blocks)|].cap == size
      && Abs() == Release(Carve(old(Abs()), size), data)
      && HeadersOnly()
      && (SoundSize(old(next), size) ==> Valid())
    }

    /** A block has been carved, and the imitation in front of data marked free. */
    twostate predicate Beside(data: uint32, size: uint32)
      requires mem.Length == ADDRESS_SPACE && HEADER <= data
      reads this, mem
    {
      && Abs() == Carve(old(Abs()), size)
      && HeadersOnlyBut(data - HEADER)
      && (SoundSize(old(next), size) && ImitationApart(data - HEADER) ==>
            Valid() && mem[data - HEADER] == 1 && mem[Wrap(data - 1)] == 0)
    }

    twostate lemma ImitationFreed(data: uint32)
      requires mem.Length == ADDRESS_SPACE && HEADER <= data && blocks == old(blocks)
      requires if old(MagicWord(data)) == MAGIC then MarkedFree(Wrap(data - HEADER)) else unchanged(mem)
      ensures ImitationApart(data - HEADER) == old(ImitationApart(data - HEADER))
      ensures old(MagicWord(data)) == MAGIC ==> mem[data - HEADER] == 1 && mem[Wrap(data - 1)] == 0
    {
    }

    twostate lemma MagicKept(data: uint32)
      requires mem.Length == ADDRESS_SPACE && HEADER <= data && old(MagicWord(data)) == MAGIC
      requires HeadersOnly() && ImitationApart(data - HEADER)
      ensures MagicWord(data) == MAGIC
    {
    }

    /** A pointer with an imitated header does not become a block's by the next carving. */
    lemma ImitationStaysUnknown(data: uint32, size: uint32)
      requires Valid() && MagicWord(data) == MAGIC && !IsLive(blocks, data) && HEADER <= data
      ensures !IsLive(Carve(Abs(), size).blocks, data)
    {
      MagicTellsLive(data);
      MagicBytes(data - HEADER);
      assert data != next + HEADER;
    }

    /** The payload of the block carved last holds zeros only. */
    twostate predicate NewPayloadIsZero(size: uint32)
      requires mem.Length == ADDRESS_SPACE
      reads this, mem
    {
      forall a: uint32 :: old(next) + HEADER <= a < old(next) + HEADER + size ==> mem[a] == 0
    }

    twostate lemma NothingCopied(size: uint32)
      requires old(Valid()) && Valid() && HeadersOnly()
      requires |blocks| == |old(blocks)| + 1
      requires blocks[|old(blocks)|].addr == old(next) && blocks[|old(blocks)|].cap == size
      ensures NewPayloadIsZero(size)
    {
      PayloadsKept(|old(blocks)|);
    }

    twostate lemma ContentsMissing(data: uint32)
      requires old(Valid()) && Valid() && old(IsLive(blocks, data)) && |blocks| == |old(blocks)| + 1
      requires blocks[|old(blocks)|].addr == old(next)
      requires old(blocks)[old(Find(blocks, data))].len < blocks[|old(blocks)|].cap
      requires NewPayloadIsZero(blocks[|old(blocks)|].cap)
      ensures old(WithinCapacity(blocks)) ==> (ContentsAt(data, old(next) + HEADER) <==> old(ContentsZero(data)))
    {
      BelowTop(old(blocks), old(Find(blocks, data)));
      BelowTop(blocks, |old(blocks)|);
    }

    twostate lemma InHeaderAfterRelease(a: uint32)
      requires old(InHeader(a)) && exists data: uint32 :: Abs() == Release(old(Abs()), data)
      ensures InHeader(a)
    {
      var k :| 0 <= k < |old(blocks)| && old(blocks)[k].addr <= a < old(blocks)[k].addr + HEADER;
      assert blocks[k].addr == old(blocks)[k].addr;
    }

    method SetLength(data: uint32, size: uint32)
      requires Valid() && HEADER <= data && !Moves(blocks, data, size)
      modifies this, mem
      ensures Load(data - HEADER + 12) == size
      ensures forall a: uint32 :: !(data - HEADER + 12 <= a < data - HEADER + 16) ==> mem[a] == old(mem[a])
      ensures if old(IsLive(blocks, data)) then Resized(data, size, true, data) else Abs() == old(Abs())
    {
      ghost var k, live := Find(blocks, data), IsLive(blocks, data);
      if live { blocks := blocks[k := blocks[k].(len := size)]; }
      StoreLength(data - HEADER, size);
      if live {
        LengthKeepsValid(k);
        ContentsStay(data);
      }
    }

    twostate lemma LengthKeepsValid(k: nat)
      requires old(Valid()) && mem.Length == ADDRESS_SPACE && k < |old(blocks)| == |blocks|
      requires blocks == old(blocks)[k := old(blocks)[k].(len := blocks[k].len)]
      requires next == old(next) && first == old(first) && last == old(last) && numAllocs == old(numAllocs)
      requires HeaderAt(old(blocks)[k].addr) == old(HeaderAt(blocks[k].addr)).(length := blocks[k].len)
      requires forall a: uint32 :: !(blocks[k].addr + 12 <= a < blocks[k].addr + 16) ==> mem[a] == old(mem[a])
      ensures Valid() && HeadersOnly()
    {
      assert old(Linked(k));
      RewriteKeepsValid(k);
      forall a: uint32 | mem[a] != old(mem[a]) ensures InHeader(a) {
        assert blocks[k].addr <= a < blocks[k].addr + HEADER;
      }
    }

    method StoreLength(alloc: uint32, size: uint32)
      requires mem.Length == ADDRESS_SPACE && alloc + HEADER <= ADDRESS_SPACE
      modifies mem
      ensures HeaderAt(alloc) == old(HeaderAt(alloc)).(length := size)
      ensures forall a: uint32 :: !(alloc + 12 <= a < alloc + 16) ==> mem[a] == old(mem[a])
    {
      Store(alloc + 12, size);
    }

    twostate lemma ContentsStay(data: uint32)
      requires old(Valid()) && Valid() && HeadersOnly() && old(IsLive(blocks, data))
      requires var k := old(Find(blocks, data));
        k < |blocks| && blocks[k].addr == old(blocks)[k].addr && blocks[k].cap == old(blocks)[k].cap
      ensures old(WithinCapacity(blocks)) ==> ContentsAt(data, data)
    {
      var k := old(Find(blocks, data));
      PayloadsKept(k);
      BelowTop(blocks, k);
    }

    /** A store of the kernel through a pointer it was given, within the length it was told. The
        heap stays valid if the store is also within the capacity of the block. */
    method StorePayload(data: uint32, offset: uint32, v: byte)
      requires Valid() && IsLive(blocks, data)
      requires offset < blocks[Find(blocks, data)].len
      modifies mem
      ensures forall a: uint32 :: mem[a] == if a == Wrap(data + offset) then v else old(mem[a])
      ensures offset < blocks[Find(blocks, data)].cap ==> Valid()
    {
      ghost var k := Find(blocks, data);
      BelowTop(blocks, k);
      mem[Wrap(data + offset)] := v;
      if offset < blocks[k].cap {
        forall i | 0 <= i < |blocks| ensures Linked(i) {
          assert old(Linked(i));
          if i < k { Apart(blocks, i, k); } else if k < i { Apart(blocks, k, i); }
          HeaderKept(blocks[i].addr);
        }
      }
    }

    // ----- Whole runs

    /** A call that does what the block machine does, and writes headers only, keeps all contents. */
    twostate lemma StepKeepsContents(c: Call)
      requires Valid() && HeadersOnly() && Step(old(Abs()), c).Some? && Abs() == Step(old(Abs()), c).value.0
      ensures Kept(old(blocks), old(mem[..]), blocks, mem[..])
    {
      StepIsLater(old(Abs()), c);
      forall i | 0 <= i < |old(blocks)| ensures BlockKept(old(blocks)[i], old(mem[..]), mem[..]) {
        PayloadsKept(i);
      }
    }

    /** The magic test is right about the pointer of the call. */
    ghost predicate ToldCall(c: Call)
      requires mem.Length == ADDRESS_SPACE
      reads this, mem
    {
      match c
      case Malloc(_) => true
      case Free(data) => Told(data)
      case Realloc(data, _) => Told(data)
    }

    lemma GivenIsTold(c: Call)
      requires Valid() && Given(blocks, c)
      ensures ToldCall(c)
    {
      match c
      case Malloc(_) =>
      case Free(data) => MagicTellsLive(data);
      case Realloc(data, _) => MagicTellsLive(data);
    }

    method PerformMalloc(size: uint32, fuel: nat) returns (r: Outcome<uint32>)
      requires Valid() && SoundSize(next, size)
      modifies this, mem
      ensures r.Returned? <==> Step(old(Abs()), Call.Malloc(size)).Some?
      ensures r.Returned? ==> (Abs(), r.value) == Step(old(Abs()), Call.Malloc(size)).value
      ensures !r.Returned? ==> unchanged(this) && unchanged(mem)
      ensures Valid() && HeadersOnly()
    {
      GrantedIffFits(map_, next, size);
      r := Malloc(size, fuel);
    }

    method PerformRealloc(data: uint32, size: uint32, fuel: nat) returns (r: Outcome<uint32>)
      requires Valid() && Sound(Abs(), Call.Realloc(data, size)) && Told(data)
      modifies this, mem
      ensures r.Returned? <==> Resize(old(Abs()), data, size).Some?
      ensures r.Returned? ==> (Abs(), r.value) == Resize(old(Abs()), data, size).value
      ensures !r.Returned? ==> unchanged(this) && unchanged(mem)
      ensures Valid() && HeadersOnly()
    {
      if IsLive(blocks, data) { LengthAndNext(data, size); }
      r := Realloc(data, size, fuel);
    }

    /** Any call of the allocator with a sound size and a pointer that is a block's or fails the
        magic test. */
    method Perform(c: Call, fuel: nat) returns (r: Outcome<uint32>)
      requires Valid() && Sound(Abs(), c) && ToldCall(c)
      modifies this, mem
      ensures r.Returned? <==> Step(old(Abs()), c).Some?
      ensures r.Returned? ==> (Abs(), r.value) == Step(old(Abs()), c).value
      ensures !r.Returned? ==> unchanged(this) && unchanged(mem)
      ensures Valid() && HeadersOnly() && Kept(old(blocks), old(mem[..]), blocks, mem[..])
    {
      match c {
        case Malloc(size) =>
          r := PerformMalloc(size, fuel);
        case Free(data) =>
          Free(data);
          r := Returned(0);
        case Realloc(data, size) =>
          r := PerformRealloc(data, size, fuel);
      }
      if r.Returned? { StepKeepsContents(c); }
    }

    /** A whole run in the byte heap does what the same run does to the list of blocks, stops
        where that stops, and changes no payload byte of any block that existed before. */
    method PerformAll(calls: seq<Call>, fuel: nat) returns (done: bool)
      requires Valid() && AllSound(Abs(), calls) && AllGiven(Abs(), calls)
      modifies this, mem
      ensures done <==> Run(old(Abs()), calls).Some?
      ensures done ==> Abs() == Run(old(Abs()), calls).value
      ensures Valid() && Kept(old(blocks), old(mem[..]), blocks, mem[..])
      decreases calls
    {
      if calls == [] { return true; }
      GivenIsTold(calls[0]);
      var r := Perform(calls[0], fuel);
      if !r.Returned? { return false; }
      ghost var between, bytes := blocks, mem[..];
      done := PerformAll(calls[1..], fuel);
      KeptIsTransitive(old(blocks), old(mem[..]), between, bytes, blocks, mem[..]);
    }

    /** One thing the kernel does: a call, or a store into a payload. */
    method PerformAct(act: Act, fuel: nat) returns (done: bool)
      requires Valid() && Proper(Abs(), act)
      modifies this, mem
      ensures done <==> ActStep(old(Abs()), act).Some?
      ensures done ==> Abs() == ActStep(old(Abs()), act).value
      ensures Valid() && InPlace(old(blocks), blocks)
      ensures LastStored(blocks, [act], old(mem[..]), mem[..])
    {
      match act
      case Do(c) =>
        GivenIsTold(c);
        var r := Perform(c, fuel);
        done := r.Returned?;
        forall a: uint32 | mem[a] != old(mem[a]) ensures HeaderByte(blocks, a) {
          assert InHeader(a);
        }
      case Put(data, offset, v) =>
        BelowTop(blocks, Find(blocks, data));
        StorePayload(data, offset, v);
        done := true;
    }

    /** A whole run of calls and stores: the block list is as the calls alone make it, and every byte
        of memory outside the headers holds what was last stored there, or what it held before. */
    method PerformActs(acts: seq<Act>, fuel: nat) returns (done: bool)
      requires Valid() && AllProper(Abs(), acts)
      modifies this, mem
      ensures done <==> ActRun(old(Abs()), acts).Some?
      ensures done ==> Abs() == ActRun(old(Abs()), acts).value
      ensures Valid() && InPlace(old(blocks), blocks)
      ensures done ==> LastStored(blocks, acts, old(mem[..]), mem[..])
      decreases acts
    {
      if acts == [] { return true; }
      done := PerformAct(acts[0], fuel);
      if !done { return; }
      ghost var between, bytes := blocks, mem[..];
      done := PerformActs(acts[1..], fuel);
      if done { LastStoredStep(acts, old(mem[..]), bytes, mem[..], between, blocks); }
    }

    /** So each payload holds what was last stored in it. */
    lemma PayloadHoldsLastStored(acts: seq<Act>, was: seq<byte>, i: nat)
      requires Valid() && |was| == ADDRESS_SPACE && LastStored(blocks, acts, was, mem[..]) && i < |blocks|
      ensures forall a: uint32 :: blocks[i].Data() <= a < blocks[i].End() ==> mem[a] == LastPut(acts, a, was[a])
    {
      forall a: uint32 | blocks[i].Data() <= a < blocks[i].End() ensures mem[a] == LastPut(acts, a, was[a]) {
        if HeaderByte(blocks, a) {
          var k :| 0 <= k < |blocks| && blocks[k].addr <= a < blocks[k].addr + HEADER;
          if i < k { Apart(blocks, i, k); } else if k < i { Apart(blocks, k, i); }
        }
        assert mem[..][a] == mem[a];
      }
    }

    /** Setting up memory management again forgets where the blocks end but not the list of
        them: only a heap without blocks survives it. */
    method Setup(m: seq<MapEntry>)
      requires Valid()
      modifies this
      ensures map_ == m && next == MEMORY_START && blocks == old(blocks)
      ensures first == old(first) && last == old(last) && numAllocs == old(numAllocs)
      ensures Valid() <==> old(blocks) == []
    {
      LastBelowNext();
      map_, next := m, MEMORY_START;
      if blocks != [] { assert Top(blocks) != next; }
    }

    // ----- The headers in the bytes

    /** The seventeen bytes in front of every payload: the magic word 0xA110C000, or one more once the
        block is freed; the addresses of the neighbouring blocks; the length; and the flag byte. */
    lemma HeaderInBytes(i: nat)
      requires Valid() && i < |blocks|
      ensures var a, b := blocks[i].addr, blocks[i];
        && a + 17 <= ADDRESS_SPACE && b.Data() == a + 17 && b.End() == a + b.cap + 18
        && WordAt(mem[..], a) == (if b.live then 0xA110_C000 else 0xA110_C001)
        && WordAt(mem[..], a + 4) == (if i == 0 then 0 else blocks[i - 1].addr)
        && WordAt(mem[..], a + 8) == (if i == |blocks| - 1 then 0 else blocks[i + 1].addr)
        && WordAt(mem[..], a + 12) == b.len
        && mem[a + 16] == (if b.live then 1 else 0)
    {
      assert Linked(i);
      var a := blocks[i].addr;
      LoadIsWord(a);
      LoadIsWord(a + 4);
      LoadIsWord(a + 8);
      LoadIsWord(a + 12);
    }

    lemma LoadIsWord(a: uint32)
      requires mem.Length == ADDRESS_SPACE && a + 4 <= ADDRESS_SPACE
      ensures Load(a) == WordAt(mem[..], a)
    {
    }

    // ----- The list in the bytes

    /** The headers met from address a on, following the Next fields (at most n of them). */
    function WalkNext(a: uint32, n: nat): seq<uint32>
      requires mem.Length == ADDRESS_SPACE
      reads mem
      decreases n
    {
      if a == 0 || n == 0 || a + HEADER > ADDRESS_SPACE then []
      else [a] + WalkNext(HeaderAt(a).next, n - 1)
    }

    function WalkPrevious(a: uint32, n: nat): seq<uint32>
      requires mem.Length == ADDRESS_SPACE
      reads mem
      decreases n
    {
      if a == 0 || n == 0 || a + HEADER > ADDRESS_SPACE then []
      else [a] + WalkPrevious(HeaderAt(a).previous, n - 1)
    }

    /** Following Next from First visits exactly the NumAllocs blocks, in strictly increasing
        address order, and ends at Last; a walk with more steps to spare finds no more. */
    lemma ForwardWalk(n: nat)
      requires Valid() && numAllocs <= n
      ensures var w := WalkNext(first, n);
        && |w| == numAllocs
        && (forall i :: 0 <= i < |w| ==> w[i] == blocks[i].addr)
        && (w != [] ==> w[|w| - 1] == last)
        && (forall i, j :: 0 <= i < j < |w| ==> w[i] < w[j])
    {
      if blocks != [] {
        ForwardFrom(0, n);
        AddressesIncrease(WalkNext(first, n));
      }
    }

    lemma AddressesIncrease(w: seq<uint32>)
      requires Valid() && |w| == |blocks| && forall i :: 0 <= i < |w| ==> w[i] == blocks[i].addr
      ensures forall i, j :: 0 <= i < j < |w| ==> w[i] < w[j]
    {
      forall i, j | 0 <= i < j < |w| ensures w[i] < w[j] {
        Apart(blocks, i, j);
      }
    }

    lemma {:induction false} ForwardFrom(i: nat, n: nat)
      requires Valid() && i < |blocks| && |blocks| - i <= n
      ensures var w := WalkNext(blocks[i].addr, n);
        |w| == |blocks| - i && forall k :: 0 <= k < |w| ==> w[k] == blocks[i + k].addr
      decreases n
    {
      assert Linked(i);
      if i + 1 < |blocks| {
        ForwardFrom(i + 1, n - 1);
      }
    }

    /** Following Previous from Last visits the exact reverse. */
    lemma BackwardWalk(n: nat)
      requires Valid() && numAllocs <= n
      ensures var w := WalkPrevious(last, n);
        && |w| == |WalkNext(first, n)| == numAllocs
        && forall i :: 0 <= i < |w| ==> w[i] == WalkNext(first, n)[|w| - 1 - i]
    {
      ForwardWalk(n);
      if blocks != [] {
        BackwardFrom(|blocks| - 1, n);
      }
    }

    lemma PreviousOf(i: nat)
      requires Valid() && i < |blocks|
      ensures HeaderAt(blocks[i].addr).previous == if i == 0 then 0 else blocks[i - 1].addr
    {
      assert Linked(i);
    }

    lemma {:induction false} BackwardFrom(i: nat, n: nat)
      requires Valid() && i < |blocks| && i < n
      ensures var w := WalkPrevious(blocks[i].addr, n);
        |w| == i + 1 && forall k :: 0 <= k < |w| ==> w[k] == blocks[i - k].addr
      decreases n
    {
      PreviousOf(i);
      if i > 0 {
        BackwardFrom(i - 1, n - 1);
        assert blocks[i - 1].addr != 0;
      }
    }
  }
}
