/** The kernel heap (Kernel/Memory.c) as a machine over a list of blocks: which requests the
    allocator grants, where they go, and what holds after any run of calls. */
module HeapSpec {
  import opened Options
  import opened Words

  const MEMORY_START: uint32 := 0x0010_5000
  const MEMORY_TOP: uint32 := 0xFFFF_0000
  /** The bytes of a packed allocation header: four words and one flag byte. */
  const HEADER := 17
  /** Each block is followed by one byte of padding. */
  const OVERHEAD := 18
  const MAGIC: uint32 := 0xA110_C000

  // ----- The memory map and the placement check

  /** Start and Length are 64 bits wide in the map; the check keeps their low 32 bits. */
  datatype MapEntry = MapEntry(start: nat, length: nat)

  function EntryStart(e: MapEntry): uint32 { Low32(e.start) }

  function EntryEnd(e: MapEntry): uint32 { Low32(EntryStart(e) + e.length) }

  predicate InEntry(e: MapEntry, a: uint32) {
    EntryStart(e) <= a <= EntryEnd(e)
  }

  /** The scan meets an entry that makes it move the allocation position. */
  predicate Hits(e: MapEntry, p: uint32, size: uint32) {
    EntryEnd(e) >= p && (InEntry(e, p) || InEntry(e, Wrap(p + size)))
  }

  predicate InBounds(p: uint32, size: uint32) {
    && MEMORY_START <= p <= MEMORY_TOP
    && MEMORY_START <= Wrap(p + size) <= MEMORY_TOP
  }

  /** The index of the first entry the scan stops at, or the length of the map. */
  function FirstHit(map_: seq<MapEntry>, p: uint32, size: uint32): (i: nat)
    ensures i <= |map_|
    ensures i < |map_| ==> Hits(map_[i], p, size)
    ensures forall k :: 0 <= k < i ==> !Hits(map_[k], p, size)
  {
    if map_ == [] then 0
    else if Hits(map_[0], p, size) then 0
    else 1 + FirstHit(map_[1..], p, size)
  }

  /** A nonzero request of this size at p is granted. */
  predicate Fits(map_: seq<MapEntry>, p: uint32, size: uint32) {
    InBounds(p, size) && FirstHit(map_, p, size) == |map_|
  }

  /** The request the scan makes in order to step over entry e. */
  function StepOver(e: MapEntry, p: uint32): uint32 { Wrap(EntryStart(e) - p) }

  /** What becomes of a nonzero request: it is granted, it stops the machine with the
      out-of-memory message, or `malloc` and the placement check call each other forever. */
  datatype Fate = Granted | OutOfMemory | Spins

  function FateOf(map_: seq<MapEntry>, p: uint32, size: uint32): Fate
    decreases FirstHit(map_, p, size)
  {
    var i := FirstHit(map_, p, size);
    if !InBounds(p, size) then OutOfMemory
    else if i == |map_| then Granted
    else
      var n := StepOver(map_[i], p);
      if n == 0 then Spins                                // granted nothing: the scan restarts
      else if !InBounds(p, n) then OutOfMemory
      else if FirstHit(map_, p, n) < i then FateOf(map_, p, n)
      else Spins                                          // the same request is made again
  }

  /** Stepping over an entry hits that entry again, so the scan never gets past it. */
  lemma StepOverHitsAgain(map_: seq<MapEntry>, p: uint32, size: uint32)
    requires FirstHit(map_, p, size) < |map_|
    ensures var i := FirstHit(map_, p, size);
      FirstHit(map_, p, StepOver(map_[i], p)) <= i
  {
    var i := FirstHit(map_, p, size);
    var n := StepOver(map_[i], p);
    WrapIsModular(0, p, EntryStart(map_[i]));
    assert Hits(map_[i], p, n);
  }

  /** A request is granted iff it is in bounds and meets no entry. */
  lemma {:induction false} GrantedIffFits(map_: seq<MapEntry>, p: uint32, size: uint32)
    ensures FateOf(map_, p, size) == Granted <==> Fits(map_, p, size)
    decreases FirstHit(map_, p, size)
  {
    var i := FirstHit(map_, p, size);
    if InBounds(p, size) && i < |map_| {
      StepOverHitsAgain(map_, p, size);
      var n := StepOver(map_[i], p);
      if n != 0 && InBounds(p, n) && FirstHit(map_, p, n) < i {
        GrantedIffFits(map_, p, n);
      }
    }
  }

  /** What Memory.c tests, said in its own numbers: the position and the 32-bit sum lie between
      MEMORY_START and 0xFFFF0000, and no entry, cut to 32 bits, holds either of them, except that an
      entry that ends below the position is passed over. */
  predicate Allowed(map_: seq<MapEntry>, p: uint32, size: uint32) {
    && 0x10_5000 <= p <= 0xFFFF_0000
    && 0x10_5000 <= (p + size) % 0x1_0000_0000 <= 0xFFFF_0000
    && forall e :: e in map_ ==> Passes(e, p, (p + size) % 0x1_0000_0000)
  }

  predicate Passes(e: MapEntry, p: int, q: int) {
    var start := e.start % 0x1_0000_0000;
    var end := (start + e.length) % 0x1_0000_0000;
    end < p || (p < start && (q < start || end < q))
  }

  lemma PassesExactly(e: MapEntry, p: uint32, size: uint32)
    ensures Passes(e, p, (p + size) % 0x1_0000_0000) <==> !Hits(e, p, size)
  {
    WrapIsModular(p + size, 0, 0);
  }

  lemma {:induction false} FirstHitIsFirst(map_: seq<MapEntry>, p: uint32, size: uint32)
    ensures FirstHit(map_, p, size) == |map_| <==> forall e :: e in map_ ==> !Hits(e, p, size)
  {
    var i := FirstHit(map_, p, size);
    if i == |map_| {
      forall e | e in map_ ensures !Hits(e, p, size) {
        var k :| 0 <= k < |map_| && map_[k] == e;
      }
    }
  }

  /** The mutual recursion grants a request exactly when that test lets it pass. */
  lemma GrantedExactly(map_: seq<MapEntry>, p: uint32, size: uint32)
    ensures FateOf(map_, p, size) == Granted <==> Allowed(map_, p, size)
    ensures Fits(map_, p, size) <==> Allowed(map_, p, size)
  {
    GrantedIffFits(map_, p, size);
    FirstHitIsFirst(map_, p, size);
    WrapIsModular(p + size, 0, 0);
    forall e | e in map_ ensures Passes(e, p, (p + size) % 0x1_0000_0000) <==> !Hits(e, p, size) {
      PassesExactly(e, p, size);
    }
  }

  /** With one entry in the map, a request in bounds that the entry obstructs stops the machine if the
      entry starts out of bounds, and recurses forever otherwise. */
  lemma ObstructedBy(e: MapEntry, p: uint32, size: uint32)
    requires InBounds(p, size) && !Allowed([e], p, size)
    ensures FateOf([e], p, size) == if 0x10_5000 <= e.start % 0x1_0000_0000 <= 0xFFFF_0000 then Spins else OutOfMemory
  {
    GrantedExactly([e], p, size);
    StepOverHitsAgain([e], p, size);
    WrapIsModular(0, p, EntryStart(e));
  }

  /** The request made to step over an entry meets the same fate as the request that caused it,
      and is never granted: the two functions can only stop the machine or call each other
      forever. A chain that stops the machine goes on to strictly earlier entries. */
  lemma NestedRequestSharesFate(map_: seq<MapEntry>, p: uint32, size: uint32)
    requires InBounds(p, size) && FirstHit(map_, p, size) < |map_|
    ensures var i := FirstHit(map_, p, size);
      var n := StepOver(map_[i], p);
      && FateOf(map_, p, size) != Granted
      && (n == 0 ==> FateOf(map_, p, size) == Spins)
      && (n != 0 ==> FateOf(map_, p, n) == FateOf(map_, p, size))
      && (n != 0 && InBounds(p, n) && FateOf(map_, p, n) == OutOfMemory ==> FirstHit(map_, p, n) < i)
  {
    StepOverHitsAgain(map_, p, size);
    GrantedIffFits(map_, p, size);
    var i := FirstHit(map_, p, size);
    var n := StepOver(map_[i], p);
    if n != 0 && InBounds(p, n) && FirstHit(map_, p, n) == i {
      assert FateOf(map_, p, size) == Spins && FateOf(map_, p, n) == Spins;
    }
  }

  /** Requests that meet the two other fates. Usable memory from one megabyte to 128 megabytes holds
      MEMORY_START: the request that is to step over it is out of bounds. An entry that the sum runs
      into is met again by the request for the bytes in front of it. */
  lemma RefusedRequests()
    ensures FateOf([MapEntry(0x10_0000, 0x7EE_0000)], MEMORY_START, 8) == OutOfMemory
    ensures FateOf([MapEntry(0x10_6000, 0x1000)], MEMORY_START, 0x1800) == Spins
  {
    var low, high := MapEntry(0x10_0000, 0x7EE_0000), MapEntry(0x10_6000, 0x1000);
    assert FirstHit([low], MEMORY_START, 8) == 0 && StepOver(low, MEMORY_START) == 0xFFFF_B000;
    assert FirstHit([high], MEMORY_START, 0x1800) == 0 && StepOver(high, MEMORY_START) == 0x1000;
    assert FirstHit([high], MEMORY_START, 0x1000) == 0;
  }

  /** The two addresses that are meant to lie in no entry when a request is granted. */
  predicate KeepsOff(map_: seq<MapEntry>, p: uint32, size: uint32) {
    forall e :: e in map_ ==> !InEntry(e, p) && !InEntry(e, Wrap(p + size))
  }

  /** They do, whatever the map, exactly for the sizes whose sum with the position does not wrap.
      For the others an entry below the position is skipped although the sum lies in it. */
  lemma GrantedKeepsOffExactly(p: uint32, size: uint32)
    requires InBounds(p, size)
    ensures (forall m :: FateOf(m, p, size) == Granted ==> KeepsOff(m, p, size)) <==> SoundSize(p, size)
  {
    if SoundSize(p, size) {
      forall m | FateOf(m, p, size) == Granted ensures KeepsOff(m, p, size) {
        GrantedIffFits(m, p, size);
        forall e | e in m ensures !InEntry(e, p) && !InEntry(e, Wrap(p + size)) {
          assert !Hits(e, p, size);
        }
      }
    } else {
      var e := MapEntry(Wrap(p + size), 0);
      GrantedIffFits([e], p, size);
      assert e in [e] && InEntry(e, Wrap(p + size));
    }
  }

  /** For a given map: the position itself is always kept off; the sum is missed exactly when it
      has wrapped into an entry that ends below the position. */
  lemma GrantedMissesExactly(map_: seq<MapEntry>, p: uint32, size: uint32, e: MapEntry)
    requires FateOf(map_, p, size) == Granted && e in map_
    ensures !InEntry(e, p)
    ensures InEntry(e, Wrap(p + size)) <==> EntryStart(e) <= Wrap(p + size) <= EntryEnd(e) < p
  {
    GrantedIffFits(map_, p, size);
    assert !Hits(e, p, size);
  }

  /** A concrete request that is granted although its sum lies in an entry. */
  lemma GrantedOntoEntry()
    ensures var e, p, size := MapEntry(0x10_6000, 0x1000), 0x20_0000, 0xFFF0_6800;
      FateOf([e], p, size) == Granted && InEntry(e, Wrap(p + size))
  {
    GrantedIffFits([MapEntry(0x10_6000, 0x1000)], 0x20_0000, 0xFFF0_6800);
  }

  /** The addresses an entry really covers, with its end neither cut to 32 bits nor included. */
  predicate Reserved(e: MapEntry, a: int) {
    EntryStart(e) <= a < EntryStart(e) + e.length
  }

  /** The block a request takes, header and padding included, covers an address of the entry. */
  predicate Overlaps(e: MapEntry, p: uint32, size: uint32) {
    exists a :: p <= a < p + size + OVERHEAD && Reserved(e, a)
  }

  /** A granted request can still cover reserved memory, because the scan tests two addresses and
      adds the size of the payload only. It does so exactly when a nonempty entry starts inside
      the block without holding the second of the two addresses, or starts below the end of the
      block and wraps past 2^32. */
  lemma GrantedOverlapsExactly(map_: seq<MapEntry>, p: uint32, size: uint32, e: MapEntry)
    requires Fits(map_, p, size) && e in map_
    requires SoundSize(p, size)
    ensures Overlaps(e, p, size) <==>
      if EntryStart(e) + e.length < ADDRESS_SPACE
      then
        && 0 < e.length && p < EntryStart(e) < p + size + OVERHEAD
        && !(EntryStart(e) <= p + size <= EntryStart(e) + e.length)
      else EntryStart(e) < p + size + OVERHEAD
  {
    assert !Hits(e, p, size);
    var lo := if p < EntryStart(e) then EntryStart(e) else p;
    if lo < p + size + OVERHEAD && lo < EntryStart(e) + e.length {
      assert Reserved(e, lo);
    }
  }

  /** Concrete requests that are granted over a reserved region: one in the middle of the block,
      and one under its last bytes, behind both of the addresses tested. */
  lemma GrantedOverReservedMemory()
    ensures var e := MapEntry(MEMORY_START + 100, 10);
      FateOf([e], MEMORY_START, 1000) == Granted && Overlaps(e, MEMORY_START, 1000)
    ensures var e := MapEntry(MEMORY_START + 1005, 4);
      && FateOf([e], MEMORY_START, 1000) == Granted && Overlaps(e, MEMORY_START, 1000)
      && e.start > MEMORY_START + 1000 && Reserved(e, MEMORY_START + HEADER + 988)
  {
    var e, e' := MapEntry(MEMORY_START + 100, 10), MapEntry(MEMORY_START + 1005, 4);
    GrantedIffFits([e], MEMORY_START, 1000);
    GrantedIffFits([e'], MEMORY_START, 1000);
    assert Reserved(e, MEMORY_START + 100) && Reserved(e', MEMORY_START + 1005);
  }

  /** The scan ignores the type of an entry: once an entry covers the allocation position, as
      the usable memory above one megabyte covers MEMORY_START, no nonzero request returns. */
  lemma CoveredPositionGrantsNothing(map_: seq<MapEntry>, p: uint32, size: uint32, e: MapEntry)
    requires e in map_ && InEntry(e, p)
    ensures FateOf(map_, p, size) != Granted
  {
    GrantedIffFits(map_, p, size);
    assert Hits(e, p, size);
  }

  // ----- Blocks

  /** An allocated block: header address, the size it was carved with, the Length its header
      holds now, and whether it has not been freed yet. */
  datatype Block = Block(addr: uint32, cap: uint32, len: uint32, live: bool) {
    function Data(): int { addr + HEADER }
    function End(): int { addr + cap + OVERHEAD }
  }

  datatype Heap = Heap(map_: seq<MapEntry>, next: uint32, blocks: seq<Block>)

  /** Where the next block goes after these blocks were carved one behind the other. */
  function Top(blocks: seq<Block>): int {
    if blocks == [] then MEMORY_START
    else Top(blocks[..|blocks| - 1]) + blocks[|blocks| - 1].cap + OVERHEAD
  }

  /** Every block was carved at the allocation position the blocks before it had left. */
  predicate Laid(blocks: seq<Block>) {
    blocks == [] ||
    var front, b := blocks[..|blocks| - 1], blocks[|blocks| - 1];
    Laid(front) && b.addr == Top(front) && 1 <= b.cap
  }

  ghost predicate Inv(h: Heap) {
    Laid(h.blocks) && h.next == Top(h.blocks) <= MEMORY_TOP + OVERHEAD
  }

  /** No header records more bytes than its block was carved with. */
  predicate WithinCapacity(blocks: seq<Block>) {
    forall i :: 0 <= i < |blocks| ==> blocks[i].len <= blocks[i].cap
  }

  /** Blocks are carved in strictly increasing address order, header, payload and padding of
      one wholly below the header of the next, and all below the allocation position. */
  lemma {:induction false} BlocksAreDisjoint(blocks: seq<Block>)
    requires Laid(blocks)
    ensures forall i, j :: 0 <= i < j < |blocks| ==> blocks[i].End() <= blocks[j].addr
    ensures forall i :: 0 <= i < |blocks| ==> MEMORY_START <= blocks[i].addr && blocks[i].End() <= Top(blocks)
    ensures MEMORY_START + 19 * |blocks| <= Top(blocks)
  {
    if blocks != [] {
      BlocksAreDisjoint(blocks[..|blocks| - 1]);
    }
  }

  lemma CountBelowTop(blocks: seq<Block>)
    requires Laid(blocks)
    ensures MEMORY_START + 19 * |blocks| <= Top(blocks)
  {
    BlocksAreDisjoint(blocks);
  }

  lemma Apart(blocks: seq<Block>, i: nat, j: nat)
    requires Laid(blocks) && i < j < |blocks|
    ensures blocks[i].End() <= blocks[j].addr
  {
    BlocksAreDisjoint(blocks);
  }

  lemma BelowTop(blocks: seq<Block>, i: nat)
    requires Laid(blocks) && i < |blocks|
    ensures MEMORY_START <= blocks[i].addr && blocks[i].End() <= Top(blocks)
  {
    BlocksAreDisjoint(blocks);
  }

  /** The index of the first block whose payload starts at data, or |blocks|. */
  ghost function Find(blocks: seq<Block>, data: uint32): (i: nat)
    ensures i <= |blocks|
    ensures i < |blocks| ==> blocks[i].Data() == data
    ensures forall k :: 0 <= k < i ==> blocks[k].Data() != data
  {
    if exists i :: 0 <= i < |blocks| && blocks[i].Data() == data then
      FirstExists(blocks, data);
      var i :| 0 <= i < |blocks| && blocks[i].Data() == data && forall k :: 0 <= k < i ==> blocks[k].Data() != data;
      i
    else |blocks|
  }

  lemma FirstExists(blocks: seq<Block>, data: uint32)
    requires exists i :: 0 <= i < |blocks| && blocks[i].Data() == data
    ensures exists i ::
      0 <= i < |blocks| && blocks[i].Data() == data && forall k :: 0 <= k < i ==> blocks[k].Data() != data
  {
    var i :| 0 <= i < |blocks| && blocks[i].Data() == data;
    if k :| 0 <= k < i && blocks[k].Data() == data {
      FirstExists(blocks[..i], data);
      var j :| 0 <= j < i && blocks[..i][j].Data() == data && forall k :: 0 <= k < j ==> blocks[..i][k].Data() != data;
      assert forall k :: 0 <= k < j ==> blocks[..i][k] == blocks[k];
      assert blocks[j].Data() == data;
    }
  }

  lemma FindIsUnique(blocks: seq<Block>, i: nat)
    requires Laid(blocks) && i < |blocks|
    requires blocks[i].Data() < ADDRESS_SPACE
    ensures Find(blocks, blocks[i].Data()) == i
  {
    BlocksAreDisjoint(blocks);
  }

  // ----- The calls

  datatype Call =
    | Malloc(size: uint32)
    | Free(data: uint32)
    | Realloc(data: uint32, size: uint32)

  function Carve(h: Heap, size: uint32): Heap {
    h.(next := Wrap(Wrap(h.next + size) + OVERHEAD),
       blocks := h.blocks + [Block(h.next, size, size, true)])
  }

  ghost predicate IsLive(blocks: seq<Block>, data: uint32) {
    var i := Find(blocks, data);
    i < |blocks| && blocks[i].live
  }

  ghost function Release(h: Heap, data: uint32): Heap {
    if IsLive(h.blocks, data) then
      var i := Find(h.blocks, data);
      h.(blocks := h.blocks[i := h.blocks[i].(live := false)])
    else h
  }

  /** `realloc` has to find a new place: a live block that is too short and not the last. */
  ghost predicate Moves(blocks: seq<Block>, data: uint32, size: uint32) {
    IsLive(blocks, data) &&
    var i := Find(blocks, data);
    blocks[i].len < size && i < |blocks| - 1
  }

  ghost function SetLength(h: Heap, data: uint32, size: uint32): Heap
    requires IsLive(h.blocks, data)
  {
    var i := Find(h.blocks, data);
    h.(blocks := h.blocks[i := h.blocks[i].(len := size)])
  }

  ghost function Resize(h: Heap, data: uint32, size: uint32): Option<(Heap, int)> {
    if !IsLive(h.blocks, data) then Some((h, 0))
    else if !Moves(h.blocks, data, size) then Some((SetLength(h, data, size), data))
    else if Fits(h.map_, h.next, size) then Some((Release(Carve(h, size), data), h.next + HEADER))
    else None
  }

  /** The heap after a call and the pointer it returns (0 for none); None when the call never
      returns. */
  ghost function Step(h: Heap, c: Call): Option<(Heap, int)> {
    match c
    case Malloc(size) =>
      if size == 0 then Some((h, 0))
      else if Fits(h.map_, h.next, size) then Some((Carve(h, size), h.next + HEADER))
      else None
    case Free(data) => Some((Release(h, data), 0))
    case Realloc(data, size) => Resize(h, data, size)
  }

  /** The size a call asks the allocator for; 0 when it asks for nothing. */
  ghost function Requested(h: Heap, c: Call): uint32 {
    match c
    case Malloc(size) => size
    case Free(_) => 0
    case Realloc(data, size) => if Moves(h.blocks, data, size) then size else 0
  }

  /** The range in which the wrapped upper bound check can be trusted. */
  predicate SoundSize(p: uint32, size: uint32) {
    size < ADDRESS_SPACE - (p - MEMORY_START)
  }

  ghost predicate Sound(h: Heap, c: Call) {
    SoundSize(h.next, Requested(h, c))
  }

  lemma ResizeOfMoving(h: Heap, data: uint32, size: uint32)
    requires Moves(h.blocks, data, size)
    ensures Resize(h, data, size) ==
      if Fits(h.map_, h.next, size) then Some((Release(Carve(h, size), data), h.next + HEADER)) else None
    ensures Sound(h, Realloc(data, size)) <==> SoundSize(h.next, size)
  {
  }

  lemma TopOfAppend(blocks: seq<Block>, b: Block)
    ensures Top(blocks + [b]) == Top(blocks) + b.cap + OVERHEAD
  {
    assert (blocks + [b])[..|blocks|] == blocks;
  }

  /** Overwriting the length or the flag of a block moves nothing. */
  lemma {:induction false} TopOfUpdate(blocks: seq<Block>, i: nat, b: Block)
    requires i < |blocks| && b.cap == blocks[i].cap
    ensures Top(blocks[i := b]) == Top(blocks)
  {
    var n := |blocks| - 1;
    if i < n {
      assert blocks[i := b][..n] == blocks[..n][i := b];
      TopOfUpdate(blocks[..n], i, b);
    } else {
      assert blocks[i := b][..n] == blocks[..n];
    }
  }

  lemma {:induction false} LaidUpdate(blocks: seq<Block>, i: nat, b: Block)
    requires Laid(blocks) && i < |blocks| && b.cap == blocks[i].cap && b.addr == blocks[i].addr
    ensures Laid(blocks[i := b]) && Top(blocks[i := b]) == Top(blocks)
  {
    TopOfUpdate(blocks, i, b);
    var n := |blocks| - 1;
    if i < n {
      assert blocks[i := b][..n] == blocks[..n][i := b];
      LaidUpdate(blocks[..n], i, b);
    } else {
      assert blocks[i := b][..n] == blocks[..n];
    }
  }

  lemma LaidAppend(blocks: seq<Block>, b: Block)
    requires Laid(blocks) && b.addr == Top(blocks) && 1 <= b.cap
    ensures Laid(blocks + [b])
  {
    assert (blocks + [b])[..|blocks|] == blocks;
  }

  /** A granted request keeps the heap laid out, and the allocation position moving forward,
      exactly when its size is in the sound range. Otherwise the position falls back into
      memory that was handed out before. */
  lemma CarveKeepsInvExactly(h: Heap, size: uint32)
    requires Inv(h) && size != 0 && Fits(h.map_, h.next, size)
    ensures Inv(Carve(h, size)) <==> SoundSize(h.next, size)
    ensures !SoundSize(h.next, size) ==> Carve(h, size).next < h.next + OVERHEAD
    ensures SoundSize(h.next, size) ==> Carve(h, size).next == h.next + size + OVERHEAD
  {
    var b := Block(h.next, size, size, true);
    TopOfAppend(h.blocks, b);
    LaidAppend(h.blocks, b);
    BlocksAreDisjoint(h.blocks);
  }

  lemma ReleaseKeepsInv(h: Heap, data: uint32)
    requires Inv(h)
    ensures Inv(Release(h, data))
  {
    if IsLive(h.blocks, data) {
      var i := Find(h.blocks, data);
      LaidUpdate(h.blocks, i, h.blocks[i].(live := false));
    }
  }

  lemma StepKeepsInv(h: Heap, c: Call)
    requires Inv(h) && Sound(h, c) && Step(h, c).Some?
    ensures Inv(Step(h, c).value.0)
  {
    if Requested(h, c) != 0 {
      CarveKeepsInvExactly(h, Requested(h, c));
    }
    match c
    case Malloc(size) =>
    case Free(data) => ReleaseKeepsInv(h, data);
    case Realloc(data, size) =>
      if Moves(h.blocks, data, size) {
        ReleaseKeepsInv(Carve(h, size), data);
      } else if IsLive(h.blocks, data) {
        var i := Find(h.blocks, data);
        LaidUpdate(h.blocks, i, h.blocks[i].(len := size));
      }
  }

  /** What the three calls do, said in the numbers of Memory.c: a new block goes to the position, its
      payload begins 17 bytes on, and the position moves on by the size and 18 bytes, in 32 bits; a
      freed block is no longer live; a block is resized in place if it is long enough or the last
      one, and otherwise replaced by a new block at the end. */
  lemma CallsInNumbers(h: Heap, i: nat, data: uint32, size: uint32)
    requires Inv(h) && i < |h.blocks| && h.blocks[i].live && data == h.blocks[i].addr + 17
    ensures var b := h.blocks[i];
      && Step(h, Free(data)) == Some((h.(blocks := h.blocks[i := b.(live := false)]), 0))
      && Step(h, Realloc(data, size)) ==
           if size <= b.len || i == |h.blocks| - 1
           then Some((h.(blocks := h.blocks[i := b.(len := size)]), data))
           else if Allowed(h.map_, h.next, size)
           then Some((Heap(h.map_, (h.next + size + 18) % 0x1_0000_0000,
                           h.blocks[i := b.(live := false)] + [Block(h.next, size, size, true)]),
                      h.next + 17))
           else None
  {
    FindIsUnique(h.blocks, i);
    GrantedExactly(h.map_, h.next, size);
    NextInNumbers(h.next, size);
    if Moves(h.blocks, data, size) {
      FindAfterCarve(h, size, data);
      assert Carve(h, size).blocks[i := h.blocks[i].(live := false)]
          == h.blocks[i := h.blocks[i].(live := false)] + [Block(h.next, size, size, true)];
    }
  }

  lemma MallocInNumbers(h: Heap, size: uint32)
    ensures Step(h, Malloc(size)) ==
      if size == 0 then Some((h, 0))
      else if Allowed(h.map_, h.next, size)
      then Some((Heap(h.map_, (h.next + size + 18) % 0x1_0000_0000, h.blocks + [Block(h.next, size, size, true)]),
                 h.next + 17))
      else None
  {
    GrantedExactly(h.map_, h.next, size);
    NextInNumbers(h.next, size);
  }

  lemma NextInNumbers(p: uint32, size: uint32)
    ensures Wrap(Wrap(p + size) + OVERHEAD) == (p + size + 18) % 0x1_0000_0000
  {
  }

  /** `realloc` grows the last block past what was carved for it: the allocation position does
      not follow. */
  ghost predicate Overgrows(h: Heap, c: Call) {
    c.Realloc? && IsLive(h.blocks, c.data) &&
    var i := Find(h.blocks, c.data);
    i == |h.blocks| - 1 && h.blocks[i].cap < c.size
  }

  /** The only call that lets a recorded length exceed its block is an overgrowing `realloc`. */
  lemma StepKeepsCapacityExactly(h: Heap, c: Call)
    requires WithinCapacity(h.blocks) && Step(h, c).Some?
    ensures WithinCapacity(Step(h, c).value.0.blocks) <==> !Overgrows(h, c)
  {
    var after := Step(h, c).value.0.blocks;
    if Overgrows(h, c) {
      var i := Find(h.blocks, c.data);
      assert after[i].len > after[i].cap;
    }
  }

  // ----- Runs

  function Boot(map_: seq<MapEntry>): Heap { Heap(map_, MEMORY_START, []) }

  ghost function Run(h: Heap, calls: seq<Call>): Option<Heap>
    decreases calls
  {
    if calls == [] then Some(h)
    else
      var r := Step(h, calls[0]);
      if r.None? then None else Run(r.value.0, calls[1..])
  }

  ghost predicate AllSound(h: Heap, calls: seq<Call>)
    decreases calls
  {
    calls == [] ||
    (Sound(h, calls[0]) &&
     var r := Step(h, calls[0]);
     r.Some? ==> AllSound(r.value.0, calls[1..]))
  }

  /** The pointers a call passes are pointers `malloc` returned. */
  ghost predicate Given(blocks: seq<Block>, c: Call) {
    match c
    case Malloc(_) => true
    case Free(data) => Find(blocks, data) < |blocks|
    case Realloc(data, _) => Find(blocks, data) < |blocks|
  }

  ghost predicate AllGiven(h: Heap, calls: seq<Call>)
    decreases calls
  {
    calls == [] ||
    (Given(h.blocks, calls[0]) &&
     var r := Step(h, calls[0]);
     r.Some? ==> AllGiven(r.value.0, calls[1..]))
  }

  ghost predicate NeverOvergrows(h: Heap, calls: seq<Call>)
    decreases calls
  {
    calls == [] ||
    (!Overgrows(h, calls[0]) &&
     var r := Step(h, calls[0]);
     r.Some? ==> NeverOvergrows(r.value.0, calls[1..]))
  }

  lemma {:induction false} RunKeepsInv(h: Heap, calls: seq<Call>)
    requires Inv(h) && AllSound(h, calls) && Run(h, calls).Some?
    ensures Inv(Run(h, calls).value)
    ensures WithinCapacity(h.blocks) && NeverOvergrows(h, calls) ==> WithinCapacity(Run(h, calls).value.blocks)
    decreases calls
  {
    if calls != [] {
      StepKeepsInv(h, calls[0]);
      if WithinCapacity(h.blocks) {
        StepKeepsCapacityExactly(h, calls[0]);
      }
      RunKeepsInv(Step(h, calls[0]).value.0, calls[1..]);
    }
  }

  /** Heap safety over whole runs: at the end of any run of sound calls the blocks are pairwise
      disjoint, lie below the allocation position, and account for every byte below it; the
      position never wraps; and if no call overgrew a block, the bytes each header claims for
      its payload stay clear of every other block as well. */
  lemma HeapSafety(map_: seq<MapEntry>, calls: seq<Call>)
    requires AllSound(Boot(map_), calls) && Run(Boot(map_), calls).Some?
    ensures var h := Run(Boot(map_), calls).value;
      && h.next == Top(h.blocks) <= MEMORY_TOP + OVERHEAD
      && (forall i, j :: 0 <= i < j < |h.blocks| ==> h.blocks[i].End() <= h.blocks[j].addr)
      && (forall i :: 0 <= i < |h.blocks| ==> MEMORY_START <= h.blocks[i].addr && h.blocks[i].End() <= h.next)
      && (NeverOvergrows(Boot(map_), calls) ==>
            && (forall i, j :: 0 <= i < j < |h.blocks| ==>
                  h.blocks[i].Data() + h.blocks[i].len < h.blocks[j].addr)
            && forall i :: 0 <= i < |h.blocks| ==> h.blocks[i].Data() + h.blocks[i].len < h.next)
  {
    RunKeepsInv(Boot(map_), calls);
    BlocksAreDisjoint(Run(Boot(map_), calls).value.blocks);
  }

  /** A run in which a block is overgrown and the next one is then carved out of its payload. */
  lemma OvergrownBlockIsOverlapped()
    ensures var calls := [Malloc(8), Realloc(MEMORY_START + HEADER, 100), Malloc(8)];
      AllSound(Boot([]), calls) && Run(Boot([]), calls).Some? &&
      var b := Run(Boot([]), calls).value.blocks;
      |b| == 2 && b[0].addr < b[1].addr < b[1].Data() + b[1].len < b[0].Data() + b[0].len
  {
    var data: uint32 := MEMORY_START + HEADER;
    var h0 := Boot([]);
    var h1 := Step(h0, Malloc(8)).value.0;
    assert h1.blocks == [Block(MEMORY_START, 8, 8, true)];
    assert h1.blocks[0].Data() == data && Find(h1.blocks, data) == 0;
    var h2 := Step(h1, Realloc(data, 100)).value.0;
    assert h2.blocks == [Block(MEMORY_START, 8, 100, true)];
    var h3 := Step(h2, Malloc(8)).value.0;
    var calls := [Malloc(8), Realloc(data, 100), Malloc(8)];
    var calls1, calls2 := calls[1..], calls[1..][1..];
    assert calls1 == [Realloc(data, 100), Malloc(8)] && calls2 == [Malloc(8)];
    assert AllSound(h3, []) && Run(h3, []) == Some(h3);
    assert AllSound(h2, calls2) && Run(h2, calls2) == Some(h3) by { assert calls2[1..] == []; }
    assert AllSound(h1, calls1) && Run(h1, calls1) == Some(h3);
  }

  /** A run in which an unsound size is granted: the position falls back into the first block,
      and the next block will be carved out of its payload. */
  lemma UnsoundSizeFallsBack()
    ensures var calls := [Malloc(8), Malloc(0xFFFF_FFE6)];
      Run(Boot([]), calls).Some? && !AllSound(Boot([]), calls) &&
      var h := Run(Boot([]), calls).value;
      && |h.blocks| == 2 && h.next == MEMORY_START + 18
      && h.blocks[0].live && h.blocks[0].Data() < h.next < h.blocks[0].Data() + h.blocks[0].len
  {
    var h1 := Step(Boot([]), Malloc(8)).value.0;
    assert h1.blocks == [Block(MEMORY_START, 8, 8, true)] && h1.next == MEMORY_START + 26;
    var h2 := Step(h1, Malloc(0xFFFF_FFE6)).value.0;
    var calls := [Malloc(8), Malloc(0xFFFF_FFE6)];
    assert calls[1..] == [Malloc(0xFFFF_FFE6)] && calls[1..][1..] == [];
    assert Run(h2, []) == Some(h2);
    assert Run(h1, calls[1..]) == Some(h2);
    assert !AllSound(h1, calls[1..]);
  }

  // ----- Calls and stores

  /** What the kernel does with its heap: calls, and stores into the payloads. */
  datatype Act = Do(call: Call) | Put(data: uint32, offset: uint32, v: byte)

  ghost function ActStep(h: Heap, act: Act): Option<Heap> {
    match act
    case Put(_, _, _) => Some(h)
    case Do(c) => var r := Step(h, c); if r.None? then None else Some(r.value.0)
  }

  ghost function ActRun(h: Heap, acts: seq<Act>): Option<Heap>
    decreases acts
  {
    if acts == [] then Some(h)
    else
      var r := ActStep(h, acts[0]);
      if r.None? then None else ActRun(r.value, acts[1..])
  }

  /** A sound call on a given pointer, or a store that keeps to the length and the capacity. */
  ghost predicate Proper(h: Heap, act: Act) {
    match act
    case Do(c) => Sound(h, c) && Given(h.blocks, c)
    case Put(data, offset, _) =>
      IsLive(h.blocks, data) &&
      var b := h.blocks[Find(h.blocks, data)];
      offset < b.len && offset < b.cap
  }

  ghost predicate AllProper(h: Heap, acts: seq<Act>)
    decreases acts
  {
    acts == [] ||
    (Proper(h, acts[0]) &&
     var r := ActStep(h, acts[0]);
     r.Some? ==> AllProper(r.value, acts[1..]))
  }

  /** What is stored last at an address, or what was there. */
  function LastPut(acts: seq<Act>, a: uint32, was: byte): byte
    decreases acts
  {
    if acts == [] then was
    else LastPut(acts[1..], a, if acts[0].Put? && acts[0].data + acts[0].offset == a then acts[0].v else was)
  }

  lemma LastPutFirst(acts: seq<Act>, a: uint32, was: byte)
    requires acts != []
    ensures LastPut(acts, a, was) == LastPut(acts[1..], a, LastPut([acts[0]], a, was))
  {
    assert [acts[0]][1..] == [];
  }

  // ----- The life of a block

  function LiveBlocks(blocks: seq<Block>): nat {
    if blocks == [] then 0
    else LiveBlocks(blocks[..|blocks| - 1]) + if blocks[|blocks| - 1].live then 1 else 0
  }

  /** The number of blocks a call frees, counting the one a moving `realloc` gives up. */
  ghost function Freed(h: Heap, c: Call): nat {
    match c
    case Malloc(_) => 0
    case Free(data) => if IsLive(h.blocks, data) then 1 else 0
    case Realloc(data, size) => if Moves(h.blocks, data, size) then 1 else 0
  }

  ghost function FreedBy(h: Heap, calls: seq<Call>): nat
    decreases calls
  {
    if calls == [] then 0
    else
      var r := Step(h, calls[0]);
      Freed(h, calls[0]) + if r.None? then 0 else FreedBy(r.value.0, calls[1..])
  }

  lemma {:induction false} LiveAfterUpdate(blocks: seq<Block>, i: nat, b: Block)
    requires i < |blocks|
    ensures LiveBlocks(blocks[i := b]) + (if blocks[i].live then 1 else 0)
         == LiveBlocks(blocks) + (if b.live then 1 else 0)
  {
    var n := |blocks| - 1;
    if i < n {
      assert blocks[i := b][..n] == blocks[..n][i := b];
      LiveAfterUpdate(blocks[..n], i, b);
    } else {
      assert blocks[i := b][..n] == blocks[..n];
    }
  }

  lemma LiveAfterCarve(h: Heap, size: uint32)
    ensures LiveBlocks(Carve(h, size).blocks) == LiveBlocks(h.blocks) + 1
  {
    assert Carve(h, size).blocks[..|h.blocks|] == h.blocks;
  }

  lemma LiveAfterRelease(h: Heap, data: uint32)
    requires IsLive(h.blocks, data)
    ensures LiveBlocks(Release(h, data).blocks) == LiveBlocks(h.blocks) - 1
  {
    var i := Find(h.blocks, data);
    LiveAfterUpdate(h.blocks, i, h.blocks[i].(live := false));
  }

  /** Appending a block does not hide an earlier one. */
  lemma FindAfterCarve(h: Heap, size: uint32, data: uint32)
    requires IsLive(h.blocks, data)
    ensures Find(Carve(h, size).blocks, data) == Find(h.blocks, data)
  {
    var longer := Carve(h, size).blocks;
    assert forall k :: 0 <= k < |h.blocks| ==> longer[k] == h.blocks[k];
  }

  /** The later heap holds the earlier blocks in place, none of them back to life, and its live
      blocks are those of the earlier heap, plus the new ones, minus those freed in between. */
  ghost predicate Later(h: Heap, after: Heap, freed: int) {
    && |h.blocks| <= |after.blocks|
    && after.map_ == h.map_
    && (forall i :: 0 <= i < |h.blocks| ==>
          && after.blocks[i].addr == h.blocks[i].addr
          && after.blocks[i].cap == h.blocks[i].cap
          && (after.blocks[i].live ==> h.blocks[i].live))
    && LiveBlocks(after.blocks) + freed + |h.blocks| == LiveBlocks(h.blocks) + |after.blocks|
  }

  lemma CarveIsLater(h: Heap, size: uint32)
    ensures Later(h, Carve(h, size), 0)
  {
    LiveAfterCarve(h, size);
  }

  lemma ReleaseIsLater(h: Heap, data: uint32)
    ensures Later(h, Release(h, data), if IsLive(h.blocks, data) then 1 else 0)
  {
    if IsLive(h.blocks, data) {
      LiveAfterRelease(h, data);
    }
  }

  lemma StepIsLater(h: Heap, c: Call)
    requires Step(h, c).Some?
    ensures Later(h, Step(h, c).value.0, Freed(h, c))
  {
    match c
    case Malloc(size) => CarveIsLater(h, size);
    case Free(data) => ReleaseIsLater(h, data);
    case Realloc(data, size) =>
      if Moves(h.blocks, data, size) {
        CarveIsLater(h, size);
        FindAfterCarve(h, size, data);
        ReleaseIsLater(Carve(h, size), data);
      } else if IsLive(h.blocks, data) {
        var i := Find(h.blocks, data);
        LiveAfterUpdate(h.blocks, i, h.blocks[i].(len := size));
      }
  }

  /** Over any run every block keeps its place and is freed at most once, and the live blocks
      are the blocks carved minus those freed. */
  lemma {:induction false} BlockLifeCycle(h: Heap, calls: seq<Call>)
    requires Run(h, calls).Some?
    ensures Later(h, Run(h, calls).value, FreedBy(h, calls))
    decreases calls
  {
    if calls != [] {
      StepIsLater(h, calls[0]);
      BlockLifeCycle(Step(h, calls[0]).value.0, calls[1..]);
    }
  }

  /** A block that has been freed cannot be freed, resized or moved again. */
  lemma FreedBlockIsInert(h: Heap, i: nat, data: uint32, size: uint32)
    requires Inv(h) && i < |h.blocks| && !h.blocks[i].live && h.blocks[i].Data() == data
    ensures Step(h, Free(data)) == Some((h, 0))
    ensures Step(h, Realloc(data, size)) == Some((h, 0))
  {
    FindIsUnique(h.blocks, i);
  }
}
