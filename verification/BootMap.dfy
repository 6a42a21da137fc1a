/** From the BIOS to the screen: the boot stage collects the memory map (Stage2A.asm), and the
    kernel prints the one it finds in memory (Kernel/Memory.c). */
module BootMap {
  import opened Words
  import opened Options
  import opened Console
  import opened MemoryMap
  import opened MemoryMapCollector
  import Printer = MemoryMapDisplay

  /** The size of the map as the kernel computes it, in 32 bits. */
  function MmapLength(count: uint32): uint32 {
    Wrap(Low32(ENTRY * count) + 4)
  }

  lemma LengthIsUsed(count: nat)
    requires Roomy(count)
    ensures count < ADDRESS_SPACE && MmapLength(count) == TABLE - COUNT_AT + ENTRY * count
  {
  }

  lemma {:induction false} SameTableSameKeep(m: seq<byte>, m': seq<byte>, rs: seq<Response>)
    requires AllFit(rs) && |m| == |m'| == SEGMENT && m[TABLE..] == m'[TABLE..]
    ensures After(m, rs) == After(m', rs)
  {
    if rs != [] {
      SameTableSameKeep(m, m', rs[..|rs| - 1]);
      SameSlot(m, m', |Keep(m, rs[..|rs| - 1])| + 1);
    } else {
      SameSlot(m, m', 0);
    }
  }

  lemma SameSlot(m: seq<byte>, m': seq<byte>, k: nat)
    requires |m| == |m'| == SEGMENT && m[TABLE..] == m'[TABLE..]
    ensures SlotOf(m, k) == SlotOf(m', k)
  {
    if TABLE + ENTRY * (k + 1) <= SEGMENT {
      assert m[TABLE..][ENTRY * k..ENTRY * (k + 1)] == SlotOf(m, k);
      assert m'[TABLE..][ENTRY * k..ENTRY * (k + 1)] == SlotOf(m', k);
    }
  }

  /** The boot stage zeroes the count word and collects. The 32-bit word the kernel will read is
      the number of entries the 16-bit store recorded, or 0 if the first call failed. */
  method Collect(c: Collector, rs: seq<Response>) returns (failed: bool)
    requires c.Valid() && AllFit(rs) && rs != []
    requires FirstCallFails(rs[0]) || (Ends(rs) && Roomy(|Keep(c.mem[..], rs[..Examined(rs)])|))
    modifies c.mem
    ensures failed == FirstCallFails(rs[0])
    ensures failed ==> WordAt(c.mem[..], COUNT_AT) == 0
    ensures !failed ==>
      var es := Keep(old(c.mem[..]), rs[..Examined(rs)]);
      Roomy(|es|) && c.Holds(es) && WordAt(c.mem[..], COUNT_AT) == |es|
  {
    c.mem[COUNT_AT], c.mem[COUNT_AT + 1], c.mem[COUNT_AT + 2], c.mem[COUNT_AT + 3] := 0, 0, 0, 0;
    assert c.mem[TABLE..] == old(c.mem[TABLE..]);
    if !FirstCallFails(rs[0]) { SameTableSameKeep(old(c.mem[..]), c.mem[..], rs[..Examined(rs)]); }
    var bp;
    failed, bp := c.CreateMemoryMap(rs);
    if !failed { assert bp == bp % 0x100 + 0x100 * (bp / 0x100); }
  }

  /** The kernel prints what it finds: as many rows as the count word says, from the bytes behind
      it, which are the entries collected; and the length it computes is the bytes in use. */
  method CollectAndPrint(c: Collector, rs: seq<Response>, console: VideoConsole) returns (failed: bool)
    requires c.Valid() && AllFit(rs) && rs != [] && console.Valid()
    requires FirstCallFails(rs[0]) || (Ends(rs) && Roomy(|Keep(c.mem[..], rs[..Examined(rs)])|))
    modifies c.mem, console, console.video
    ensures failed == FirstCallFails(rs[0])
    ensures !failed ==>
      var es := Keep(old(c.mem[..]), rs[..Examined(rs)]);
      Roomy(|es|) && c.Holds(es) && WordAt(c.mem[..], 0x8000) == |es|
    ensures !failed ==>
      var es := Keep(old(c.mem[..]), rs[..Examined(rs)]);
      forall k :: 0 <= k < |es| ==>
        0x8004 + 24 * (k + 1) <= c.mem.Length && c.mem[0x8004 + 24 * k..0x8004 + 24 * (k + 1)] == es[k]
    ensures var count := WordAt(c.mem[..], 0x8000);
      && (failed ==> count == 0)
      && MmapLength(count) == 4 + 24 * count
      && ENTRY * Printer.Shown(count) <= |c.mem[0x8004..]|
      && console.typed == old(console.typed) + Printer.Display(count, c.mem[0x8004..])
    ensures console.Valid() && console.origin == old(console.origin)
  {
    assert c.mem != console.video;
    failed := Collect(c, rs);
    ghost var es := if failed then [] else Keep(old(c.mem[..]), rs[..Examined(rs)]);
    assert forall k :: 0 <= k < |es| ==> c.Slot(k) == es[k];
    var count, table := WordAt(c.mem[..], COUNT_AT), c.mem[TABLE..];
    assert Roomy(count);
    LengthIsUsed(count);
    Printer.MmapDisplay(console, count, table);
  }

  /** What the BIOS answered is what can be read off the terminal: field j of row k of the printout
      of the table is word j of what the k-th accepted answer left in its slot. */
  lemma PrintoutIsBiosMap(t: Tape, c: Collector, m: seq<byte>, rs: seq<Response>, k: nat, j: nat) returns (i: nat)
    requires t.cursor % ROW == 0 && c.Valid() && AllFit(rs) && Ends(rs) && j < 6
    requires var es := Keep(m, rs[..Examined(rs)]); Roomy(|es|) && c.Holds(es) && k < |es|
    ensures i < Examined(rs) && Verdict(m, rs, i).Some?
    ensures var count, data := |Keep(m, rs[..Examined(rs)])|, c.mem[TABLE..];
      && count < ADDRESS_SPACE && Printer.Shown(count) == count && ENTRY * count <= |data|
      && Printer.ReadsBack(TypeAll(t, Printer.Display(count, data)), t.cursor, data, k, j)
      && WordAt(data, ENTRY * k + 4 * j) == WordAt(Verdict(m, rs, i).value, 4 * j)
  {
    var es := Keep(m, rs[..Examined(rs)]);
    i := AcceptedAnswer(m, rs, Examined(rs), k);
    Printer.DisplayRoundTrip(t, |es|, c.mem[TABLE..]);
    TableWord(c, es, k, j);
  }

  lemma AcceptedAnswer(m: seq<byte>, rs: seq<Response>, n: nat, k: nat) returns (i: nat)
    requires AllFit(rs) && n <= |rs| && k < |Keep(m, rs[..n])|
    ensures i < n && Verdict(m, rs, i) == Some(Keep(m, rs[..n])[k])
  {
    var from := KeepIsFilter(m, rs[..n]);
    i := from[k];
    VerdictInFront(m, rs, n, i);
  }

  lemma TableWord(c: Collector, es: seq<seq<byte>>, k: nat, j: nat)
    requires c.Valid() && Roomy(|es|) && c.Holds(es) && k < |es| && j < 6
    ensures |es[k]| == ENTRY && WordAt(c.mem[TABLE..], ENTRY * k + 4 * j) == WordAt(es[k], 4 * j)
  {
    var data, e := c.mem[TABLE..], es[k];
    assert c.Slot(k) == e;
    assert forall b :: 0 <= b < ENTRY ==> data[ENTRY * k + b] == e[b];
  }
}
