/** The memory map as the second boot stage collects it (BootloaderStage2/Stage2A.asm): the
    answers to INT 15H, EAX = E820H, filtered in place into the table at 0x8004. */
module MemoryMapCollector {
  import opened Words
  import opened Options
  import opened MemoryMap

  const SMAP: uint32 := 0x534D_4150
  const SEGMENT := 0x1_0000

  // ----- Answers

  /** The attribute word is set to 1 before the BIOS is asked. */
  function Prepared(k: nat): byte {
    if k == 20 then 1 else 0
  }

  /** One answer of the BIOS: the carry flag, EAX, EBX, the size returned in ECX, and the bytes it
      has written through ES:DI, whatever it says about them. */
  datatype Response = Response(carry: bool, signature: uint32, continuation: uint32, size: uint32, data: seq<byte>) {
    /** It has written no more than it was asked for. */
    predicate Fits() { |data| <= ENTRY }

    /** A slot after the answer: bytes that were not written are the attribute word 1 and, in front
        of it, whatever the slot held. */
    function Entry(slot: seq<byte>): (e: seq<byte>)
      requires Fits() && |slot| == ENTRY
      ensures |e| == ENTRY
    {
      seq(ENTRY, k requires 0 <= k < ENTRY =>
        if k < |data| then data[k] else if k >= 20 then Prepared(k) else slot[k])
    }

    /** Not empty, not marked as to be ignored, and of nonzero length; CX and CL are tested. */
    predicate Kept(slot: seq<byte>)
      requires Fits() && |slot| == ENTRY
    {
      && size % 0x1_0000 != 0
      && (size % 0x100 > 20 ==> Entry(slot)[20] % 2 == 1)
      && (WordAt(Entry(slot), 8) != 0 || WordAt(Entry(slot), 12) != 0)
    }

    /** What becomes of the answer over a slot that held these bytes. */
    function Judged(slot: seq<byte>): (v: Option<seq<byte>>)
      requires Fits() && |slot| == ENTRY
      ensures v.Some? ==> |v.value| == ENTRY
    {
      if Kept(slot) then Some(Entry(slot)) else None
    }

    /** The answer covers all that is looked at, or is skipped for what it says. */
    predicate SelfContained() {
      || 20 <= |data|
      || size % 0x1_0000 == 0
      || (16 <= |data| && WordAt(data, 8) == 0 && WordAt(data, 12) == 0)
    }

    /** A nonzero size, a nonzero length, and a valid bit unless none was announced or written. */
    predicate Qualifies() {
      && size % 0x1_0000 != 0 && 20 <= |data|
      && (size % 0x100 > 20 && |data| > 20 ==> data[20] % 2 == 1)
      && (WordAt(data, 8) != 0 || WordAt(data, 12) != 0)
    }

    /** Its bytes, with the missing part of the attribute word 1 behind them. */
    function Padded(): seq<byte>
      requires Fits() && 20 <= |data|
    {
      data + [1, 0, 0, 0][|data| - 20..]
    }
  }

  ghost predicate AllFit(rs: seq<Response>) {
    forall i :: 0 <= i < |rs| ==> rs[i].Fits()
  }

  lemma EntryIsPadded(r: Response, slot: seq<byte>)
    requires r.Fits() && 20 <= |r.data| && |slot| == ENTRY
    ensures r.Entry(slot) == r.Padded()
  {
    var tail: seq<byte> := [1, 0, 0, 0];
    forall k | 0 <= k < ENTRY ensures r.Entry(slot)[k] == r.Padded()[k] {
      if |r.data| <= k { assert r.Padded()[k] == tail[|r.data| - 20..][k - |r.data|] == tail[k - 20] == Prepared(k); }
    }
  }

  lemma SameWord(a: seq<byte>, b: seq<byte>, i: nat)
    requires i + 4 <= |a| && i + 4 <= |b| && forall k :: i <= k < i + 4 ==> a[k] == b[k]
    ensures WordAt(a, i) == WordAt(b, i)
  {
  }

  /** A self-contained answer is judged, and recorded, by what it says alone. */
  lemma JudgedAlone(r: Response, slot: seq<byte>)
    requires r.Fits() && r.SelfContained() && |slot| == ENTRY
    ensures r.Judged(slot) == if r.Qualifies() then Some(r.Padded()) else None
  {
    if 20 <= |r.data| { EntryIsPadded(r, slot); }
    if 16 <= |r.data| {
      SameWord(r.Entry(slot), r.data, 8);
      SameWord(r.Entry(slot), r.data, 12);
    }
  }

  /** What is judged does not depend on what the slot held exactly for the self-contained answers. */
  lemma JudgedAloneExactly(r: Response)
    requires r.Fits()
    ensures (forall s, t :: |s| == ENTRY && |t| == ENTRY ==> r.Judged(s) == r.Judged(t)) <==> r.SelfContained()
  {
    if r.SelfContained() {
      forall s, t | |s| == ENTRY && |t| == ENTRY ensures r.Judged(s) == r.Judged(t) {
        JudgedAlone(r, s);
        JudgedAlone(r, t);
      }
    } else {
      StaleSlotsDiffer(r);
    }
  }

  /** Two slots over which an answer that is not self-contained is judged differently. */
  lemma StaleSlotsDiffer(r: Response)
    requires r.Fits() && !r.SelfContained()
    ensures r.Judged(seq(ENTRY, _ => 1)) != r.Judged(seq(ENTRY, _ => 0))
  {
    var s, t := seq<byte>(ENTRY, _ => 1), seq<byte>(ENTRY, _ => 0);
    assert r.Entry(s)[19] == 1 && r.Entry(t)[19] == 0;
    assert r.Kept(s) by {
      assert r.Entry(s)[20] == 1;
      if 16 <= |r.data| {
        SameWord(r.Entry(s), r.data, 8);
        SameWord(r.Entry(s), r.data, 12);
      } else {
        assert r.Entry(s)[15] == 1;
      }
    }
  }

  /** An answer of no bytes and size 24 is kept over a slot of ones and skipped over one of zeros. */
  lemma StaleBytesDecide()
    ensures var r := Response(false, SMAP, 1, 24, []);
      r.Fits() && r.Kept(seq(ENTRY, _ => 1)) && !r.Kept(seq(ENTRY, _ => 0))
  {
    var r, s, t := Response(false, SMAP, 1, 24, []), seq<byte>(ENTRY, _ => 1), seq<byte>(ENTRY, _ => 0);
    assert r.Entry(s)[20] == 1 && r.Entry(s)[8] == 1;
    assert forall k :: 8 <= k < 16 ==> r.Entry(t)[k] == 0;
  }

  // ----- The filter

  /** The entries kept, and what the slot behind them holds. */
  datatype Scan = Scan(es: seq<seq<byte>>, slot: seq<byte>)

  /** Slot k of the table in an image of memory; zeros when it is not inside. */
  function SlotOf(m: seq<byte>, k: nat): (s: seq<byte>)
    ensures |s| == ENTRY
  {
    if TABLE + ENTRY * (k + 1) <= |m| then m[TABLE + ENTRY * k..TABLE + ENTRY * (k + 1)]
    else seq(ENTRY, _ => 0)
  }

  /** One answer: a kept entry stays and the next slot is as it was in memory; a skipped one is
      left in its slot, to be overwritten. */
  function Next(m: seq<byte>, s: Scan, r: Response): (t: Scan)
    requires r.Fits() && |s.slot| == ENTRY
    ensures |t.slot| == ENTRY
  {
    if r.Kept(s.slot) then Scan(s.es + [r.Entry(s.slot)], SlotOf(m, |s.es| + 1))
    else Scan(s.es, r.Entry(s.slot))
  }

  function After(m: seq<byte>, rs: seq<Response>): (s: Scan)
    requires AllFit(rs)
    ensures |s.slot| == ENTRY
  {
    if rs == [] then Scan([], SlotOf(m, 0))
    else Next(m, After(m, rs[..|rs| - 1]), rs[|rs| - 1])
  }

  /** The entries kept from these answers, memory having been m before. */
  function Keep(m: seq<byte>, rs: seq<Response>): seq<seq<byte>>
    requires AllFit(rs)
  {
    After(m, rs).es
  }

  /** What becomes of answer i. */
  function Verdict(m: seq<byte>, rs: seq<Response>, i: nat): (v: Option<seq<byte>>)
    requires AllFit(rs) && i < |rs|
    ensures v.Some? ==> |v.value| == ENTRY
  {
    rs[i].Judged(After(m, rs[..i]).slot)
  }

  function Positions(m: seq<byte>, rs: seq<Response>): seq<nat>
    requires AllFit(rs)
  {
    if rs == [] then []
    else
      var n := |rs| - 1;
      Positions(m, rs[..n]) + if Verdict(m, rs, n).Some? then [n] else []
  }

  lemma VerdictInFront(m: seq<byte>, rs: seq<Response>, n: nat, i: nat)
    requires AllFit(rs) && i < n <= |rs|
    ensures Verdict(m, rs[..n], i) == Verdict(m, rs, i)
  {
    assert rs[..n][..i] == rs[..i];
  }

  lemma {:induction false} PositionsHoldEntries(m: seq<byte>, rs: seq<Response>)
    requires AllFit(rs)
    ensures |Positions(m, rs)| == |Keep(m, rs)|
    ensures forall k :: 0 <= k < |Positions(m, rs)| ==>
      Positions(m, rs)[k] < |rs| && Verdict(m, rs, Positions(m, rs)[k]) == Some(Keep(m, rs)[k])
  {
    if rs != [] {
      var n := |rs| - 1;
      PositionsHoldEntries(m, rs[..n]);
      forall k | 0 <= k < |Positions(m, rs[..n])|
        ensures Verdict(m, rs, Positions(m, rs[..n])[k]) == Some(Keep(m, rs[..n])[k])
      {
        VerdictInFront(m, rs, n, Positions(m, rs[..n])[k]);
      }
    }
  }

  lemma {:induction false} PositionsIncrease(m: seq<byte>, rs: seq<Response>)
    requires AllFit(rs)
    ensures forall k, l :: 0 <= k < l < |Positions(m, rs)| ==> Positions(m, rs)[k] < Positions(m, rs)[l]
  {
    if rs != [] {
      PositionsIncrease(m, rs[..|rs| - 1]);
      PositionsHoldEntries(m, rs[..|rs| - 1]);
    }
  }

  lemma {:induction false} NoEntryMissing(m: seq<byte>, rs: seq<Response>, i: nat)
    requires AllFit(rs) && i < |rs| && Verdict(m, rs, i).Some?
    ensures i in Positions(m, rs)
  {
    var n := |rs| - 1;
    if i < n {
      VerdictInFront(m, rs, n, i);
      NoEntryMissing(m, rs[..n], i);
    } else {
      assert Positions(m, rs)[|Positions(m, rs[..n])|] == n;
    }
  }

  /** The kept entries are those of an increasing list of answers, and no answer that is accepted
      is missing from it. */
  lemma KeepIsFilter(m: seq<byte>, rs: seq<Response>) returns (from: seq<nat>)
    requires AllFit(rs)
    ensures |from| == |Keep(m, rs)|
    ensures forall k :: 0 <= k < |from| ==> from[k] < |rs| && Verdict(m, rs, from[k]) == Some(Keep(m, rs)[k])
    ensures forall k, l :: 0 <= k < l < |from| ==> from[k] < from[l]
    ensures forall i :: 0 <= i < |rs| && Verdict(m, rs, i).Some? ==> i in from
  {
    from := Positions(m, rs);
    PositionsHoldEntries(m, rs);
    PositionsIncrease(m, rs);
    forall i | 0 <= i < |rs| && Verdict(m, rs, i).Some? ensures i in from {
      NoEntryMissing(m, rs, i);
    }
  }

  /** For self-contained answers memory plays no part: the table is exactly the qualifying answers,
      padded, in their order. */
  lemma SelfContainedAnswersAreFiltered(m: seq<byte>, rs: seq<Response>) returns (from: seq<nat>)
    requires AllFit(rs) && forall i :: 0 <= i < |rs| ==> rs[i].SelfContained()
    ensures |from| == |Keep(m, rs)|
    ensures forall k :: 0 <= k < |from| ==>
      from[k] < |rs| && rs[from[k]].Qualifies() && Keep(m, rs)[k] == rs[from[k]].Padded()
    ensures forall k, l :: 0 <= k < l < |from| ==> from[k] < from[l]
    ensures forall i :: 0 <= i < |rs| && rs[i].Qualifies() ==> i in from
  {
    from := KeepIsFilter(m, rs);
    forall i | 0 <= i < |rs|
      ensures Verdict(m, rs, i) == if rs[i].Qualifies() then Some(rs[i].Padded()) else None
    {
      JudgedAlone(rs[i], After(m, rs[..i]).slot);
    }
  }

  lemma AfterStep(m: seq<byte>, rs: seq<Response>, i: nat)
    requires AllFit(rs) && i < |rs|
    ensures After(m, rs[..i + 1]) == Next(m, After(m, rs[..i]), rs[i])
  {
    assert rs[..i + 1][..i] == rs[..i];
  }

  lemma {:induction false} KeepGrows(m: seq<byte>, rs: seq<Response>, i: nat, n: nat)
    requires AllFit(rs) && i <= n <= |rs|
    ensures |Keep(m, rs[..i])| <= |Keep(m, rs[..n])|
    decreases n
  {
    if i < n {
      KeepGrows(m, rs, i, n - 1);
      AfterStep(m, rs, n - 1);
    }
  }

  // ----- The end of the list

  /** The first call has to succeed, with the signature, and to announce a second entry. */
  predicate FirstCallFails(r: Response) {
    r.carry || r.signature != SMAP || r.continuation == 0
  }

  /** Answer i ends the list: it is the last one, or an error that takes the place of one. */
  predicate Stops(rs: seq<Response>, i: nat)
    requires i < |rs|
  {
    rs[i].continuation == 0 || (i > 0 && rs[i].carry)
  }

  predicate Ends(rs: seq<Response>) {
    exists i :: 0 <= i < |rs| && Stops(rs, i)
  }

  /** How many answers are looked at as entries. */
  ghost function Examined(rs: seq<Response>): (n: nat)
    requires Ends(rs)
    ensures n <= |rs|
  {
    FirstStop(rs);
    var i :| 0 <= i < |rs| && Stops(rs, i) && forall k :: 0 <= k < i ==> !Stops(rs, k);
    if i > 0 && rs[i].carry then i else i + 1
  }

  lemma FirstStop(rs: seq<Response>)
    requires Ends(rs)
    ensures exists i :: 0 <= i < |rs| && Stops(rs, i) && forall k :: 0 <= k < i ==> !Stops(rs, k)
  {
    var i :| 0 <= i < |rs| && Stops(rs, i);
    if k :| 0 <= k < i && Stops(rs, k) {
      assert Stops(rs[..i], k);
      FirstStop(rs[..i]);
      var j :| 0 <= j < i && Stops(rs[..i], j) && forall k :: 0 <= k < j ==> !Stops(rs[..i], k);
      assert Stops(rs, j);
      assert forall k :: 0 <= k < j ==> Stops(rs, k) == Stops(rs[..i], k);
    }
  }

  lemma ExaminedIs(rs: seq<Response>, i: nat)
    requires i < |rs| && Stops(rs, i) && forall k :: 0 <= k < i ==> !Stops(rs, k)
    ensures Ends(rs) && Examined(rs) == if i > 0 && rs[i].carry then i else i + 1
  {
  }

  /** Which answers are looked at: all up to the first whose continuation value is 0, that one
      included, or up to the first, but the very first, that reports an error, that one excluded. */
  lemma ExaminedExactly(rs: seq<Response>, n: nat)
    requires Ends(rs) && 0 < n <= |rs|
    ensures n == Examined(rs) <==>
      && (forall k :: 0 < k < n ==> !rs[k].carry)
      && (forall k :: 0 <= k < n - 1 ==> rs[k].continuation != 0)
      && (rs[n - 1].continuation == 0 || (n < |rs| && rs[n].carry))
  {
    FirstStop(rs);
    var i :| 0 <= i < |rs| && Stops(rs, i) && forall k :: 0 <= k < i ==> !Stops(rs, k);
    ExaminedIs(rs, i);
    forall k | 0 <= k < i ensures rs[k].continuation != 0 && (k > 0 ==> !rs[k].carry) {
      assert !Stops(rs, k);
    }
    if (forall k :: 0 < k < n ==> !rs[k].carry) && (forall k :: 0 <= k < n - 1 ==> rs[k].continuation != 0) {
      assert i >= n - 1;
      if rs[n - 1].continuation == 0 {
        assert Stops(rs, n - 1);
      } else if n < |rs| && rs[n].carry {
        assert Stops(rs, n);
      }
    }
  }

  /** Room for the kept entries and for the slot behind them, in one 64 KB segment. */
  predicate Roomy(count: nat) {
    TABLE + ENTRY * (count + 1) <= SEGMENT
  }

  /** The scan is about to examine answer i, being in state s. */
  ghost predicate Scanning(m: seq<byte>, rs: seq<Response>, i: int, s: Scan) {
    && AllFit(rs) && 0 <= i < |rs|
    && (forall k :: 0 <= k < i ==> !Stops(rs, k))
    && !(i > 0 && rs[i].carry)
    && s == After(m, rs[..i])
  }

  lemma ScanStep(m: seq<byte>, rs: seq<Response>, i: nat, s: Scan)
    requires Scanning(m, rs, i, s) && Ends(rs)
    ensures |s.slot| == ENTRY && Next(m, s, rs[i]) == After(m, rs[..i + 1])
    ensures i + 1 <= Examined(rs)
    ensures rs[i].continuation == 0 ==> Examined(rs) == i + 1
    ensures rs[i].continuation != 0 ==>
      && i + 1 < |rs|
      && (rs[i + 1].carry ==> Examined(rs) == i + 1)
      && (!rs[i + 1].carry ==> Scanning(m, rs, i + 1, Next(m, s, rs[i])))
  {
    AfterStep(m, rs, i);
    if rs[i].continuation == 0 {
      ExaminedIs(rs, i);
    } else if rs[i + 1].carry {
      ExaminedIs(rs, i + 1);
    }
  }

  // ----- The loop

  class Collector {
    const mem: array<byte>

    predicate Valid() { mem.Length == SEGMENT }

    /** Slot k of the table. */
    ghost function Slot(k: nat): seq<byte>
      requires Valid() && Roomy(k)
      reads mem
    {
      mem[TABLE + ENTRY * k..TABLE + ENTRY * (k + 1)]
    }

    /** The table holds exactly these entries. */
    ghost predicate Holds(es: seq<seq<byte>>)
      requires Valid() && Roomy(|es|)
      reads mem
    {
      forall k :: 0 <= k < |es| ==> Slot(k) == es[k]
    }

    /** Table and next slot are as in s, and memory behind them as it was. */
    ghost predicate Ready(m: seq<byte>, s: Scan)
      reads mem
    {
      && Valid() && |m| == SEGMENT && Roomy(|s.es|) && |s.slot| == ENTRY
      && Holds(s.es) && Slot(|s.es|) == s.slot
      && forall a :: TABLE + ENTRY * (|s.es| + 1) <= a < SEGMENT ==> mem[a] == m[a]
    }

    /** Prepares the slot and lets the BIOS answer into it. */
    method Ask(di: nat, r: Response)
      requires Valid() && r.Fits() && di + ENTRY <= SEGMENT
      modifies mem
      ensures mem[di..di + ENTRY] == r.Entry(old(mem[di..di + ENTRY]))
      ensures forall a :: 0 <= a < SEGMENT && !(di <= a < di + ENTRY) ==> mem[a] == old(mem[a])
    {
      ghost var slot := mem[di..di + ENTRY];
      mem[di + 20], mem[di + 21], mem[di + 22], mem[di + 23] := 1, 0, 0, 0;
      for i := 0 to |r.data|
        invariant forall a :: 0 <= a < SEGMENT && !(di <= a < di + ENTRY) ==> mem[a] == old(mem[a])
        invariant forall k :: 0 <= k < ENTRY ==>
          mem[di + k] == if k < i then r.data[k] else if k >= 20 then Prepared(k) else slot[k]
      {
        mem[di + i] := r.data[i];
      }
      assert forall k :: 0 <= k < ENTRY ==> mem[di + k] == r.Entry(slot)[k];
    }

    /** Asks into the slot behind the table. */
    method AskNext(r: Response, ghost m: seq<byte>, ghost s: Scan, bp: nat)
      requires Ready(m, s) && r.Fits() && bp == |s.es|
      modifies mem
      ensures Ready(m, s.(slot := r.Entry(s.slot)))
      ensures forall a :: 0 <= a < TABLE ==> mem[a] == old(mem[a])
    {
      Ask(TABLE + ENTRY * bp, r);
      forall k | 0 <= k < |s.es| ensures Slot(k) == s.es[k] {
        assert old(Slot(k)) == s.es[k];
      }
    }

    /** The tests on an answered slot. */
    method Accepts(di: nat, r: Response, ghost slot: seq<byte>) returns (keep: bool)
      requires Valid() && r.Fits() && |slot| == ENTRY && di + ENTRY <= SEGMENT
      requires mem[di..di + ENTRY] == r.Entry(slot)
      ensures keep == r.Kept(slot)
    {
      if r.size % 0x1_0000 == 0 { return false; }
      ghost var e := mem[di..di + ENTRY];
      assert mem[di + 20] == e[20];
      if r.size % 0x100 > 20 && mem[di + 20] % 2 == 0 { return false; }
      var low, high := WordAt(mem[di..di + ENTRY], 8), WordAt(mem[di..di + ENTRY], 12);
      return low != 0 || high != 0;
    }

    method CreateMemoryMap(rs: seq<Response>) returns (failed: bool, bp: nat)
      requires Valid() && AllFit(rs) && rs != []
      requires FirstCallFails(rs[0]) || (Ends(rs) && Roomy(|Keep(mem[..], rs[..Examined(rs)])|))
      modifies mem
      ensures failed == FirstCallFails(rs[0])
      ensures failed <==> rs[0].carry || rs[0].signature != 0x534D_4150 || rs[0].continuation == 0
      ensures failed ==> forall a :: 0 <= a < TABLE ==> mem[a] == old(mem[a])
      ensures !failed ==>
        var es := Keep(old(mem[..]), rs[..Examined(rs)]);
        bp == |es| && Roomy(bp) && Holds(es) && mem[0x8000] == bp % 0x100 && mem[0x8001] == bp / 0x100
      ensures forall a :: 0 <= a < 0x8004 && a != 0x8000 && a != 0x8001 ==> mem[a] == old(mem[a])
    {
      ghost var m := mem[..];
      ghost var s := After(m, []);
      assert rs[..0] == [];
      var di := TABLE;
      bp := 0;
      failed := false;
      AskNext(rs[0], m, s, bp);
      if rs[0].carry || rs[0].signature != SMAP || rs[0].continuation == 0 { return true, bp; }
      var i := 0;
      while true
        invariant Scanning(m, rs, i, s)
        invariant Ready(m, s.(slot := rs[i].Entry(s.slot))) && bp == |s.es| && di == TABLE + ENTRY * bp
        invariant forall a :: 0 <= a < TABLE ==> mem[a] == old(mem[a])
        decreases |rs| - i
      {
        ScanStep(m, rs, i, s);
        KeepGrows(m, rs, i + 1, Examined(rs));
        bp, di := Examine(di, bp, rs[i], m, s);
        s := Next(m, s, rs[i]);
        if rs[i].continuation == 0 { break; }
        i := i + 1;
        AskNext(rs[i], m, s, bp);
        if rs[i].carry { break; }
      }
      StoreCount(bp, s.es);
    }

    /** Moves on to the next slot if the answer is to be kept. */
    method Examine(di: nat, bp: nat, r: Response, ghost m: seq<byte>, ghost s: Scan) returns (bp': nat, di': nat)
      requires |s.slot| == ENTRY && r.Fits() && Ready(m, s.(slot := r.Entry(s.slot)))
      requires bp == |s.es| && di == TABLE + ENTRY * bp && Roomy(|Next(m, s, r).es|)
      ensures bp' == |Next(m, s, r).es| && di' == TABLE + ENTRY * bp' && Ready(m, Next(m, s, r))
    {
      var keep := Accepts(di, r, s.slot);
      bp', di' := bp, di;
      if keep {
        bp' := bp + 1;
        di' := di + ENTRY;
      }
    }

    method StoreCount(bp: nat, ghost es: seq<seq<byte>>)
      requires Valid() && Roomy(bp) && bp == |es| && Holds(es)
      modifies mem
      ensures Holds(es) && mem[COUNT_AT] == bp % 0x100 && mem[COUNT_AT + 1] == bp / 0x100
      ensures forall a :: 0 <= a < TABLE && !(COUNT_AT <= a < COUNT_AT + 2) ==> mem[a] == old(mem[a])
    {
      mem[COUNT_AT], mem[COUNT_AT + 1] := bp % 0x100, bp / 0x100;
      forall k | 0 <= k < |es| ensures Slot(k) == es[k] {
        assert old(Slot(k)) == es[k];
      }
    }
  }
}
