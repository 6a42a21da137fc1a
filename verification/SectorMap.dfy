/** The sector bitmap of the file system (Old/Source/Kernel/FileSystem.c): one bit for each sector
    of the floppy, kept in memory and saved in a sector of the disk it describes. */
module SectorMap {
  import opened Words
  import opened FloppyController

  /** The bytes of the map proper, and of the structure with its two counters. */
  const GROUPS := 360
  const MAP_BYTES := 364

  // ----- Bits

  /** Sectors are numbered from the most significant bit of each group down. */
  function Mask(k: nat): bv8
    requires k < 8
  {
    if k == 0 then 0x80 else if k == 1 then 0x40 else if k == 2 then 0x20 else if k == 3 then 0x10
    else if k == 4 then 0x08 else if k == 5 then 0x04 else if k == 6 then 0x02 else 0x01
  }

  predicate BitSet(group: bv8, k: nat)
    requires k < 8
  {
    group & Mask(k) != 0
  }

  /** The shifts of the source pick out exactly that bit. */
  lemma ShiftsAreMask(k: nat)
    requires k < 8
    ensures 0x80 as bv8 >> k == Mask(k) && 1 as bv8 << (7 - k) == Mask(k)
  {
    if k == 0 { assert 0x80 as bv8 >> 0 == 0x80 && 1 as bv8 << 7 == 0x80; }
    else if k == 1 { assert 0x80 as bv8 >> 1 == 0x40 && 1 as bv8 << 6 == 0x40; }
    else if k == 2 { assert 0x80 as bv8 >> 2 == 0x20 && 1 as bv8 << 5 == 0x20; }
    else if k == 3 { assert 0x80 as bv8 >> 3 == 0x10 && 1 as bv8 << 4 == 0x10; }
    else if k == 4 { assert 0x80 as bv8 >> 4 == 0x08 && 1 as bv8 << 3 == 0x08; }
    else if k == 5 { assert 0x80 as bv8 >> 5 == 0x04 && 1 as bv8 << 2 == 0x04; }
    else if k == 6 { assert 0x80 as bv8 >> 6 == 0x02 && 1 as bv8 << 1 == 0x02; }
    else { assert 0x80 as bv8 >> 7 == 0x01 && 1 as bv8 << 0 == 0x01; }
  }

  lemma MasksApart(j: nat, k: nat)
    requires j < 8 && k < 8 && j != k
    ensures Mask(k) & Mask(j) == 0
  {
  }

  lemma MaskPicks(group: bv8, k: nat)
    requires k < 8
    ensures group & Mask(k) == 0 || group & Mask(k) == Mask(k)
    ensures Mask(k) != 0
  {
  }

  /** Shifting the picked bit down gives 0 or 1. */
  lemma ShiftedBit(group: bv8, k: nat)
    requires k < 8
    ensures (group & Mask(k)) >> (7 - k) == if BitSet(group, k) then 1 else 0
  {
    MaskPicks(group, k);
    ShiftedMask(k);
  }

  lemma ShiftedMask(k: nat)
    requires k < 8
    ensures Mask(k) >> (7 - k) == 1 && 0 as bv8 >> (7 - k) == 0
  {
    if k == 0 { assert 0x80 as bv8 >> 7 == 1 && 0 as bv8 >> 7 == 0; }
    else if k == 1 { assert 0x40 as bv8 >> 6 == 1 && 0 as bv8 >> 6 == 0; }
    else if k == 2 { assert 0x20 as bv8 >> 5 == 1 && 0 as bv8 >> 5 == 0; }
    else if k == 3 { assert 0x10 as bv8 >> 4 == 1 && 0 as bv8 >> 4 == 0; }
    else if k == 4 { assert 0x08 as bv8 >> 3 == 1 && 0 as bv8 >> 3 == 0; }
    else if k == 5 { assert 0x04 as bv8 >> 2 == 1 && 0 as bv8 >> 2 == 0; }
    else if k == 6 { assert 0x02 as bv8 >> 1 == 1 && 0 as bv8 >> 1 == 0; }
    else { assert 0x01 as bv8 >> 0 == 1 && 0 as bv8 >> 0 == 0; }
  }

  /** The bits counted from the most significant one down. */
  lemma BitInNumbers(group: bv8, k: nat)
    requires k < 8
    ensures (group >> (7 - k)) & 1 == if BitSet(group, k) then 1 else 0
  {
    if k == 0 { assert group & 0x80 != 0 <==> (group >> 7) & 1 == 1; }
    else if k == 1 { assert group & 0x40 != 0 <==> (group >> 6) & 1 == 1; }
    else if k == 2 { assert group & 0x20 != 0 <==> (group >> 5) & 1 == 1; }
    else if k == 3 { assert group & 0x10 != 0 <==> (group >> 4) & 1 == 1; }
    else if k == 4 { assert group & 0x08 != 0 <==> (group >> 3) & 1 == 1; }
    else if k == 5 { assert group & 0x04 != 0 <==> (group >> 2) & 1 == 1; }
    else if k == 6 { assert group & 0x02 != 0 <==> (group >> 1) & 1 == 1; }
    else { assert group & 0x01 != 0 <==> (group >> 0) & 1 == 1; }
  }

  lemma XorUnderMask(g: bv8, m: bv8, n: bv8)
    ensures (g ^ m) & n == (g & n) ^ (m & n)
    ensures m & m == m && m ^ m == 0 && 0 ^ m == m && m ^ 0 == m
  {
  }

  /** Toggling one bit changes that bit and no other. */
  lemma FlipBit(group: bv8, k: nat, j: nat)
    requires k < 8 && j < 8
    ensures BitSet(group ^ Mask(k), j) == if j == k then !BitSet(group, k) else BitSet(group, j)
  {
    XorUnderMask(group, Mask(k), Mask(j));
    XorUnderMask(group, group & Mask(j), Mask(j));
    MaskPicks(group, k);
    if j != k { MasksApart(j, k); }
  }

  // ----- The map

  /** Sector s is marked as used. */
  predicate Used(m: seq<bv8>, s: nat)
    requires |m| == MAP_BYTES && s < SECTORS
  {
    BitSet(m[s / 8], s % 8)
  }

  /** Toggles the bit of a sector if it is not what it should be. */
  function Mark(m: seq<bv8>, s: nat, used: bool): (r: seq<bv8>)
    requires |m| == MAP_BYTES && s < SECTORS
    ensures |r| == MAP_BYTES
  {
    if Used(m, s) == used then m else m[s / 8 := m[s / 8] ^ Mask(s % 8)]
  }

  /** Marking a sector settles that sector, leaves every other one as it was, and does not touch
      the two counters behind the map. */
  lemma MarkIsUpdate(m: seq<bv8>, s: nat, used: bool, s': nat)
    requires |m| == MAP_BYTES && s < SECTORS && s' < SECTORS
    ensures Used(Mark(m, s, used), s') == if s' == s then used else Used(m, s')
    ensures Mark(m, s, used)[360..] == m[360..]
  {
    FlipBit(m[s / 8], s % 8, s' % 8);
    assert s == s / 8 * 8 + s % 8 && s' == s' / 8 * 8 + s' % 8;
  }

  /** One bit of a group, counted from the most significant one, has been made what it should be. */
  predicate BitMade(was: bv8, now: bv8, k: nat, used: bool)
    requires k < 8
  {
    (now >> (7 - k)) & 1 == (if used then 1 else 0) && (now == was || now == was ^ (0x80 as bv8 >> k))
  }

  lemma GroupMarked(group: bv8, k: nat, used: bool)
    requires k < 8
    ensures BitMade(group, if BitSet(group, k) == used then group else group ^ Mask(k), k, used)
  {
    var mask := 0x80 as bv8 >> k;
    assert mask == Mask(k) by { ShiftsAreMask(k); }
    if BitSet(group, k) == used {
      BitInNumbers(group, k);
    } else {
      FlippedBit(group, k);
    }
  }

  lemma FlippedBit(group: bv8, k: nat)
    requires k < 8
    ensures ((group ^ Mask(k)) >> (7 - k)) & 1 == if BitSet(group, k) then 0 else 1
  {
    FlipBit(group, k, k);
    BitInNumbers(group ^ Mask(k), k);
  }

  /** The bit of the sector has been made what it should be, and every other group is as it was. */
  predicate OneBit(was: seq<bv8>, now: seq<bv8>, s: nat, used: bool) {
    && |was| == |now| && s / 8 < |now|
    && BitMade(was[s / 8], now[s / 8], s % 8, used)
    && forall i :: 0 <= i < |now| && i != s / 8 ==> now[i] == was[i]
  }

  lemma MarkIsOneBit(m: seq<bv8>, s: nat, used: bool)
    requires |m| == MAP_BYTES && s < SECTORS
    ensures OneBit(m, Mark(m, s, used), s, used)
  {
    GroupMarked(m[s / 8], s % 8, used);
  }

  /** The map proper is determined by which sectors are used. */
  lemma SameUsedSameMap(m: seq<bv8>, n: seq<bv8>)
    requires |m| == MAP_BYTES && |n| == MAP_BYTES && m[GROUPS..] == n[GROUPS..]
    requires forall s :: 0 <= s < SECTORS ==> Used(m, s) == Used(n, s)
    ensures m == n
  {
    forall i | 0 <= i < MAP_BYTES ensures m[i] == n[i] {
      if i < GROUPS {
        forall k | 0 <= k < 8 ensures BitSet(m[i], k) == BitSet(n[i], k) {
          assert (i * 8 + k) / 8 == i && (i * 8 + k) % 8 == k;
          assert Used(m, i * 8 + k) == Used(n, i * 8 + k);
        }
        SameBits(m[i], n[i]);
      } else {
        assert m[GROUPS..][i - GROUPS] == n[GROUPS..][i - GROUPS];
      }
    }
  }

  lemma SameBits(g: bv8, h: bv8)
    requires forall k :: 0 <= k < 8 ==> BitSet(g, k) == BitSet(h, k)
    ensures g == h
  {
    assert BitSet(g, 0) == BitSet(h, 0) && BitSet(g, 1) == BitSet(h, 1);
    assert BitSet(g, 2) == BitSet(h, 2) && BitSet(g, 3) == BitSet(h, 3);
    assert BitSet(g, 4) == BitSet(h, 4) && BitSet(g, 5) == BitSet(h, 5);
    assert BitSet(g, 6) == BitSet(h, 6) && BitSet(g, 7) == BitSet(h, 7);
  }

  /** Marking is idempotent, and marks on different sectors commute. */
  lemma MarksCommute(m: seq<bv8>, s: nat, a: bool, t: nat, b: bool)
    requires |m| == MAP_BYTES && s < SECTORS && t < SECTORS
    ensures Mark(Mark(m, s, a), s, a) == Mark(m, s, a)
    ensures s != t ==> Mark(Mark(m, s, a), t, b) == Mark(Mark(m, t, b), s, a)
  {
    MarkIsUpdate(m, s, a, s);
    if s != t {
      var x, y := Mark(Mark(m, s, a), t, b), Mark(Mark(m, t, b), s, a);
      forall u | 0 <= u < SECTORS ensures Used(x, u) == Used(y, u) {
        MarkIsUpdate(m, s, a, u);
        MarkIsUpdate(Mark(m, s, a), t, b, u);
        MarkIsUpdate(m, t, b, u);
        MarkIsUpdate(Mark(m, t, b), s, a, u);
      }
      MarkIsUpdate(m, s, a, 0);
      MarkIsUpdate(Mark(m, s, a), t, b, 0);
      MarkIsUpdate(m, t, b, 0);
      MarkIsUpdate(Mark(m, t, b), s, a, 0);
      SameUsedSameMap(x, y);
    }
  }

  // ----- Runs against a set of sectors

  datatype Marking = Marking(sector: nat, used: bool)

  predicate OnDiskOnly(ms: seq<Marking>) {
    forall i :: 0 <= i < |ms| ==> ms[i].sector < SECTORS
  }

  function MarkAll(m: seq<bv8>, ms: seq<Marking>): (r: seq<bv8>)
    requires |m| == MAP_BYTES && OnDiskOnly(ms)
    ensures |r| == MAP_BYTES
    decreases ms
  {
    if ms == [] then m else MarkAll(Mark(m, ms[0].sector, ms[0].used), ms[1..])
  }

  function SetAll(used: set<nat>, ms: seq<Marking>): set<nat>
    decreases ms
  {
    if ms == [] then used
    else SetAll(if ms[0].used then used + {ms[0].sector} else used - {ms[0].sector}, ms[1..])
  }

  /** Any sequence of markings is the same sequence of additions to and removals from a set. */
  lemma {:induction false} BitmapIsSet(m: seq<bv8>, used: set<nat>, ms: seq<Marking>)
    requires |m| == MAP_BYTES && OnDiskOnly(ms)
    requires forall s :: 0 <= s < SECTORS ==> (Used(m, s) <==> s in used)
    ensures forall s :: 0 <= s < SECTORS ==> (Used(MarkAll(m, ms), s) <==> s in SetAll(used, ms))
    ensures MarkAll(m, ms)[GROUPS..] == m[GROUPS..]
    decreases ms
  {
    if ms != [] {
      var q := ms[0];
      var next := if q.used then used + {q.sector} else used - {q.sector};
      MarkIsUpdate(m, q.sector, q.used, 0);
      forall s | 0 <= s < SECTORS ensures Used(Mark(m, q.sector, q.used), s) <==> s in next {
        MarkIsUpdate(m, q.sector, q.used, s);
      }
      BitmapIsSet(Mark(m, q.sector, q.used), next, ms[1..]);
    }
  }

  // ----- The file system's copy

  method PickBit(group: bv8, offset: nat) returns (status: bv8)
    requires offset < 8
    ensures status == if BitSet(group, offset) then 1 else 0
  {
    ShiftsAreMask(offset);
    ShiftedBit(group, offset);
    var bit := 0x80 as bv8 >> offset;
    status := (group & bit) >> (7 - offset);
  }

  method ToggleBit(group: bv8, offset: nat) returns (toggled: bv8)
    requires offset < 8
    ensures toggled == group ^ Mask(offset)
  {
    ShiftsAreMask(offset);
    toggled := group ^ (1 as bv8 << (7 - offset));
  }

  class FileSystem {
    const fdc: Fdc
    const sectorMapLba: nat
    const map_: array<bv8>

    ghost predicate Valid()
      reads this, fdc
    {
      map_.Length == MAP_BYTES && fdc.Valid()
    }

    /** A zeroed static map over an existing drive. */
    constructor (fdc: Fdc, sectorMapLba: nat)
      requires fdc.Valid()
      ensures Valid() && this.fdc == fdc && this.sectorMapLba == sectorMapLba && fresh(map_)
    {
      this.fdc, this.sectorMapLba := fdc, sectorMapLba;
      map_ := new bv8[MAP_BYTES](_ => 0);
    }

    method GetSectorStatus(sector: nat) returns (status: bv8)
      requires map_.Length == MAP_BYTES && sector < SECTORS
      ensures status == if Used(map_[..], sector) then 1 else 0
      ensures status == (map_[sector / 8] >> (7 - sector % 8)) & 1
    {
      BitInNumbers(map_[sector / 8], sector % 8);
      var groupId, offset := sector / 8, sector % 8;
      status := PickBit(map_[groupId], offset);
    }

    method SetSectorStatus(sector: nat, status: bv8)
      requires map_.Length == MAP_BYTES && sector < SECTORS
      modifies map_
      ensures map_[..] == Mark(old(map_[..]), sector, status != 0)
      ensures OneBit(old(map_[..]), map_[..], sector, status != 0)
    {
      var wanted: bv8 := if status != 0 then 1 else 0;
      var groupId, offset := sector / 8, sector % 8;
      var group := map_[groupId];
      var current := PickBit(group, offset);
      if current != wanted {
        group := ToggleBit(group, offset);
        map_[groupId] := group;
      }
      MarkIsOneBit(old(map_[..]), sector, status != 0);
    }

    /** Reads the sector of the map and copies its first bytes. */
    method LoadSectorMap() returns (done: bool)
      requires Valid()
      modifies fdc, map_
      ensures done == (sectorMapLba >= SECTORS || Arrives(old(fdc.reports), sectorMapLba))
      ensures done ==> Valid() && fdc.View() == Drives(old(fdc.View()), old(fdc.reports), Read(sectorMapLba))
      ensures done ==> map_[..] == fdc.drive.buffer[..364]
      ensures !done ==> map_[..] == old(map_[..]) && fdc.drive.disk == old(fdc.drive).disk
      ensures sectorMapLba < SECTORS && InTime(old(fdc.reports), sectorMapLba) ==>
        done && map_[..] == Loaded(old(fdc.drive).disk, sectorMapLba)
    {
      done := fdc.ReadLba(sectorMapLba);
      if !done { return; }
      for i := 0 to MAP_BYTES
        invariant map_[..i] == fdc.drive.buffer[..i]
        modifies map_
      {
        map_[i] := fdc.drive.buffer[i];
      }
      assert map_[..] == map_[..MAP_BYTES];
    }

    /** Reads the sector of the map for the bytes behind it, overwrites the map in the buffer and
        writes the sector back. When the seek of the read is late, the bytes behind the map are
        taken from whatever the buffer held before: nothing but the map changes on the disk exactly if
        the read was in time, the write was late, or the buffer ended as the sector does. */
    method WriteSectorMapChanges() returns (done: bool)
      requires Valid()
      modifies fdc
      ensures done == (sectorMapLba >= SECTORS || BothArrive(old(fdc.reports)))
      ensures done ==> Valid()
      ensures sectorMapLba < SECTORS && done ==>
        && fdc.reports == Remaining(Remaining(old(fdc.reports), sectorMapLba), sectorMapLba)
        && var first, second := old(fdc.reports), Remaining(old(fdc.reports), sectorMapLba);
           var tail := if InTime(first, sectorMapLba) then old(fdc.drive).disk[sectorMapLba] else old(fdc.drive).buffer;
           fdc.drive.disk ==
             if InTime(second, sectorMapLba) then old(fdc.drive).disk[sectorMapLba := map_[..] + tail[364..]]
             else old(fdc.drive).disk
      ensures sectorMapLba < SECTORS && done && InTime(old(fdc.reports), sectorMapLba)
              && InTime(Remaining(old(fdc.reports), sectorMapLba), sectorMapLba) ==>
        fdc.drive.disk == Saved(old(fdc.drive).disk, sectorMapLba, map_[..])
      ensures sectorMapLba < SECTORS && done ==>
        (OnlyMapChanged(old(fdc.drive).disk, fdc.drive.disk, sectorMapLba) <==>
           || InTime(old(fdc.reports), sectorMapLba)
           || !InTime(Remaining(old(fdc.reports), sectorMapLba), sectorMapLba)
           || old(fdc.drive).buffer[364..] == old(fdc.drive).disk[sectorMapLba][364..])
      ensures sectorMapLba >= SECTORS || !done ==> fdc.drive.disk == old(fdc.drive).disk
      ensures sectorMapLba >= SECTORS ==> fdc.reports == old(fdc.reports)
    {
      done := fdc.ReadLba(sectorMapLba);
      if !done { return; }
      ghost var tail := fdc.drive.buffer[MAP_BYTES..];
      CopyToBuffer();
      done := fdc.WriteLba(sectorMapLba);
      if sectorMapLba < SECTORS { OnlyMapChangedExactly(old(fdc.drive).disk, sectorMapLba, map_[..], tail); }
    }

    /** The map goes to the front of the buffer. */
    method CopyToBuffer()
      requires Valid()
      modifies fdc`drive
      ensures Valid() && fdc.drive.disk == old(fdc.drive).disk
      ensures fdc.drive.buffer == map_[..] + old(fdc.drive).buffer[364..]
    {
      ghost var sector := fdc.drive.buffer;
      for i := 0 to MAP_BYTES
        invariant Valid() && fdc.drive.disk == old(fdc.drive).disk
        invariant fdc.drive.buffer == map_[..i] + sector[i..]
      {
        fdc.PokeBuffer(i, map_[i]);
      }
      assert map_[..] == map_[..MAP_BYTES];
    }

    predicate BothArrive(reports: seq<byte>) {
      Arrives(reports, sectorMapLba) && Arrives(Remaining(reports, sectorMapLba), sectorMapLba)
    }

    // ----- Persistence

    /** A run of markings. */
    method MarkEach(ms: seq<Marking>)
      requires map_.Length == MAP_BYTES && OnDiskOnly(ms)
      modifies map_
      ensures map_[..] == MarkAll(old(map_[..]), ms)
      decreases ms
    {
      if ms != [] {
        SetSectorStatus(ms[0].sector, if ms[0].used then 1 else 0);
        MarkEach(ms[1..]);
      }
    }

    /** The copy in memory is lost. */
    method Lose(junk: seq<bv8>)
      requires map_.Length == MAP_BYTES == |junk|
      modifies map_
      ensures map_[..] == junk
    {
      for i := 0 to MAP_BYTES
        invariant map_[..i] == junk[..i]
      {
        map_[i] := junk[i];
      }
      assert map_[..] == map_[..MAP_BYTES] && junk == junk[..MAP_BYTES];
    }

    /** Markings, a save, any loss of the copy in memory, a load, and a query. With the three seeks
        in time, the load brings back what the markings made of the map; the answer to the query is
        that of a set of sectors; and nothing but the map has changed on the disk. */
    method SaveLoseLoad(ms: seq<Marking>, junk: seq<bv8>, sector: nat, ghost used: set<nat>)
      returns (done: bool, status: bv8)
      requires Valid() && sectorMapLba < SECTORS && OnDiskOnly(ms) && |junk| == MAP_BYTES && sector < SECTORS
      requires AllInTime(fdc.reports, [Read(sectorMapLba), Write(sectorMapLba), Read(sectorMapLba)])
      requires forall s :: 0 <= s < SECTORS ==> (Used(map_[..], s) <==> s in used)
      modifies fdc, map_
      ensures done && Valid()
      ensures map_[..] == MarkAll(old(map_[..]), ms)
      ensures status == if sector in SetAll(used, ms) then 1 else 0
      ensures OnlyMapChanged(old(fdc.drive).disk, fdc.drive.disk, sectorMapLba)
    {
      ThreeInTime(fdc.reports, sectorMapLba);
      BitmapIsSet(map_[..], used, ms);
      MarkEach(ms);
      ghost var marked := map_[..];
      done := WriteSectorMapChanges();
      SavedIsLoaded(old(fdc.drive).disk, sectorMapLba, marked);
      Lose(junk);
      done := LoadSectorMap();
      status := GetSectorStatus(sector);
    }

    /** 500 wrong reports before the read's seek arrives, and a write in time: the save returns, and
        the bytes behind the map on the disk are those the buffer ended with. */
    method SaveLate() returns (done: bool)
      requires Valid() && sectorMapLba < SECTORS
      requires fdc.reports == LateReports(sectorMapLba) + [Cylinder(sectorMapLba)]
      requires fdc.drive.buffer[MAP_BYTES..] != fdc.drive.disk[sectorMapLba][MAP_BYTES..]
      modifies fdc
      ensures done && Valid() && !OnlyMapChanged(old(fdc.drive).disk, fdc.drive.disk, sectorMapLba)
      ensures fdc.drive.disk[sectorMapLba] == map_[..] + old(fdc.drive).buffer[MAP_BYTES..]
    {
      LateThenInTime(sectorMapLba);
      done := WriteSectorMapChanges();
    }
  }

  lemma LateThenInTime(lba: nat)
    ensures var reports := LateReports(lba) + [Cylinder(lba)];
      && Arrives(reports, lba) && !InTime(reports, lba)
      && Remaining(reports, lba) == [Cylinder(lba)] && InTime([Cylinder(lba)], lba)
  {
    var reports := LateReports(lba) + [Cylinder(lba)];
    assert reports[TRIES] == Cylinder(lba);
    assert FirstReport(reports, Cylinder(lba)) == TRIES;
    assert [Cylinder(lba)][0] == Cylinder(lba);
  }

  /** What the timeliness of a read, a write and a read of one sector says about the reports. */
  lemma ThreeInTime(reports: seq<byte>, lba: nat)
    requires lba < SECTORS && AllInTime(reports, [Read(lba), Write(lba), Read(lba)])
    ensures InTime(reports, lba) && InTime(Remaining(reports, lba), lba)
    ensures InTime(Remaining(Remaining(reports, lba), lba), lba)
  {
    assert [Read(lba), Write(lba), Read(lba)][1..] == [Write(lba), Read(lba)];
    var second := Remaining(reports, lba);
    assert AllInTime(second, [Write(lba), Read(lba)]);
    assert [Write(lba), Read(lba)][1..] == [Read(lba)];
    assert AllInTime(Remaining(second, lba), [Read(lba)]);
  }

  /** The first 364 bytes of the map's sector are all that differs. */
  ghost predicate OnlyMapChanged(was: seq<Sector>, now: seq<Sector>, lba: nat) {
    && |was| == |now| == SECTORS && lba < SECTORS
    && now[lba][364..] == was[lba][364..]
    && forall k :: 0 <= k < SECTORS && k != lba ==> now[k] == was[k]
  }

  lemma OnlyMapChangedExactly(disk: seq<Sector>, lba: nat, m: seq<bv8>, tail: seq<bv8>)
    requires |disk| == SECTORS && lba < SECTORS && |m| == MAP_BYTES && |tail| == SECTOR_BYTES - MAP_BYTES
    ensures OnlyMapChanged(disk, disk[lba := m + tail], lba) <==> tail == disk[lba][MAP_BYTES..]
  {
    assert (m + tail)[MAP_BYTES..] == tail;
  }

  /** The disk with a map stored in front of its sector; the rest of the sector stays. */
  function Saved(disk: seq<Sector>, lba: nat, m: seq<bv8>): seq<Sector>
    requires |disk| == SECTORS && lba < SECTORS && |m| == MAP_BYTES
  {
    disk[lba := m + disk[lba][MAP_BYTES..]]
  }

  function Loaded(disk: seq<Sector>, lba: nat): (m: seq<bv8>)
    requires |disk| == SECTORS && lba < SECTORS
    ensures |m| == MAP_BYTES
  {
    disk[lba][..MAP_BYTES]
  }

  /** A load undoes a save, which leaves the rest of the disk alone. */
  lemma SavedIsLoaded(disk: seq<Sector>, lba: nat, m: seq<bv8>)
    requires |disk| == SECTORS && lba < SECTORS && |m| == MAP_BYTES
    ensures Loaded(Saved(disk, lba, m), lba) == m
    ensures OnlyMapChanged(disk, Saved(disk, lba, m), lba)
  {
  }
}
