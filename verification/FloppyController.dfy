/** Sector transfers of the floppy driver (BootloaderStage2/FDC.c): the bytes the driver sends to
    the controller, and a model of the drive that only moves a sector when those bytes ask for it
    properly, so that reading and writing can be compared with a plain array of sectors. */
module FloppyController {
  import opened Words

  const SECTORS := 2880
  const SECTOR_BYTES := 512
  const TRIES := 500

  // ----- Addresses

  /** Cylinder, head and sector of a 1.44 MB disk; sectors count from 1. */
  datatype Chs = Chs(cylinder: byte, head: byte, sector: byte)

  predicate OnDisk(a: Chs) {
    a.cylinder < 80 && a.head < 2 && 1 <= a.sector <= 18
  }

  /** The sector the drive finds at an address. */
  function Locate(a: Chs): int {
    (a.cylinder * 2 + a.head) * 18 + a.sector - 1
  }

  function Lba2Chs(lba: nat): Chs {
    Chs(lba / 36 % 0x100, lba % 36 / 18, lba % 36 % 18 + 1)
  }

  /** On every sector of the disk the conversion fits its bytes and the drive decodes it back. */
  lemma ChsRoundTrip(lba: nat)
    requires lba < SECTORS
    ensures OnDisk(Lba2Chs(lba)) && Locate(Lba2Chs(lba)) == lba
  {
    assert lba == lba / 36 * 36 + lba % 36 && lba % 36 == lba % 36 / 18 * 18 + lba % 36 % 18;
  }

  lemma ChsInNumbers(lba: nat)
    requires lba < 2880
    ensures lba / 36 < 80 && lba % 36 / 18 < 2 && lba % 36 % 18 < 18
    ensures Lba2Chs(lba) == Chs(lba / 36, lba % 36 / 18, lba % 36 % 18 + 1)
  {
  }

  /** And every address of the disk is that of a sector below 2880. */
  lemma EverySectorIsCounted(a: Chs)
    requires a.cylinder < 80 && a.head < 2 && 1 <= a.sector <= 18
    ensures 0 <= Locate(a) < SECTORS && Lba2Chs(Locate(a)) == a
  {
    var track, lba := a.cylinder * 2 + a.head, Locate(a);
    assert lba == a.cylinder * 36 + (a.head * 18 + (a.sector - 1));
    assert lba / 36 == a.cylinder && lba % 36 == a.head * 18 + (a.sector - 1);
  }

  // ----- The drive

  type Sector = s: seq<bv8> | |s| == SECTOR_BYTES witness seq(SECTOR_BYTES, i => 0)

  /** Drive A behind its controller: whether the controller is out of reset, with its interrupt and DMA
      gate open and drive A selected; the motor bit; the cylinder the last seek asked for, and the one
      the last sense reported; the command bytes received so far; the DMA mode; the sectors; and the
      buffer at 0x7E00. */
  datatype Drive = Drive(listening: bool, motor: bool, sought: byte, cylinder: byte, pending: seq<byte>, dma: byte,
    disk: seq<Sector>, buffer: Sector)

  /** What passes between driver and controller: a digital output register value, a DMA mode, a
      command byte, or the cylinder a sense reports. */
  datatype Event = Dor(v: byte) | Dma(v: byte) | Fifo(v: byte) | Sensed(cylinder: byte)

  const SPECIFY: byte := 3
  const SENSE_INTERRUPT: byte := 8
  const SEEK: byte := 15
  const WRITE_MT_MF: byte := 0xC5
  const READ_MT_MF: byte := 0xC6
  const TO_MEMORY: byte := 0x56
  const FROM_MEMORY: byte := 0x5A

  function CommandLength(op: byte): nat {
    if op == READ_MT_MF || op == WRITE_MT_MF then 9
    else if op == SEEK || op == SPECIFY then 3
    else 1
  }

  /** The data commands: nothing moves unless the motor runs, the arm has been sent to the cylinder asked
      for and has been reported there, the parameters are those of the format, and the DMA direction
      fits the command. */
  function Transfer(d: Drive, c: seq<byte>): Drive
    requires |c| == 9 && |d.disk| == SECTORS
  {
    var a := Chs(c[2], c[3], c[4]);
    if !(d.motor && d.sought == d.cylinder == a.cylinder && OnDisk(a) && c[1] == 4 * a.head) then d
    else if c[5..] != [2, 18, 0x1B, 0xFF] then d
    else if c[0] == READ_MT_MF && d.dma == TO_MEMORY then d.(buffer := d.disk[Locate(a)])
    else if c[0] == WRITE_MT_MF && d.dma == FROM_MEMORY then d.(disk := d.disk[Locate(a) := d.buffer])
    else d
  }

  function React(d: Drive, e: Event): (r: Drive)
    requires |d.disk| == SECTORS
    ensures |r.disk| == SECTORS
  {
    match e
    case Dor(v) =>
      d.(motor := v / 0x10 % 2 == 1, listening := v % 4 == 0 && v / 4 % 2 == 1 && v / 8 % 2 == 1,
         pending := if v / 4 % 2 == 0 then [] else d.pending)
    case Dma(v) => d.(dma := v)
    case Sensed(cylinder) => d.(cylinder := cylinder)
    case Fifo(v) =>
      var c := d.pending + [v];
      if !d.listening then d
      else if |c| < CommandLength(c[0]) then d.(pending := c)
      else if |c| == 9 then Transfer(d.(pending := []), c)
      else if |c| == 3 && c[0] == SEEK then d.(pending := [], sought := c[2])
      else d.(pending := [])
  }

  // ----- What a transfer amounts to

  /** The index of the first report of the cylinder, or the number of reports. */
  function FirstReport(reports: seq<byte>, cylinder: byte): (t: nat)
    ensures t <= |reports|
    ensures t < |reports| ==> reports[t] == cylinder
    ensures forall k :: 0 <= k < t ==> reports[k] != cylinder
  {
    if reports == [] then 0
    else if reports[0] == cylinder then 0
    else 1 + FirstReport(reports[1..], cylinder)
  }

  function Cylinder(lba: nat): byte { lba / 36 % 0x100 }

  /** The seek for a sector ends, given what the drive will report. */
  predicate Arrives(reports: seq<byte>, lba: nat) {
    FirstReport(reports, Cylinder(lba)) < |reports|
  }

  /** It ends before the timeout strikes. */
  predicate InTime(reports: seq<byte>, lba: nat) {
    Arrives(reports, lba) && FirstReport(reports, Cylinder(lba)) < TRIES
  }

  function Remaining(reports: seq<byte>, lba: nat): seq<byte>
    requires Arrives(reports, lba)
  {
    reports[FirstReport(reports, Cylinder(lba)) + 1..]
  }

  /** Whether a seek ends, and in time, said of the reports themselves: the cylinder is among them,
      and among the first 500. */
  lemma ArrivalExactly(reports: seq<byte>, lba: nat)
    requires lba < 2880
    ensures Arrives(reports, lba) <==> lba / 36 in reports
    ensures InTime(reports, lba) <==> exists t :: 0 <= t < |reports| && t < 500 && reports[t] == lba / 36
  {
    var t := FirstReport(reports, Cylinder(lba));
    if t < |reports| { assert reports[t] == lba / 36; }
  }

  /** A 16-bit counter after n increments. */
  function Count16(n: nat): nat {
    if n == 0 then 0
    else if Count16(n - 1) == 0xFFFF then 0
    else Count16(n - 1) + 1
  }

  lemma {:induction false} Count16Reaches(n: nat)
    ensures Count16(n) <= n && (n <= TRIES ==> Count16(n) == n)
  {
    if n > 0 { Count16Reaches(n - 1); }
  }

  // ----- The driver

  class Fdc {
    var drive: Drive
    /** The cylinders the coming senses will report. */
    var reports: seq<byte>
    /** Everything that has passed between driver and controller. */
    ghost var sent: seq<Event>

    predicate Valid()
      reads this
    {
      |drive.disk| == SECTORS && drive.pending == [] && drive.listening
    }

    method Out(e: Event)
      requires |drive.disk| == SECTORS
      modifies this`drive, this`sent
      ensures drive == React(old(drive), e) && sent == old(sent) + [e]
    {
      drive := React(drive, e);
      sent := sent + [e];
    }

    method MotorOn()
      requires Valid()
      modifies this`drive, this`sent
      ensures Valid() && drive == old(drive).(motor := true) && sent == old(sent) + [Dor(0x1C)]
    {
      Out(Dor(0x1C));
    }

    method MotorOff()
      requires Valid()
      modifies this`drive, this`sent
      ensures Valid() && drive == old(drive).(motor := false) && sent == old(sent) + [Dor(0x0C)]
    {
      Out(Dor(0x0C));
    }

    /** The controller is reset, which drops the motor bit. */
    method TimeoutPanic()
      requires Valid()
      modifies this`drive, this`sent
      ensures Valid() && drive == old(drive).(motor := false)
      ensures sent == old(sent) + [Dor(0), Dor(0x0C), Fifo(8), Fifo(8), Fifo(8), Fifo(8), Fifo(3), Fifo(0xDF), Fifo(3)]
    {
      Out(Dor(0));
      Out(Dor(0x0C));
      for i := 0 to 4
        invariant Valid() && drive == old(drive).(motor := false)
        invariant sent == old(sent) + [Dor(0), Dor(0x0C)] + seq(i, _ => Fifo(8))
      {
        Out(Fifo(SENSE_INTERRUPT));
      }
      assert seq(4, _ => Fifo(8)) == [Fifo(8), Fifo(8), Fifo(8), Fifo(8)];
      Specify(13, 1, 0xF);
    }

    method Specify(stepRate: byte, headLoad: byte, headUnload: byte)
      requires Valid() && stepRate < 16 && headLoad < 0x80 && headUnload < 16
      modifies this`drive, this`sent
      ensures Valid() && drive == old(drive)
      ensures sent == old(sent) + [Fifo(3), Fifo(stepRate * 16 + headUnload), Fifo(headLoad * 2 + 1)]
    {
      Out(Fifo(SPECIFY));
      Out(Fifo(stepRate * 16 + headUnload));
      Out(Fifo(headLoad * 2 + 1));
    }

    /** Sends a seek and asks where the arm is. */
    method SeekOnce(cylinder: byte, head: byte) returns (reported: byte)
      requires Valid() && head < 2 && reports != []
      modifies this
      ensures reported == old(reports)[0] && reports == old(reports)[1..]
      ensures Valid() && drive == old(drive).(cylinder := reported, sought := cylinder)
      ensures sent == old(sent) + [Fifo(15), Fifo(head * 4), Fifo(cylinder), Fifo(8), Sensed(reported)]
    {
      Out(Fifo(SEEK));
      Out(Fifo(head * 4));
      Out(Fifo(cylinder));
      Out(Fifo(SENSE_INTERRUPT));
      reported := reports[0];
      reports := reports[1..];
      Out(Sensed(reported));
    }

    /** One try, and the reset when the timeout strikes. */
    method SeekTry(cylinder: byte, head: byte, timeout: nat, ghost before: seq<Event>) returns (reported: byte)
      requires Valid() && head < 2 && reports != [] && Seeking(before, sent, cylinder, head)
      modifies this
      ensures reported == old(reports)[0] && reports == old(reports)[1..]
      ensures Valid()
      ensures drive ==
        old(drive).(cylinder := reported, sought := cylinder, motor := old(drive).motor && timeout != TRIES)
      ensures Seeking(before, sent, cylinder, head)
    {
      SeekMore(before, sent, reports[0], cylinder, head);
      reported := SeekOnce(cylinder, head);
      if timeout == TRIES {
        ResetSeeksNothing(before, sent, cylinder, head);
        TimeoutPanic();
      }
    }

    /** Seeks until the cylinder is reported. On the 501st try, and every 65536 tries after it,
        the timeout resets the controller and the loop goes on. False means that the reports have
        run out while it is still seeking. */
    method Seek(cylinder: byte, head: byte) returns (done: bool)
      requires Valid() && head < 2
      modifies this
      ensures var t := FirstReport(old(reports), cylinder);
        && done == (t < |old(reports)|)
        && reports == (if done then old(reports)[t + 1..] else [])
        && Valid()
        && (done ==> drive == Sought(old(drive), cylinder, t < TRIES))
        && drive.disk == old(drive).disk && drive.buffer == old(drive).buffer
      ensures Seeking(old(sent), sent, cylinder, head)
    {
      ghost var was, all, before := drive, reports, sent;
      var timeout := 0;
      ghost var n := 0;
      while reports != []
        invariant Valid() && 0 <= n <= FirstReport(all, cylinder) && reports == all[n..]
        invariant timeout == Count16(n)
        invariant drive == was.(cylinder := drive.cylinder, sought := drive.sought, motor := was.motor && n <= TRIES)
        invariant Seeking(before, sent, cylinder, head)
        decreases |reports|
      {
        Count16Reaches(n);
        var reported := SeekTry(cylinder, head, timeout, before);
        timeout := if timeout == 0xFFFF then 0 else timeout + 1;
        n := n + 1;
        if reported == cylinder { return true; }
      }
      return false;
    }

    /** Motor on, seek, data command, motor off. */
    method ReadWriteGeneric(read: bool, a: Chs) returns (done: bool)
      requires Valid() && OnDisk(a)
      modifies this
      ensures var t := FirstReport(old(reports), a.cylinder);
        && done == (t < |old(reports)|)
        && (done ==> reports == old(reports)[t + 1..])
        && (done ==> Valid() && drive == Finished(old(drive), read, a, t < TRIES))
        && drive.disk == (if done then Finished(old(drive), read, a, t < TRIES).disk else old(drive).disk)
        && (!done ==> drive.buffer == old(drive).buffer)
      ensures TransferSent(old(sent), sent, read, a, done)
    {
      ghost var before := sent;
      MotorOn();
      done := Seek(a.cylinder, a.head);
      ghost var seeks := sent[|before| + 1..];
      assert sent == before + [Dor(0x1C)] + seeks;
      if !done {
        SentSoFar(before, seeks, [], read, a);
        assert sent == before + [Dor(0x1C)] + seeks + [];
        return;
      }
      DataPhase(read, a);
      SentSoFar(before, seeks, DataCommand(read, a), read, a);
      assert sent == before + [Dor(0x1C)] + seeks + DataCommand(read, a);
    }

    /** What follows the seek: the data command, a last sense, and the motor off. */
    method DataPhase(read: bool, a: Chs)
      requires Valid() && OnDisk(a) && drive.sought == drive.cylinder == a.cylinder
      modifies this`drive, this`sent
      ensures Valid() && drive == Finished(old(drive), read, a, old(drive).motor)
      ensures sent == old(sent) + DataCommand(read, a)
    {
      Out(Dma(Direction(read)));
      Command(read, a);
      Out(Fifo(SENSE_INTERRUPT));
      MotorOff();
    }

    /** The nine bytes of a read or write command. */
    method Command(read: bool, a: Chs)
      requires Valid() && OnDisk(a)
      modifies this`drive, this`sent
      ensures Valid()
      ensures drive ==
        if old(drive).motor && old(drive).sought == old(drive).cylinder == a.cylinder
           && old(drive).dma == Direction(read)
        then Moved(old(drive), read, a)
        else old(drive)
      ensures sent == old(sent) + [Fifo(if read then 0xC6 else 0xC5), Fifo(a.head * 4), Fifo(a.cylinder), Fifo(a.head),
                                   Fifo(a.sector), Fifo(2), Fifo(18), Fifo(0x1B), Fifo(0xFF)]
    {
      CommandAddress(if read then READ_MT_MF else WRITE_MT_MF, a);
      CommandFormat();
    }

    method CommandAddress(op: byte, a: Chs)
      requires Valid() && OnDisk(a) && CommandLength(op) == 9
      modifies this`drive, this`sent
      ensures drive == old(drive).(pending := [op, a.head * 4, a.cylinder, a.head, a.sector])
      ensures sent == old(sent) + [Fifo(op), Fifo(a.head * 4), Fifo(a.cylinder), Fifo(a.head), Fifo(a.sector)]
    {
      Out(Fifo(op));
      Parameter(a.head * 4);
      Parameter(a.cylinder);
      Parameter(a.head);
      Parameter(a.sector);
    }

    /** Sector size, sectors on a track, gap and data length: the last byte starts the command. */
    method CommandFormat()
      requires |drive.disk| == SECTORS && drive.listening
      requires |drive.pending| == 5 && CommandLength(drive.pending[0]) == 9
      modifies this`drive, this`sent
      ensures drive == Transfer(old(drive).(pending := []), old(drive).pending + [2, 18, 0x1B, 0xFF])
      ensures sent == old(sent) + [Fifo(2), Fifo(18), Fifo(0x1B), Fifo(0xFF)]
    {
      Parameter(2);
      Parameter(18);
      Parameter(0x1B);
      Out(Fifo(0xFF));
      assert old(drive).pending + [2] + [18] + [0x1B] + [0xFF] == old(drive).pending + [2, 18, 0x1B, 0xFF];
    }

    /** A byte in the middle of a command. */
    method Parameter(v: byte)
      requires |drive.disk| == SECTORS && drive.listening
      requires drive.pending != [] && |drive.pending| + 1 < CommandLength(drive.pending[0])
      modifies this`drive, this`sent
      ensures drive == old(drive).(pending := old(drive).pending + [v]) && sent == old(sent) + [Fifo(v)]
    {
      Out(Fifo(v));
    }

    /** The sectors and the buffer. */
    function View(): Store
      reads this
    {
      Store(drive.disk, drive.buffer)
    }

    /** Reads a sector into the buffer. Done means that the call returned. */
    method ReadLba(lba: nat) returns (done: bool)
      requires Valid()
      modifies this
      ensures lba >= SECTORS ==> drive == old(drive)
      ensures lba < SECTORS && done ==> !drive.motor
      ensures Served(Read(lba), done)
      ensures if lba < 2880 then Sent(old(sent), sent, true, lba, done) else sent == old(sent)
    {
      if lba >= SECTORS { return true; }
      ChsRoundTrip(lba);
      ChsInNumbers(lba);
      done := ReadWriteGeneric(true, Lba2Chs(lba));
    }

    /** Writes the buffer to a sector. */
    method WriteLba(lba: nat) returns (done: bool)
      requires Valid()
      modifies this
      ensures lba >= SECTORS ==> drive == old(drive)
      ensures lba < SECTORS && done ==> !drive.motor
      ensures Served(Write(lba), done)
      ensures if lba < 2880 then Sent(old(sent), sent, false, lba, done) else sent == old(sent)
    {
      if lba >= SECTORS { return true; }
      ChsRoundTrip(lba);
      ChsInNumbers(lba);
      done := ReadWriteGeneric(false, Lba2Chs(lba));
    }

    /** The call returns exactly if the sector is off the disk or the seek arrives; the request
        has then been served if the seek was in time, and nothing has moved otherwise. */
    twostate predicate Served(q: Request, done: bool)
      reads this
    {
      && done == (q.lba >= SECTORS || Arrives(old(reports), q.lba))
      && |old(drive).disk| == SECTORS
      && (done ==> Valid() && reports == ReportsAfter(old(reports), q))
      && View() == Drives(old(View()), old(reports), q)
    }

    /** Either of the two calls. A call that returns has served its request if and only if the
        sector is off the disk, the seek was in time, or serving it would have changed nothing. */
    method Perform(q: Request) returns (done: bool)
      requires Valid()
      modifies this
      ensures Served(q, done)
      ensures done ==>
        (View() == Serve(old(View()), q) <==>
           q.lba >= SECTORS || InTime(old(reports), q.lba) || Serve(old(View()), q) == old(View()))
      ensures q.lba < SECTORS && done ==> !drive.motor
      ensures q.lba >= SECTORS ==> drive == old(drive)
    {
      match q
      case Read(lba) => done := ReadLba(lba);
      case Write(lba) => done := WriteLba(lba);
    }

    /** A run of calls, up to the first that does not return. Whatever the drive reports, the
        sectors and the buffer end as if exactly the requests in time had been served by an array
        of sectors; and the motor is off if the disk was used at all. */
    method PerformAll(qs: seq<Request>) returns (done: bool)
      requires Valid()
      modifies this
      ensures done == AllArrive(old(reports), qs)
      ensures done ==> Valid() && reports == ReportsAfterAll(old(reports), qs)
      ensures |old(drive).disk| == SECTORS && View() == ServeAll(old(View()), InTimeOnes(old(reports), qs))
      ensures done && AllInTime(old(reports), qs) ==> View() == ServeAll(old(View()), qs)
      ensures done && (UsesDisk(qs) || !old(drive.motor)) ==> !drive.motor
      ensures AllInTime(old(reports), qs) ==> done
      decreases qs
    {
      if AllInTime(reports, qs) { AllInTimeServesAll(View(), reports, qs); }
      if qs == [] { return true; }
      done := Perform(qs[0]);
      if done {
        FirstServed(old(View()), old(reports), qs);
        done := PerformAll(qs[1..]);
      }
    }

    /** 500 reports of another cylinder, and the arm arrives with the 501st: the call returns, the
        motor is off, and no byte of the disk or of the buffer has moved. */
    method PerformLate(q: Request) returns (done: bool)
      requires Valid() && q.lba < SECTORS && reports == LateReports(q.lba)
      modifies this
      ensures done && Valid() && reports == [] && !drive.motor && View() == old(View())
    {
      LateReportsAreLate(q.lba);
      done := Perform(q);
    }

    /** The kernel fills the buffer byte by byte. */
    method PokeBuffer(i: nat, v: bv8)
      requires i < SECTOR_BYTES
      modifies this`drive
      ensures drive == old(drive).(buffer := old(drive).buffer[i := v])
    {
      drive := drive.(buffer := drive.buffer[i := v]);
    }
  }

  function Direction(read: bool): byte { if read then TO_MEMORY else FROM_MEMORY }

  /** The arm has been sent to the cylinder and reported there. */
  function Sought(d: Drive, cylinder: byte, inTime: bool): Drive {
    d.(cylinder := cylinder, sought := cylinder, motor := d.motor && inTime)
  }

  /** One sector goes into the buffer, or the buffer into one sector. */
  function Moved(d: Drive, read: bool, a: Chs): Drive
    requires |d.disk| == SECTORS && OnDisk(a)
  {
    if read then d.(buffer := d.disk[Locate(a)]) else d.(disk := d.disk[Locate(a) := d.buffer])
  }

  /** The drive after a transfer: a sector has moved if and only if the seek was in time. */
  function Finished(d: Drive, read: bool, a: Chs, inTime: bool): Drive
    requires |d.disk| == SECTORS && OnDisk(a)
  {
    var e := d.(motor := false, cylinder := a.cylinder, sought := a.cylinder, dma := Direction(read));
    if inTime then Moved(e, read, a) else e
  }

  // ----- What is sent

  /** Every sense has been preceded by a seek to the cylinder, and follows it at once. */
  ghost predicate SeeksFor(events: seq<Event>, cylinder: byte, head: byte)
    requires head < 2
  {
    forall k :: 0 <= k < |events| && events[k].Sensed? ==> SoughtAt(events, k, cylinder, head)
  }

  /** Since then only seeks for the cylinder, and resets, have been sent. */
  ghost predicate Seeking(was: seq<Event>, now: seq<Event>, cylinder: byte, head: byte)
    requires head < 2
  {
    was <= now && SeeksFor(now[|was|..], cylinder, head)
  }

  predicate SoughtAt(events: seq<Event>, k: nat, cylinder: byte, head: byte)
    requires k < |events| && head < 2
  {
    k >= 4 && events[k - 4..k] == [Fifo(15), Fifo(head * 4), Fifo(cylinder), Fifo(8)]
  }

  lemma SeekMore(before: seq<Event>, at: seq<Event>, reported: byte, cylinder: byte, head: byte)
    requires head < 2 && Seeking(before, at, cylinder, head)
    ensures var now := at + [Fifo(15), Fifo(head * 4), Fifo(cylinder), Fifo(8), Sensed(reported)];
      Seeking(before, now, cylinder, head)
  {
    var more := [Fifo(15), Fifo(head * 4), Fifo(cylinder), Fifo(8), Sensed(reported)];
    assert (at + more)[|before|..] == at[|before|..] + more;
    SeeksJoin(at[|before|..], more, cylinder, head);
  }

  lemma ResetSeeksNothing(before: seq<Event>, at: seq<Event>, cylinder: byte, head: byte)
    requires head < 2 && Seeking(before, at, cylinder, head)
    ensures var now := at + [Dor(0), Dor(0x0C), Fifo(8), Fifo(8), Fifo(8), Fifo(8), Fifo(3), Fifo(0xDF), Fifo(3)];
      Seeking(before, now, cylinder, head)
  {
    var more := [Dor(0), Dor(0x0C), Fifo(8), Fifo(8), Fifo(8), Fifo(8), Fifo(3), Fifo(0xDF), Fifo(3)];
    assert (at + more)[|before|..] == at[|before|..] + more;
    SeeksJoin(at[|before|..], more, cylinder, head);
  }

  lemma SeeksJoin(a: seq<Event>, b: seq<Event>, cylinder: byte, head: byte)
    requires head < 2 && SeeksFor(a, cylinder, head) && SeeksFor(b, cylinder, head)
    ensures SeeksFor(a + b, cylinder, head)
  {
    forall k | 0 <= k < |a + b| && (a + b)[k].Sensed? ensures SoughtAt(a + b, k, cylinder, head) {
      if k < |a| {
        assert SoughtAt(a, k, cylinder, head) && (a + b)[k - 4..k] == a[k - 4..k];
      } else {
        assert SoughtAt(b, k - |a|, cylinder, head) && (a + b)[k - 4..k] == b[k - |a| - 4..k - |a|];
      }
    }
  }

  /** The DMA mode, the nine bytes of the command, the sense, and the motor off. */
  function DataCommand(read: bool, a: Chs): seq<Event>
    requires a.head < 2
  {
    [Dma(if read then 0x56 else 0x5A), Fifo(if read then 0xC6 else 0xC5), Fifo(a.head * 4), Fifo(a.cylinder),
     Fifo(a.head), Fifo(a.sector), Fifo(2), Fifo(18), Fifo(0x1B), Fifo(0xFF), Fifo(8), Dor(0x0C)]
  }

  /** The motor is switched on, the arm is sent to the cylinder and nowhere else, and a call that
      returns ends with the data command for that address. */
  ghost predicate TransferSent(was: seq<Event>, now: seq<Event>, read: bool, a: Chs, done: bool)
    requires a.head < 2
  {
    && |was| < |now| && now[..|was|] == was && now[|was|] == Dor(0x1C)
    && SeeksFor(now[|was|..], a.cylinder, a.head)
    && (done ==> |was| + 12 < |now| && now[|now| - 12..] == DataCommand(read, a))
  }

  lemma SentSoFar(was: seq<Event>, seeks: seq<Event>, more: seq<Event>, read: bool, a: Chs)
    requires a.head < 2 && SeeksFor(seeks, a.cylinder, a.head) && (more == [] || more == DataCommand(read, a))
    ensures TransferSent(was, was + [Dor(0x1C)] + seeks + more, read, a, more != [])
  {
    var now := was + [Dor(0x1C)] + seeks + more;
    assert now[|was|..] == [Dor(0x1C)] + seeks + more;
    SeeksJoin([Dor(0x1C)], seeks, a.cylinder, a.head);
    SeeksJoin([Dor(0x1C)] + seeks, more, a.cylinder, a.head);
  }

  /** The same for a sector number, in its own arithmetic. */
  ghost predicate Sent(was: seq<Event>, now: seq<Event>, read: bool, lba: nat, done: bool)
    requires lba < 2880
  {
    ChsInNumbers(lba);
    TransferSent(was, now, read, Chs(lba / 36, lba % 36 / 18, lba % 36 % 18 + 1), done)
  }

  // ----- Runs against an array of sectors

  datatype Request = Read(lba: nat) | Write(lba: nat)

  /** The disk seen as an array, with one buffer: get, put, and nothing for a sector off the disk. */
  datatype Store = Store(sectors: seq<Sector>, buffer: Sector)

  function Serve(s: Store, q: Request): Store
    requires |s.sectors| == SECTORS
  {
    match q
    case Read(lba) => if lba < SECTORS then s.(buffer := s.sectors[lba]) else s
    case Write(lba) => if lba < SECTORS then s.(sectors := s.sectors[lba := s.buffer]) else s
  }

  function ServeAll(s: Store, qs: seq<Request>): (r: Store)
    requires |s.sectors| == SECTORS
    ensures |r.sectors| == SECTORS
    decreases qs
  {
    if qs == [] then s else ServeAll(Serve(s, qs[0]), qs[1..])
  }

  /** What the driver does to the store, given what the drive reports. */
  function Drives(s: Store, reports: seq<byte>, q: Request): Store
    requires |s.sectors| == SECTORS
  {
    if InTime(reports, q.lba) then Serve(s, q) else s
  }

  function ReportsAfter(reports: seq<byte>, q: Request): seq<byte>
    requires q.lba >= SECTORS || Arrives(reports, q.lba)
  {
    if q.lba >= SECTORS then reports else Remaining(reports, q.lba)
  }

  /** Every seek of the run ends in time. */
  predicate AllInTime(reports: seq<byte>, qs: seq<Request>)
    decreases qs
  {
    qs == [] ||
    ((qs[0].lba < SECTORS ==> InTime(reports, qs[0].lba)) &&
     AllInTime(ReportsAfter(reports, qs[0]), qs[1..]))
  }

  /** Every call of the run returns. */
  predicate AllArrive(reports: seq<byte>, qs: seq<Request>)
    decreases qs
  {
    qs == [] ||
    ((qs[0].lba < SECTORS ==> Arrives(reports, qs[0].lba)) &&
     AllArrive(ReportsAfter(reports, qs[0]), qs[1..]))
  }

  function ReportsAfterAll(reports: seq<byte>, qs: seq<Request>): seq<byte>
    requires AllArrive(reports, qs)
    decreases qs
  {
    if qs == [] then reports else ReportsAfterAll(ReportsAfter(reports, qs[0]), qs[1..])
  }

  /** The requests of a run whose seek is in time, up to the first call that does not return. */
  function InTimeOnes(reports: seq<byte>, qs: seq<Request>): seq<Request>
    decreases qs
  {
    if qs == [] || (qs[0].lba < SECTORS && !Arrives(reports, qs[0].lba)) then []
    else
      (if qs[0].lba < SECTORS && InTime(reports, qs[0].lba) then [qs[0]] else [])
      + InTimeOnes(ReportsAfter(reports, qs[0]), qs[1..])
  }

  predicate UsesDisk(qs: seq<Request>) {
    exists k :: 0 <= k < |qs| && qs[k].lba < SECTORS
  }

  lemma FirstServed(s: Store, reports: seq<byte>, qs: seq<Request>)
    requires |s.sectors| == SECTORS && qs != [] && (qs[0].lba < SECTORS ==> Arrives(reports, qs[0].lba))
    ensures ServeAll(s, InTimeOnes(reports, qs))
         == ServeAll(Drives(s, reports, qs[0]), InTimeOnes(ReportsAfter(reports, qs[0]), qs[1..]))
  {
    var rest := InTimeOnes(ReportsAfter(reports, qs[0]), qs[1..]);
    assert ([qs[0]] + rest)[1..] == rest;
    assert [] + rest == rest;
  }

  /** With every seek in time every call returns, and what is served is the whole run: a request
      off the disk is served by doing nothing. */
  lemma {:induction false} AllInTimeServesAll(s: Store, reports: seq<byte>, qs: seq<Request>)
    requires |s.sectors| == SECTORS && AllInTime(reports, qs)
    ensures AllArrive(reports, qs)
    ensures ServeAll(s, InTimeOnes(reports, qs)) == ServeAll(s, qs)
    decreases qs
  {
    if qs != [] {
      FirstServed(s, reports, qs);
      AllInTimeServesAll(Serve(s, qs[0]), ReportsAfter(reports, qs[0]), qs[1..]);
    }
  }

  function LateReports(lba: nat): seq<byte> {
    seq(TRIES, _ => if Cylinder(lba) == 0 then 1 else 0) + [Cylinder(lba)]
  }

  lemma LateReportsAreLate(lba: nat)
    ensures Arrives(LateReports(lba), lba) && !InTime(LateReports(lba), lba) && Remaining(LateReports(lba), lba) == []
  {
    var t := FirstReport(LateReports(lba), Cylinder(lba));
    assert LateReports(lba)[TRIES] == Cylinder(lba);
    assert t == TRIES;
  }

  /** What was written is read back, whatever else was transferred in between. */
  lemma {:induction false} ReadsWhatWasWritten(s: Store, lba: nat, qs: seq<Request>)
    requires |s.sectors| == SECTORS && lba < SECTORS && forall k :: 0 <= k < |qs| ==> qs[k] != Write(lba)
    ensures ServeAll(s, qs).sectors[lba] == s.sectors[lba]
    ensures Serve(ServeAll(Serve(s, Write(lba)), qs), Read(lba)).buffer == s.buffer
    decreases qs
  {
    SectorKept(s, lba, qs);
    SectorKept(Serve(s, Write(lba)), lba, qs);
  }

  lemma {:induction false} SectorKept(s: Store, lba: nat, qs: seq<Request>)
    requires |s.sectors| == SECTORS && lba < SECTORS && forall k :: 0 <= k < |qs| ==> qs[k] != Write(lba)
    ensures ServeAll(s, qs).sectors[lba] == s.sectors[lba]
    decreases qs
  {
    if qs != [] {
      SectorKept(Serve(s, qs[0]), lba, qs[1..]);
    }
  }
}
