/** `MMAP_Display` (Kernel/Memory.c): the memory map printed in hexadecimal, and the proof that
    the printout can be read back. */
module MemoryMapDisplay {
  import opened Words
  import opened Console
  import opened MemoryMap

  const RED: byte := 0x0C
  const CYAN: byte := 0x0B

  function Ascii(s: string): (r: seq<byte>)
    ensures |r| == |s|
  {
    seq(|s|, i requires 0 <= i < |s| => s[i] as int % 0x100)
  }

  // ----- What is printed

  function Title(): seq<byte> {
    Ascii("[MMAP] Displaying ") + Ascii("Memory Map Entries")
  }

  function CountLabel(): seq<byte> { Ascii("MMAP_Entries: 0x") }

  function Headings(): seq<byte> {
    Ascii("LOW         ") + Ascii("HIGH        ") + Ascii("LEN LOW     ")
    + Ascii("LEN HIGH    ") + Ascii("TYPE        ") + Ascii("ACPI")
  }

  /** Eight digits, most significant byte first. */
  function HexWord(v: uint32): (r: seq<byte>)
    ensures |r| == 8
  {
    HexByte(ByteOf(v, 3)) + HexByte(ByteOf(v, 2)) + HexByte(ByteOf(v, 1)) + HexByte(ByteOf(v, 0))
  }

  /** The bytes p+3 down to p+3-n+1 in hexadecimal. */
  function HexDown(data: seq<byte>, p: nat, n: nat): (r: seq<byte>)
    requires n <= 4 && p + 4 <= |data|
    ensures |r| == 2 * n
  {
    if n == 0 then [] else HexDown(data, p, n - 1) + HexByte(data[p + 4 - n])
  }

  function Field(data: seq<byte>, p: nat): (r: seq<byte>)
    requires p + 4 <= |data|
    ensures |r| == 12
  {
    Ascii("0x") + HexDown(data, p, 4) + Ascii("  ")
  }

  /** The first n fields of the row that starts at byte p. */
  function Fields(data: seq<byte>, p: nat, n: nat): (r: seq<byte>)
    requires n <= 6 && p + 4 * n <= |data|
    ensures |r| == 12 * n
  {
    if n == 0 then [] else Fields(data, p, n - 1) + Field(data, p + 4 * (n - 1))
  }

  function Line(str: seq<byte>, colour: byte): seq<Glyph> {
    Coloured(str, colour) + [Glyph(NEWLINE, colour)]
  }

  function Rows(data: seq<byte>, n: nat): seq<Glyph>
    requires ENTRY * n <= |data|
  {
    if n == 0 then []
    else Rows(data, n - 1) + Line(Fields(data, ENTRY * (n - 1), 6), CYAN)
  }

  /** The entry count as the loop sees it: a signed number. */
  function Shown(count: uint32): nat {
    if count < 0x8000_0000 then count else 0
  }

  function Header(count: uint32): seq<Glyph> {
    Line(Title(), RED) + Line(CountLabel() + HexWord(count), CYAN) + Line(Headings(), CYAN)
  }

  function Display(count: uint32, data: seq<byte>): seq<Glyph>
    requires ENTRY * Shown(count) <= |data|
  {
    Header(count) + Rows(data, Shown(count))
  }

  /** Visible characters and spaces only: nothing that moves the cursor by itself. */
  predicate Plain(str: seq<byte>) {
    forall i :: 0 <= i < |str| ==> 0x20 <= str[i] < 0x7F
  }

  lemma TitleIsPlain()
    ensures Plain(Title()) && |Title()| == 36
  {
    PlainJoin("[MMAP] Displaying ", "Memory Map Entries");
  }

  lemma CountLabelIsPlain()
    ensures Plain(CountLabel()) && |CountLabel()| == 16
  {
    PlainJoin("MMAP_Entries: 0x", "");
  }

  lemma HeadingsArePlain()
    ensures Plain(Headings()) && |Headings()| == 64
  {
    PlainJoin("LOW         ", "HIGH        ");
    PlainJoin("LEN LOW     ", "LEN HIGH    ");
    PlainJoin("TYPE        ", "ACPI");
  }

  predicate VisibleString(s: string) {
    forall i :: 0 <= i < |s| ==> ' ' <= s[i] <= '~'
  }

  lemma PlainJoin(a: string, b: string)
    requires VisibleString(a) && VisibleString(b)
    ensures Plain(Ascii(a)) && Plain(Ascii(b)) && Plain(Ascii(a) + Ascii(b))
  {
  }

  lemma FieldIsPlain(data: seq<byte>, p: nat)
    requires p + 4 <= |data|
    ensures Plain(Field(data, p))
  {
    HexDownIsPlain(data, p, 4);
    assert Plain(Ascii("0x")) && Plain(Ascii("  "));
  }

  lemma {:induction false} FieldsArePlain(data: seq<byte>, p: nat, n: nat)
    requires n <= 6 && p + 4 * n <= |data|
    ensures Plain(Fields(data, p, n))
  {
    if n > 0 {
      FieldsArePlain(data, p, n - 1);
      FieldIsPlain(data, p + 4 * (n - 1));
    }
  }

  lemma {:induction false} HexDownIsPlain(data: seq<byte>, p: nat, n: nat)
    requires n <= 4 && p + 4 <= |data|
    ensures Plain(HexDown(data, p, n))
  {
    if n > 0 {
      HexDownIsPlain(data, p, n - 1);
    }
  }

  // ----- The printer

  method PrintCString(console: VideoConsole, str: seq<byte>, colour: byte)
    requires console.Valid() && 0 !in str
    modifies console, console.video
    ensures console.Valid() && console.origin == old(console.origin)
    ensures console.typed == old(console.typed) + Coloured(str, colour)
  {
    NulEnds(str);
    console.Puts(str + [0], colour);
  }

  lemma {:induction false} NulEnds(str: seq<byte>)
    requires 0 !in str
    ensures UpToNul(str + [0]) == str
  {
    if str != [] {
      assert (str + [0])[1..] == str[1..] + [0];
      NulEnds(str[1..]);
    }
  }

  /** Printing a, then b, has printed a + b. */
  lemma Appended(was: seq<Glyph>, a: seq<byte>, b: seq<byte>, colour: byte)
    ensures was + Coloured(a, colour) + Coloured(b, colour) == was + Coloured(a + b, colour)
  {
    assert Coloured(a + b, colour) == Coloured(a, colour) + Coloured(b, colour);
  }

  lemma Assoc(a: seq<Glyph>, b: seq<Glyph>, c: seq<Glyph>)
    ensures (a + b) + c == a + (b + c)
  {
  }

  /** Prints the word whose four bytes start at b, from the last byte down. */
  method PrintField(console: VideoConsole, data: seq<byte>, b: nat)
    requires console.Valid() && b + 4 <= |data|
    modifies console, console.video
    ensures console.Valid() && console.origin == old(console.origin)
    ensures console.typed == old(console.typed) + Coloured(Field(data, b), CYAN)
  {
    ghost var was := console.typed;
    PrintCString(console, Ascii("0x"), CYAN);
    var n := 3;
    assert Ascii("0x") + HexDown(data, b, 0) == Ascii("0x");
    while n >= 0
      invariant -1 <= n <= 3
      invariant console.Valid() && console.origin == old(console.origin)
      invariant console.typed == was + Coloured(Ascii("0x") + HexDown(data, b, 3 - n), CYAN)
    {
      ghost var soFar, digits := Ascii("0x") + HexDown(data, b, 3 - n), HexByte(data[b + n]);
      Appended(was, soFar, digits, CYAN);
      assert soFar + digits == Ascii("0x") + HexDown(data, b, 4 - n);
      console.PutchHex(data[b + n], CYAN);
      n := n - 1;
    }
    Appended(was, Ascii("0x") + HexDown(data, b, 4), Ascii("  "), CYAN);
    PrintCString(console, Ascii("  "), CYAN);
  }

  /** Prints one entry; the map bytes are read through a moving pointer. */
  method PrintRow(console: VideoConsole, data: seq<byte>, start: nat) returns (b: nat)
    requires console.Valid() && start + ENTRY <= |data|
    modifies console, console.video
    ensures console.Valid() && console.origin == old(console.origin)
    ensures b == start + ENTRY
    ensures console.typed == old(console.typed) + Line(Fields(data, start, 6), CYAN)
  {
    b := start;
    ghost var was := console.typed;
    assert was + Coloured(Fields(data, start, 0), CYAN) == was;
    for j := 0 to 6
      invariant console.Valid() && console.origin == old(console.origin)
      invariant b == start + 4 * j
      invariant console.typed == was + Coloured(Fields(data, start, j), CYAN)
    {
      NextField(was, data, start, j);
      PrintField(console, data, b);
      b := b + 4;
    }
    Assoc(was, Coloured(Fields(data, start, 6), CYAN), [Glyph(NEWLINE, CYAN)]);
    console.Putch(NEWLINE, CYAN);
  }

  lemma NextField(was: seq<Glyph>, data: seq<byte>, start: nat, j: nat)
    requires j < 6 && start + ENTRY <= |data|
    ensures was + Coloured(Fields(data, start, j), CYAN) + Coloured(Field(data, start + 4 * j), CYAN)
         == was + Coloured(Fields(data, start, j + 1), CYAN)
  {
    Appended(was, Fields(data, start, j), Field(data, start + 4 * j), CYAN);
  }

  method PrintHeader(console: VideoConsole, title: seq<byte>, prompt: seq<byte>, heads: seq<byte>, count: uint32)
    requires console.Valid() && 0 !in title && 0 !in prompt && 0 !in heads
    modifies console, console.video
    ensures console.Valid() && console.origin == old(console.origin)
    ensures console.typed == old(console.typed)
      + (Line(title, RED) + Line(prompt + HexWord(count), CYAN) + Line(heads, CYAN))
  {
    ghost var was := console.typed;
    PrintCString(console, title + [NEWLINE], RED);
    PrintCString(console, prompt, CYAN);
    console.PutchHex(ByteOf(count, 3), CYAN);
    console.PutchHex(ByteOf(count, 2), CYAN);
    console.PutchHex(ByteOf(count, 1), CYAN);
    console.PutchHex(ByteOf(count, 0), CYAN);
    PrintCString(console, [NEWLINE] + heads + [NEWLINE], CYAN);
    HeaderParts(was, title, prompt, heads, HexByte(ByteOf(count, 3)), HexByte(ByteOf(count, 2)),
      HexByte(ByteOf(count, 1)), HexByte(ByteOf(count, 0)));
    assert HexWord(count) ==
      HexByte(ByteOf(count, 3)) + HexByte(ByteOf(count, 2)) + HexByte(ByteOf(count, 1)) + HexByte(ByteOf(count, 0));
  }

  lemma HeaderParts(was: seq<Glyph>, title: seq<byte>, prompt: seq<byte>, heads: seq<byte>,
      h3: seq<byte>, h2: seq<byte>, h1: seq<byte>, h0: seq<byte>)
    ensures was + Coloured(title + [NEWLINE], RED) + Coloured(prompt, CYAN)
      + Coloured(h3, CYAN) + Coloured(h2, CYAN) + Coloured(h1, CYAN) + Coloured(h0, CYAN)
      + Coloured([NEWLINE] + heads + [NEWLINE], CYAN)
      == was + (Line(title, RED) + Line(prompt + (h3 + h2 + h1 + h0), CYAN) + Line(heads, CYAN))
  {
    var was1 := was + Line(title, RED);
    assert was + Coloured(title + [NEWLINE], RED) == was1 by {
      assert Coloured(title + [NEWLINE], RED) == Line(title, RED);
    }
    Appended(was1, prompt, h3, CYAN);
    Appended(was1, prompt + h3, h2, CYAN);
    Appended(was1, prompt + h3 + h2, h1, CYAN);
    Appended(was1, prompt + h3 + h2 + h1, h0, CYAN);
    assert prompt + h3 + h2 + h1 + h0 == prompt + (h3 + h2 + h1 + h0);
    var tally := Coloured(prompt + (h3 + h2 + h1 + h0), CYAN);
    assert Coloured([NEWLINE] + heads + [NEWLINE], CYAN) == [Glyph(NEWLINE, CYAN)] + Line(heads, CYAN);
    Assoc(was1 + tally, [Glyph(NEWLINE, CYAN)], Line(heads, CYAN));
    Assoc(was1, tally, [Glyph(NEWLINE, CYAN)]);
    Assoc(was, Line(title, RED), Line(prompt + (h3 + h2 + h1 + h0), CYAN));
    Assoc(was, Line(title, RED) + Line(prompt + (h3 + h2 + h1 + h0), CYAN), Line(heads, CYAN));
  }

  method MmapDisplay(console: VideoConsole, count: uint32, data: seq<byte>)
    requires console.Valid() && ENTRY * Shown(count) <= |data|
    modifies console, console.video
    ensures console.Valid() && console.origin == old(console.origin)
    ensures console.typed == old(console.typed) + Display(count, data)
  {
    ghost var was := console.typed;
    TitleIsPlain();
    CountLabelIsPlain();
    HeadingsArePlain();
    PrintHeader(console, Title(), CountLabel(), Headings(), count);
    var b := 0;
    for i := 0 to Shown(count)
      invariant console.Valid() && console.origin == old(console.origin)
      invariant b == ENTRY * i
      invariant console.typed == was + Header(count) + Rows(data, i)
    {
      Assoc(was + Header(count), Rows(data, i), Line(Fields(data, b, 6), CYAN));
      b := PrintRow(console, data, b);
    }
    Assoc(was, Header(count), Rows(data, Shown(count)));
  }

  // ----- Reading the printout back

  /** The characters of n cells of the terminal from cell c on. */
  function TapeChars(t: Tape, c: int, n: nat): (r: seq<byte>)
    ensures |r| == n && forall i :: 0 <= i < n ==> r[i] == At(t, c + 2 * i)
  {
    seq(n, i requires 0 <= i < n => At(t, c + 2 * i))
  }

  /** The value of a digit, 0 for a character that is none. */
  function DigitValue(d: byte): int {
    if 0x30 <= d <= 0x39 then d - 0x30
    else if 0x41 <= d <= 0x46 then d - 0x37
    else 0
  }

  /** The number written in positional hexadecimal notation. */
  function ParseHex(digits: seq<byte>): int {
    if digits == [] then 0
    else 0x10 * ParseHex(digits[..|digits| - 1]) + DigitValue(digits[|digits| - 1])
  }

  lemma ParseHexByte(digits: seq<byte>, c: byte)
    ensures ParseHex(digits + HexByte(c)) == 0x100 * ParseHex(digits) + c
  {
    var longer := digits + HexByte(c);
    var n := |longer|;
    assert longer[..n - 1] == digits + [HexDigit(c / 16)];
    assert longer[..n - 1][..n - 2] == digits;
  }

  /** The digits of a field are the little-endian word at its place in the map. */
  lemma HexDownIsWord(data: seq<byte>, p: nat)
    requires p + 4 <= |data|
    ensures ParseHex(HexDown(data, p, 4)) == WordAt(data, p)
  {
    ParseHexByte([], data[p + 3]);
    assert HexDown(data, p, 1) == [] + HexByte(data[p + 3]);
    ParseHexByte(HexDown(data, p, 1), data[p + 2]);
    ParseHexByte(HexDown(data, p, 2), data[p + 1]);
    ParseHexByte(HexDown(data, p, 3), data[p]);
  }

  lemma HexWordIsWord(v: uint32)
    ensures ParseHex(HexWord(v)) == v
  {
    var b3, b2, b1, b0 := ByteOf(v, 3), ByteOf(v, 2), ByteOf(v, 1), ByteOf(v, 0);
    ParseHexByte([], b3);
    ParseHexByte([] + HexByte(b3), b2);
    ParseHexByte([] + HexByte(b3) + HexByte(b2), b1);
    ParseHexByte([] + HexByte(b3) + HexByte(b2) + HexByte(b1), b0);
    assert HexWord(v) == [] + HexByte(b3) + HexByte(b2) + HexByte(b1) + HexByte(b0);
    WordRoundTrip(v, []);
  }

  /** Plain characters land in consecutive cells and disturb no others. */
  lemma {:induction false} TypePlain(t: Tape, str: seq<byte>, colour: byte)
    requires Plain(str)
    ensures var u := TypeAll(t, Coloured(str, colour));
      && u.cursor == t.cursor + 2 * |str|
      && TapeChars(u, t.cursor, |str|) == str
      && forall i :: i < t.cursor || i >= u.cursor ==> At(u, i) == At(t, i)
    decreases |str|
  {
    if str != [] {
      var w := Type(t, str[0], colour);
      assert Coloured(str, colour)[1..] == Coloured(str[1..], colour);
      TypePlain(w, str[1..], colour);
      var u := TypeAll(w, Coloured(str[1..], colour));
      assert TypeAll(t, Coloured(str, colour)) == u;
      forall i | 0 <= i < |str| ensures TapeChars(u, t.cursor, |str|)[i] == str[i] {
        if i > 0 { assert TapeChars(u, w.cursor, |str| - 1)[i - 1] == str[1..][i - 1]; }
      }
    } else {
      assert Coloured(str, colour) == [];
    }
  }

  /** A line shorter than the screen is wide occupies one row, and the cursor ends at column 0 of
      the next. */
  lemma TypeLine(t: Tape, str: seq<byte>, colour: byte)
    requires t.cursor % ROW == 0 && Plain(str) && |str| < 80
    ensures var u := TypeAll(t, Line(str, colour));
      && u.cursor == t.cursor + ROW
      && TapeChars(u, t.cursor, |str|) == str
      && forall i :: i < t.cursor || i >= u.cursor ==> At(u, i) == At(t, i)
  {
    TypePlain(t, str, colour);
    var v := TypeAll(t, Coloured(str, colour));
    TypeAllConcat(t, Coloured(str, colour), [Glyph(NEWLINE, colour)]);
    var u := TypeAll(t, Line(str, colour));
    assert u == Type(v, NEWLINE, colour);
    assert u.cells == v.cells;
    assert TapeChars(u, t.cursor, |str|) == TapeChars(v, t.cursor, |str|);
  }

  /** Row k below cell start shows entry k. */
  predicate ShowsRow(u: Tape, start: int, data: seq<byte>, k: nat)
    requires ENTRY * (k + 1) <= |data|
  {
    TapeChars(u, start + ROW * k, 72) == Fields(data, ENTRY * k, 6)
  }

  /** Cells that have not changed hold the same characters. */
  lemma CharsKept(v: Tape, u: Tape, c: int, n: nat, end: int)
    requires c + 2 * n <= end && forall i :: i < end ==> At(u, i) == At(v, i)
    ensures TapeChars(u, c, n) == TapeChars(v, c, n)
  {
  }

  lemma RowKept(v: Tape, u: Tape, start: int, data: seq<byte>, k: nat, end: int)
    requires ENTRY * (k + 1) <= |data| && start + ROW * (k + 1) <= end
    requires ShowsRow(v, start, data, k) && forall i :: i < end ==> At(u, i) == At(v, i)
    ensures ShowsRow(u, start, data, k)
  {
    CharsKept(v, u, start + ROW * k, 72, end);
  }

  lemma OneMoreRow(v: Tape, start: int, data: seq<byte>, n: nat, row: seq<byte>)
    requires start % ROW == 0 && v.cursor == start + ROW * n && ENTRY * (n + 1) <= |data|
    requires Plain(row) && |row| == 72 && row == Fields(data, ENTRY * n, 6)
    requires forall k :: 0 <= k < n ==> ShowsRow(v, start, data, k)
    ensures var u := TypeAll(v, Line(row, CYAN));
      && u.cursor == start + ROW * (n + 1)
      && (forall k :: 0 <= k < n + 1 ==> ShowsRow(u, start, data, k))
      && forall i :: i < v.cursor ==> At(u, i) == At(v, i)
  {
    TypeLine(v, row, CYAN);
    var u := TypeAll(v, Line(row, CYAN));
    assert ShowsRow(u, start, data, n);
    forall k | 0 <= k < n ensures ShowsRow(u, start, data, k) {
      RowKept(v, u, start, data, k, v.cursor);
    }
  }

  lemma {:induction false} TypeRows(t: Tape, data: seq<byte>, n: nat)
    requires t.cursor % ROW == 0 && ENTRY * n <= |data|
    ensures var u := TypeAll(t, Rows(data, n));
      && u.cursor == t.cursor + ROW * n
      && (forall k :: 0 <= k < n ==> ShowsRow(u, t.cursor, data, k))
      && forall i :: i < t.cursor ==> At(u, i) == At(t, i)
  {
    if n > 0 {
      TypeRows(t, data, n - 1);
      var row := Fields(data, ENTRY * (n - 1), 6);
      FieldsArePlain(data, ENTRY * (n - 1), 6);
      OneMoreRow(TypeAll(t, Rows(data, n - 1)), t.cursor, data, n - 1, row);
      TypeAllConcat(t, Rows(data, n - 1), Line(row, CYAN));
    }
  }

  lemma {:induction false} FieldsAt(data: seq<byte>, p: nat, n: nat, j: nat)
    requires j < n <= 6 && p + 4 * n <= |data|
    ensures Fields(data, p, n)[12 * j + 2..12 * j + 10] == HexDown(data, p + 4 * j, 4)
  {
    var front, last := Fields(data, p, n - 1), Field(data, p + 4 * (n - 1));
    assert Fields(data, p, n) == front + last;
    if j < n - 1 {
      FieldsAt(data, p, n - 1, j);
      assert (front + last)[12 * j + 2..12 * j + 10] == front[12 * j + 2..12 * j + 10];
    } else {
      assert (front + last)[12 * j + 2..12 * j + 10] == last[2..10];
      assert last[2..10] == HexDown(data, p + 4 * j, 4);
    }
  }

  lemma TapeSlice(t: Tape, c: int, n: nat, from: nat, m: nat)
    requires from + m <= n
    ensures TapeChars(t, c, n)[from..from + m] == TapeChars(t, c + 2 * from, m)
  {
  }

  lemma TypeHeader(t: Tape, count: uint32)
    requires t.cursor % ROW == 0
    ensures var u := TypeAll(t, Header(count));
      && u.cursor == t.cursor + 3 * ROW
      && TapeChars(u, t.cursor + ROW + 32, 8) == HexWord(count)
      && forall i :: i < t.cursor ==> At(u, i) == At(t, i)
  {
    TitleIsPlain();
    CountLabelIsPlain();
    HeadingsArePlain();
    TypeThreeLines(t, Title(), CountLabel() + HexWord(count), Headings());
    var u, row := TypeAll(t, Header(count)), CountLabel() + HexWord(count);
    TapeSlice(u, t.cursor + ROW, 24, 16, 8);
    assert row[16..24] == HexWord(count);
  }

  /** The three lines above the entries. */
  lemma TypeHeaderText(t: Tape, count: uint32)
    requires t.cursor % ROW == 0
    ensures var u := TypeAll(t, Header(count));
      && u.cursor == t.cursor + 3 * ROW
      && LinesAt(u, t.cursor, Title(), CountLabel(), Headings())
  {
    TitleIsPlain();
    CountLabelIsPlain();
    HeadingsArePlain();
    TypeThreeLines(t, Title(), CountLabel() + HexWord(count), Headings());
    var u, row := TypeAll(t, Header(count)), CountLabel() + HexWord(count);
    TapeSlice(u, t.cursor + ROW, 24, 0, 16);
    assert row[0..16] == CountLabel();
  }

  lemma TypeThreeLines(t: Tape, title: seq<byte>, tally: seq<byte>, heads: seq<byte>)
    requires t.cursor % ROW == 0
    requires Plain(title) && Plain(tally) && Plain(heads) && |title| < 80 && |tally| < 80 && |heads| < 80
    ensures var u := TypeAll(t, Line(title, RED) + Line(tally, CYAN) + Line(heads, CYAN));
      && u.cursor == t.cursor + 3 * ROW
      && TapeChars(u, t.cursor, |title|) == title
      && TapeChars(u, t.cursor + ROW, |tally|) == tally
      && TapeChars(u, t.cursor + 2 * ROW, |heads|) == heads
      && forall i :: i < t.cursor ==> At(u, i) == At(t, i)
  {
    TypeLine(t, title, RED);
    var u1 := TypeAll(t, Line(title, RED));
    TypeLine(u1, tally, CYAN);
    var u2 := TypeAll(u1, Line(tally, CYAN));
    TypeLine(u2, heads, CYAN);
    var u := TypeAll(u2, Line(heads, CYAN));
    TypeAllConcat(t, Line(title, RED), Line(tally, CYAN));
    TypeAllConcat(t, Line(title, RED) + Line(tally, CYAN), Line(heads, CYAN));
    CharsKept(u1, u2, t.cursor, |title|, u1.cursor);
    CharsKept(u2, u, t.cursor, |title|, u2.cursor);
    CharsKept(u2, u, u1.cursor, |tally|, u2.cursor);
  }

  lemma TypeDisplay(t: Tape, count: uint32, data: seq<byte>)
    requires t.cursor % ROW == 0 && ENTRY * Shown(count) <= |data|
    ensures var u, below := TypeAll(t, Display(count, data)), t.cursor + 3 * ROW;
      && u.cursor == t.cursor + ROW * (3 + Shown(count))
      && (forall i :: i < t.cursor ==> At(u, i) == At(t, i))
      && TapeChars(u, t.cursor + ROW + 32, 8) == HexWord(count)
      && forall k :: 0 <= k < Shown(count) ==> ShowsRow(u, below, data, k)
  {
    TypeHeader(t, count);
    RowsBelow(t, Header(count), HexWord(count), data, Shown(count));
  }

  lemma RowsBelow(t: Tape, head: seq<Glyph>, tally: seq<byte>, data: seq<byte>, n: nat)
    requires t.cursor % ROW == 0 && ENTRY * n <= |data| && |tally| == 8
    requires var v := TypeAll(t, head);
      && v.cursor == t.cursor + 3 * ROW
      && TapeChars(v, t.cursor + ROW + 32, 8) == tally
      && forall i :: i < t.cursor ==> At(v, i) == At(t, i)
    ensures var u, below := TypeAll(t, head + Rows(data, n)), t.cursor + 3 * ROW;
      && u.cursor == t.cursor + ROW * (3 + n)
      && (forall i :: i < t.cursor ==> At(u, i) == At(t, i))
      && TapeChars(u, t.cursor + ROW + 32, 8) == tally
      && forall k :: 0 <= k < n ==> ShowsRow(u, below, data, k)
  {
    var v := TypeAll(t, head);
    TypeRows(v, data, n);
    TypeAllConcat(t, head, Rows(data, n));
    var u := TypeAll(v, Rows(data, n));
    CharsKept(v, u, t.cursor + ROW + 32, 8, v.cursor);
  }

  /** Field j of entry row k of a printout that starts at cell start is word j of entry k. */
  predicate ReadsBack(u: Tape, start: int, data: seq<byte>, k: nat, j: nat)
    requires j < 6 && ENTRY * (k + 1) <= |data|
  {
    ParseHex(TapeChars(u, start + ROW * (3 + k) + 24 * j + 4, 8)) == WordAt(data, ENTRY * k + 4 * j)
  }

  /** The printout of any memory map, started at column 0, takes three rows and one more for each
      entry, leaves the cells above it alone, and reads back as what was printed: the count in
      the second row, and in entry row k the six words of entry k. */
  lemma DisplayRoundTrip(t: Tape, count: uint32, data: seq<byte>)
    requires t.cursor % ROW == 0 && ENTRY * Shown(count) <= |data|
    ensures var u := TypeAll(t, Display(count, data));
      && u.cursor == t.cursor + ROW * (3 + Shown(count))
      && (forall i :: i < t.cursor ==> At(u, i) == At(t, i))
      && ParseHex(TapeChars(u, t.cursor + ROW + 32, 8)) == count
      && forall k, j :: 0 <= k < Shown(count) && 0 <= j < 6 ==> ReadsBack(u, t.cursor, data, k, j)
  {
    TypeDisplay(t, count, data);
    HexWordIsWord(count);
    var u, below := TypeAll(t, Display(count, data)), t.cursor + 3 * ROW;
    forall k, j | 0 <= k < Shown(count) && 0 <= j < 6
      ensures ReadsBack(u, t.cursor, data, k, j)
    {
      assert ShowsRow(u, below, data, k);
      FieldReadsBack(u, t.cursor, below, data, k, j);
    }
  }

  /** The eight characters behind the 0x of field j of a row. */
  lemma FieldChars(u: Tape, c: int, row: seq<byte>, j: nat)
    requires j < 6 && TapeChars(u, c, 72) == row
    ensures TapeChars(u, c + 24 * j + 4, 8) == row[12 * j + 2..12 * j + 10]
  {
    TapeSlice(u, c, 72, 12 * j + 2, 8);
  }

  lemma FieldIsWord(u: Tape, c: int, data: seq<byte>, p: nat, j: nat)
    requires p + ENTRY <= |data| && j < 6 && TapeChars(u, c, 72) == Fields(data, p, 6)
    ensures ParseHex(TapeChars(u, c + 24 * j + 4, 8)) == WordAt(data, p + 4 * j)
  {
    FieldChars(u, c, Fields(data, p, 6), j);
    FieldsAt(data, p, 6, j);
    HexDownIsWord(data, p + 4 * j);
  }

  lemma FieldReadsBack(u: Tape, start: int, below: int, data: seq<byte>, k: nat, j: nat)
    requires ENTRY * (k + 1) <= |data| && j < 6
    requires below == start + 3 * ROW && ShowsRow(u, below, data, k)
    ensures ReadsBack(u, start, data, k, j)
  {
    FieldIsWord(u, below + ROW * k, data, ENTRY * k, j);
    assert below + ROW * k + 24 * j + 4 == start + ROW * (3 + k) + 24 * j + 4;
  }

  // ----- The text around the numbers

  predicate Spells(chars: seq<byte>, text: string) {
    |chars| == |text| && forall k :: 0 <= k < |text| ==> chars[k] == text[k] as int
  }

  /** The label over field j. */
  function Label(j: nat): string
    requires j < 6
  {
    if j == 0 then "LOW" else if j == 1 then "HIGH" else if j == 2 then "LEN LOW"
    else if j == 3 then "LEN HIGH" else if j == 4 then "TYPE" else "ACPI"
  }

  lemma AsciiSpells(text: string)
    requires VisibleString(text)
    ensures Spells(Ascii(text), text)
  {
  }

  lemma TitleSpells()
    ensures |Title()| == 36
    ensures Spells(Title()[0..18], "[MMAP] Displaying ") && Spells(Title()[18..36], "Memory Map Entries")
  {
    var a, b := Ascii("[MMAP] Displaying "), Ascii("Memory Map Entries");
    AsciiSpells("[MMAP] Displaying ");
    AsciiSpells("Memory Map Entries");
    assert Title() == a + b && (a + b)[0..18] == a && (a + b)[18..36] == b;
  }

  lemma CountLabelSpells()
    ensures Spells(CountLabel(), "MMAP_Entries: 0x")
  {
    AsciiSpells("MMAP_Entries: 0x");
  }

  /** The heading of one field: its label, padded to the width of the field. */
  function Heading(j: nat): string
    requires j < 6
  {
    if j == 0 then "LOW         " else if j == 1 then "HIGH        " else if j == 2 then "LEN LOW     "
    else if j == 3 then "LEN HIGH    " else if j == 4 then "TYPE        " else "ACPI"
  }

  lemma HeadingStartsWithLabel(j: nat)
    requires j < 6
    ensures VisibleString(Heading(j)) && |Label(j)| <= |Heading(j)| && Heading(j)[..|Label(j)|] == Label(j)
    ensures |Heading(j)| == if j < 5 then 12 else 4
  {
  }

  lemma PartOfSix(a: seq<byte>, b: seq<byte>, c: seq<byte>, d: seq<byte>, e: seq<byte>, f: seq<byte>, j: nat)
    requires |a| == |b| == |c| == |d| == |e| == 12 && j < 6
    ensures var part := [a, b, c, d, e, f][j];
      12 * j + |part| <= |a + b + c + d + e + f| && (a + b + c + d + e + f)[12 * j..12 * j + |part|] == part
  {
  }

  lemma HeadingAt(j: nat)
    requires j < 6
    ensures 12 * j + |Heading(j)| <= |Headings()|
    ensures Headings()[12 * j..12 * j + |Heading(j)|] == Ascii(Heading(j))
  {
    PartOfSix(Ascii(Heading(0)), Ascii(Heading(1)), Ascii(Heading(2)), Ascii(Heading(3)), Ascii(Heading(4)),
              Ascii(Heading(5)), j);
  }

  lemma SpellsStart(line: seq<byte>, from: nat, text: string, word: string)
    requires VisibleString(text) && |word| <= |text| && text[..|word|] == word
    requires from + |text| <= |line| && line[from..from + |text|] == Ascii(text)
    ensures Spells(line[from..from + |word|], word)
  {
    forall k | 0 <= k < |word| ensures line[from..from + |word|][k] == word[k] as int {
      assert line[from..from + |text|][k] == Ascii(text)[k] && text[..|word|][k] == text[k];
    }
  }

  /** Every label begins in the column in which its field does. */
  lemma LabelOverField(j: nat)
    requires j < 6
    ensures 12 * j + |Label(j)| <= |Headings()|
    ensures Spells(Headings()[12 * j..12 * j + |Label(j)|], Label(j))
  {
    HeadingStartsWithLabel(j);
    HeadingAt(j);
    SpellsStart(Headings(), 12 * j, Heading(j), Label(j));
  }

  /** Typing more below three lines leaves them alone. */
  lemma LinesStay(v: Tape, text: seq<Glyph>, start: int, a: seq<byte>, b: seq<byte>, c: seq<byte>)
    requires |a| <= 80 && |b| <= 80 && |c| <= 80 && v.cursor == start + 3 * ROW && LinesAt(v, start, a, b, c)
    requires forall i :: i < v.cursor ==> At(TypeAll(v, text), i) == At(v, i)
    ensures LinesAt(TypeAll(v, text), start, a, b, c)
  {
    var u := TypeAll(v, text);
    CharsKept(v, u, start, |a|, v.cursor);
    CharsKept(v, u, start + ROW, |b|, v.cursor);
    CharsKept(v, u, start + 2 * ROW, |c|, v.cursor);
  }

  lemma RowsLeaveAbove(v: Tape, data: seq<byte>, n: nat)
    requires v.cursor % ROW == 0 && ENTRY * n <= |data|
    ensures forall i :: i < v.cursor ==> At(TypeAll(v, Rows(data, n)), i) == At(v, i)
  {
    TypeRows(v, data, n);
  }

  predicate LinesAt(u: Tape, start: int, a: seq<byte>, b: seq<byte>, c: seq<byte>) {
    && TapeChars(u, start, |a|) == a
    && TapeChars(u, start + ROW, |b|) == b
    && TapeChars(u, start + 2 * ROW, |c|) == c
  }

  lemma LinesAboveRows(t: Tape, head: seq<Glyph>, a: seq<byte>, b: seq<byte>, c: seq<byte>, data: seq<byte>, n: nat)
    requires t.cursor % ROW == 0 && ENTRY * n <= |data| && |a| <= 80 && |b| <= 80 && |c| <= 80
    requires TypeAll(t, head).cursor == t.cursor + 3 * ROW && LinesAt(TypeAll(t, head), t.cursor, a, b, c)
    ensures LinesAt(TypeAll(t, head + Rows(data, n)), t.cursor, a, b, c)
  {
    var v := TypeAll(t, head);
    RowsLeaveAbove(v, data, n);
    LinesStay(v, Rows(data, n), t.cursor, a, b, c);
    TypeAllConcat(t, head, Rows(data, n));
  }

  /** What can be read off the terminal around the numbers, once everything has been printed: the title,
      the prompt in front of the count, and the headings, column over column. */
  lemma HeadersOnTape(t: Tape, count: uint32, data: seq<byte>)
    requires t.cursor % ROW == 0 && ENTRY * Shown(count) <= |data|
    ensures LinesAt(TypeAll(t, Display(count, data)), t.cursor, Title(), CountLabel(), Headings())
  {
    TypeHeaderText(t, count);
    LinesAboveRows(t, Header(count), Title(), CountLabel(), Headings(), data, Shown(count));
  }

  /** Every field of a row is written as 0x, eight digits and two spaces. */
  lemma {:induction false} FieldText(data: seq<byte>, p: nat, n: nat, j: nat)
    requires j < n <= 6 && p + 4 * n <= |data|
    ensures var row := Fields(data, p, n);
      row[12 * j] == 0x30 && row[12 * j + 1] == 0x78 && row[12 * j + 10] == 0x20 && row[12 * j + 11] == 0x20
  {
    if j < n - 1 { FieldText(data, p, n - 1, j); }
  }

  /** The title is red, and everything else is cyan. */
  lemma DisplayColours(count: uint32, data: seq<byte>, i: nat)
    requires ENTRY * Shown(count) <= |data| && i < |Display(count, data)|
    ensures Display(count, data)[i].colour == if i < 37 then 0x0C else 0x0B
  {
    TitleIsPlain();
    RowsAreCyan(data, Shown(count));
    assert |Line(Title(), RED)| == 37;
  }

  lemma {:induction false} RowsAreCyan(data: seq<byte>, n: nat)
    requires ENTRY * n <= |data|
    ensures forall i :: 0 <= i < |Rows(data, n)| ==> Rows(data, n)[i].colour == 0x0B
  {
    if n > 0 { RowsAreCyan(data, n - 1); }
  }

  /** The count is a signed number: one with the top bit set shows no rows. */
  lemma ShownInNumbers(count: uint32)
    ensures Shown(count) == if count <= 0x7FFF_FFFF then count else 0
  {
  }

  /** The characters of n screen cells from cell i on. */
  function ScreenChars(s: Screen, i: nat, n: nat): (r: seq<byte>)
    requires i + 2 * n <= |s.cells|
    ensures |r| == n && forall k :: 0 <= k < n ==> r[k] == s.cells[i + 2 * k]
  {
    seq(n, k requires 0 <= k < n => s.cells[i + 2 * k])
  }

  lemma ScreenIsTape(s: Screen, t: Tape, i: nat, n: nat)
    requires Refines(s, t) && i + 2 * n <= SIZE
    ensures ScreenChars(s, i, n) == TapeChars(t, Base(s, t) + i, n)
  {
    forall m | 0 <= m < n ensures ScreenChars(s, i, n)[m] == TapeChars(t, Base(s, t) + i, n)[m] {
      assert s.cells[i + 2 * m] == At(t, Base(s, t) + (i + 2 * m));
    }
  }

  lemma {:induction false} DisplayHasNoBackspace(count: uint32, data: seq<byte>)
    requires ENTRY * Shown(count) <= |data|
    ensures forall i :: 0 <= i < |Display(count, data)| ==> Display(count, data)[i].ch != BACKSPACE
  {
    TitleIsPlain();
    CountLabelIsPlain();
    HeadingsArePlain();
    LineHasNoBackspace(Title(), RED);
    LineHasNoBackspace(CountLabel() + HexWord(count), CYAN);
    LineHasNoBackspace(Headings(), CYAN);
    RowsHaveNoBackspace(data, Shown(count));
  }

  lemma LineHasNoBackspace(str: seq<byte>, colour: byte)
    requires Plain(str)
    ensures forall i :: 0 <= i < |Line(str, colour)| ==> Line(str, colour)[i].ch != BACKSPACE
  {
  }

  lemma {:induction false} RowsHaveNoBackspace(data: seq<byte>, n: nat)
    requires ENTRY * n <= |data|
    ensures forall i :: 0 <= i < |Rows(data, n)| ==> Rows(data, n)[i].ch != BACKSPACE
  {
    if n > 0 {
      RowsHaveNoBackspace(data, n - 1);
      FieldsArePlain(data, ENTRY * (n - 1), 6);
      LineHasNoBackspace(Fields(data, ENTRY * (n - 1), 6), CYAN);
    }
  }

  /** The same on the screen: whatever was there before, every entry field that has not been
      scrolled away can be read off video memory, i being the cell at which it now starts. */
  lemma DisplayOnScreen(s: Screen, t: Tape, count: uint32, data: seq<byte>, k: nat, j: nat, i: nat)
    requires Refines(s, t) && t.cursor % ROW == 0
    requires ENTRY * Shown(count) <= |data| && k < Shown(count) && j < 6
    requires i == PutAll(s, Display(count, data)).pos - ROW * (Shown(count) - k) + 24 * j + 4 && i + 16 <= SIZE
    ensures var s' := PutAll(s, Display(count, data));
      && |s'.cells| == SIZE && s'.stray == s.stray
      && ParseHex(ScreenChars(s', i, 8)) == WordAt(data, ENTRY * k + 4 * j)
  {
    DisplayHasNoBackspace(count, data);
    DisplayRoundTrip(t, count, data);
    TextOnScreen(s, t, Display(count, data));
    var s', u := PutAll(s, Display(count, data)), TypeAll(t, Display(count, data));
    ReadOffScreen(s', u, t.cursor, data, k, j, i);
  }

  lemma TextOnScreen(s: Screen, t: Tape, text: seq<Glyph>)
    requires Refines(s, t) && forall k :: 0 <= k < |text| ==> text[k].ch != BACKSPACE
    ensures Refines(PutAll(s, text), TypeAll(t, text)) && PutAll(s, text).stray == s.stray
  {
    NoBackspaceIsClean(s, text);
    RunRefines(s, t, text);
  }

  lemma ReadOffScreen(s: Screen, u: Tape, start: int, data: seq<byte>, k: nat, j: nat, i: nat)
    requires Refines(s, u) && j < 6 && ENTRY * (k + 1) <= |data| && ReadsBack(u, start, data, k, j)
    requires Base(s, u) + i == start + ROW * (3 + k) + 24 * j + 4 && i + 16 <= SIZE
    ensures ParseHex(ScreenChars(s, i, 8)) == WordAt(data, ENTRY * k + 4 * j)
  {
    ScreenIsTape(s, u, i, 8);
  }
}
