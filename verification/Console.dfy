/** The text console (Kernel/TextMode.c): a 25-row window that scrolls only when the next
    character needs room, against the terminal it stands for, which never scrolls at all. */
module Console {
  import opened Words

  const ROW := 160
  const SIZE := 4000
  const NEWLINE: byte := 10
  const TAB: byte := 9
  const BACKSPACE: byte := 8
  const SPACE: byte := 32

  // ----- The window as a value

  /** Video memory, the static ScreenPos, and the writes that missed video memory, in order. */
  datatype Screen = Screen(cells: seq<byte>, pos: uint32, stray: seq<(uint32, byte)>)

  function Poke(s: Screen, v: byte): Screen {
    var next := s.(pos := Wrap(s.pos + 1));
    if s.pos < |s.cells| then next.(cells := s.cells[s.pos := v])
    else next.(stray := s.stray + [(s.pos, v)])
  }

  /** What the overlapping read-and-zero loop leaves behind: the rows move up, and a vacated cell
      is blank only if the loop also read from it. */
  function Scrolled(cells: seq<byte>, lines: nat): (r: seq<byte>)
    ensures |r| == |cells|
  {
    seq(|cells|, i requires 0 <= i < |cells| =>
      if lines == 0 then 0
      else if i + ROW * lines < |cells| then cells[i + ROW * lines]
      else if i >= ROW * lines then 0
      else cells[i])
  }

  /** Room for the next character, made only now. */
  function Scroll(s: Screen): Screen {
    if s.pos >= SIZE then s.(cells := Scrolled(s.cells, 1), pos := s.pos - ROW) else s
  }

  function PutPlain(s: Screen, ch: byte, colour: byte): Screen {
    Poke(Poke(Scroll(s), ch), colour)
  }

  /** Four spaces. */
  function PutTab(s: Screen, colour: byte): Screen {
    PutPlain(PutPlain(PutPlain(PutPlain(s, SPACE, colour), SPACE, colour), SPACE, colour), SPACE, colour)
  }

  /** Back, over-print with a space, and back again; all in unsigned arithmetic. */
  function PutBackspace(s: Screen, colour: byte): Screen {
    var w := PutPlain(s.(pos := Wrap(s.pos - 2)), SPACE, colour);
    var p := Wrap(w.pos - 2);
    w.(pos := if p > Wrap(p + 2) then 0 else p)
  }

  function Put(s: Screen, ch: byte, colour: byte): Screen {
    var r := Scroll(s);
    if ch == NEWLINE then r.(pos := Wrap(r.pos + ROW - r.pos % ROW))
    else if ch == TAB then PutTab(r, colour)
    else if ch == BACKSPACE then PutBackspace(r, colour)
    else Poke(Poke(r, ch), colour)
  }

  /** A character with its colour attribute. */
  datatype Glyph = Glyph(ch: byte, colour: byte)

  function PutAll(s: Screen, text: seq<Glyph>): Screen
    decreases text
  {
    if text == [] then s else PutAll(Put(s, text[0].ch, text[0].colour), text[1..])
  }

  // ----- The terminal it stands for

  /** An unbounded terminal: cells that were never written read as 0. */
  datatype Tape = Tape(cells: map<int, byte>, cursor: int)

  function At(t: Tape, i: int): byte {
    if i in t.cells then t.cells[i] else 0
  }

  function Write(t: Tape, ch: byte, colour: byte): Tape {
    Tape(t.cells[t.cursor := ch][t.cursor + 1 := colour], t.cursor + 2)
  }

  function Type(t: Tape, ch: byte, colour: byte): Tape {
    if ch == NEWLINE then t.(cursor := t.cursor + ROW - t.cursor % ROW)
    else if ch == TAB then Write(Write(Write(Write(t, SPACE, colour), SPACE, colour), SPACE, colour), SPACE, colour)
    else if ch == BACKSPACE then
      var w := Write(t.(cursor := t.cursor - 2), SPACE, colour);
      w.(cursor := w.cursor - 2)
    else Write(t, ch, colour)
  }

  /** What one character does to the terminal, in numbers: a newline goes to the next multiple of 160;
      a tab leaves four spaces; a backspace leaves a space one cell back and the cursor on it; any
      other character leaves itself and its colour. No other cell changes. */
  lemma TypeInNumbers(t: Tape, ch: byte, colour: byte, i: int)
    ensures var u := Type(t, ch, colour);
      && u.cursor ==
           (if ch == 10 then (t.cursor / 160 + 1) * 160
            else t.cursor + if ch == 9 then 8 else if ch == 8 then -2 else 2)
      && At(u, i) ==
           if ch == 10 then At(t, i)
           else if ch == 9 then
             if t.cursor <= i < t.cursor + 8 then (if (i - t.cursor) % 2 == 0 then 0x20 else colour) else At(t, i)
           else if ch == 8 then
             if i == t.cursor - 2 then 0x20 else if i == t.cursor - 1 then colour else At(t, i)
           else if i == t.cursor then ch else if i == t.cursor + 1 then colour else At(t, i)
  {
    if ch == 9 { TabInNumbers(t, colour, i); }
  }

  lemma TabInNumbers(t: Tape, colour: byte, i: int)
    ensures var u := Type(t, 9, colour);
      && u.cursor == t.cursor + 8
      && At(u, i) ==
           if t.cursor <= i < t.cursor + 8 then (if (i - t.cursor) % 2 == 0 then 0x20 else colour) else At(t, i)
  {
    var t1 := Write(t, 0x20, colour);
    var t2 := Write(t1, 0x20, colour);
    var t3 := Write(t2, 0x20, colour);
    assert Type(t, 9, colour) == Write(t3, 0x20, colour);
    assert forall j :: At(t1, j) == if j == t.cursor then 0x20 else if j == t.cursor + 1 then colour else At(t, j);
  }

  function TypeAll(t: Tape, text: seq<Glyph>): Tape
    decreases text
  {
    if text == [] then t else TypeAll(Type(t, text[0].ch, text[0].colour), text[1..])
  }

  // ----- Refinement

  /** The number of cells that have been scrolled off the top. */
  function Base(s: Screen, t: Tape): int { t.cursor - s.pos }

  predicate InWindow(s: Screen) {
    |s.cells| == SIZE && s.pos <= SIZE && s.pos % 2 == 0
  }

  ghost predicate Refines(s: Screen, t: Tape) {
    && InWindow(s)
    && Base(s, t) >= 0 && Base(s, t) % ROW == 0
    && (forall i :: 0 <= i < SIZE ==> s.cells[i] == At(t, Base(s, t) + i))
    && (forall j :: j >= Base(s, t) + SIZE ==> At(t, j) == 0)
  }

  /** A backspace at the very start of the window: the one character that escapes it. */
  predicate Escapes(s: Screen, ch: byte) {
    ch == BACKSPACE && s.pos == 0
  }

  lemma BlankScreenRefines(cells: seq<byte>, stray: seq<(uint32, byte)>)
    requires |cells| == SIZE && forall i :: 0 <= i < SIZE ==> cells[i] == 0
    ensures Refines(Screen(cells, 0, stray), Tape(map[], 0))
  {
  }

  lemma ScrollRefines(s: Screen, t: Tape)
    requires Refines(s, t)
    ensures Refines(Scroll(s), t) && Scroll(s).pos < SIZE && Scroll(s).stray == s.stray
  {
    if s.pos >= SIZE {
      var r := Scroll(s);
      assert Base(r, t) == Base(s, t) + ROW;
      forall i | 0 <= i < SIZE ensures r.cells[i] == At(t, Base(r, t) + i) {
        if i + ROW < SIZE {
          assert s.cells[i + ROW] == At(t, Base(s, t) + (i + ROW));
        }
      }
    }
  }

  lemma PlainRefines(s: Screen, t: Tape, ch: byte, colour: byte)
    requires Refines(s, t)
    ensures Refines(PutPlain(s, ch, colour), Write(t, ch, colour))
    ensures PutPlain(s, ch, colour).stray == s.stray
  {
    ScrollRefines(s, t);
    var r, w, u := Scroll(s), PutPlain(s, ch, colour), Write(t, ch, colour);
    assert Base(w, u) == Base(r, t);
    forall i | 0 <= i < SIZE ensures w.cells[i] == At(u, Base(w, u) + i) {
      assert r.cells[i] == At(t, Base(r, t) + i);
    }
    forall j | j >= Base(w, u) + SIZE ensures At(u, j) == 0 {
      assert At(t, j) == 0;
    }
  }

  /** Moving the cursor inside the window moves it on the terminal. */
  lemma MoveRefines(s: Screen, t: Tape, d: int)
    requires Refines(s, t) && 0 <= s.pos + d <= SIZE && d % 2 == 0
    ensures Refines(s.(pos := s.pos + d), t.(cursor := t.cursor + d))
  {
    var s', t' := s.(pos := s.pos + d), t.(cursor := t.cursor + d);
    assert Base(s', t') == Base(s, t);
    forall i | 0 <= i < SIZE ensures s'.cells[i] == At(t', Base(s', t') + i) {
      assert s.cells[i] == At(t, Base(s, t) + i);
    }
    forall j | j >= Base(s', t') + SIZE ensures At(t', j) == 0 {
      assert At(t, j) == 0;
    }
  }

  /** Whole rows do not change the column, and columns are even. */
  lemma SameColumn(pos: int, base: int)
    requires pos % 2 == 0 && base % ROW == 0
    ensures (base + pos) % ROW == pos % ROW && (ROW - pos % ROW) % 2 == 0
  {
    assert base == ROW * (base / ROW);
  }

  lemma NewlineRefines(s: Screen, t: Tape, colour: byte)
    requires Refines(s, t)
    ensures Refines(Put(s, NEWLINE, colour), Type(t, NEWLINE, colour))
    ensures Put(s, NEWLINE, colour).stray == s.stray
  {
    ScrollRefines(s, t);
    var r := Scroll(s);
    SameColumn(r.pos, Base(r, t));
    MoveRefines(r, t, ROW - r.pos % ROW);
  }

  lemma TabRefines(s: Screen, t: Tape, colour: byte)
    requires Refines(s, t)
    ensures Refines(Put(s, TAB, colour), Type(t, TAB, colour))
    ensures Put(s, TAB, colour).stray == s.stray
  {
    ScrollRefines(s, t);
    var r := Scroll(s);
    PlainRefines(r, t, SPACE, colour);
    var r1, t1 := PutPlain(r, SPACE, colour), Write(t, SPACE, colour);
    PlainRefines(r1, t1, SPACE, colour);
    var r2, t2 := PutPlain(r1, SPACE, colour), Write(t1, SPACE, colour);
    PlainRefines(r2, t2, SPACE, colour);
    PlainRefines(PutPlain(r2, SPACE, colour), Write(t2, SPACE, colour), SPACE, colour);
  }

  lemma BackspaceRefines(s: Screen, t: Tape, colour: byte)
    requires Refines(s, t) && s.pos != 0
    ensures Refines(Put(s, BACKSPACE, colour), Type(t, BACKSPACE, colour))
    ensures Put(s, BACKSPACE, colour).stray == s.stray
  {
    ScrollRefines(s, t);
    BackspaceInWindow(Scroll(s), t, colour);
  }

  lemma BackspaceInWindow(r: Screen, t: Tape, colour: byte)
    requires Refines(r, t) && 0 < r.pos < SIZE
    ensures Refines(PutBackspace(r, colour), Type(t, BACKSPACE, colour))
    ensures PutBackspace(r, colour).stray == r.stray
  {
    MoveRefines(r, t, -2);
    var back, tback := r.(pos := r.pos - 2), t.(cursor := t.cursor - 2);
    PlainRefines(back, tback, SPACE, colour);
    MoveRefines(PutPlain(back, SPACE, colour), Write(tback, SPACE, colour), -2);
  }

  /** One character: the window follows the terminal, and nothing outside it is touched, unless
      the character escapes. */
  lemma PutRefines(s: Screen, t: Tape, ch: byte, colour: byte)
    requires Refines(s, t) && !Escapes(s, ch)
    ensures Refines(Put(s, ch, colour), Type(t, ch, colour))
    ensures Put(s, ch, colour).stray == s.stray
  {
    if ch == NEWLINE {
      NewlineRefines(s, t, colour);
    } else if ch == TAB {
      TabRefines(s, t, colour);
    } else if ch == BACKSPACE {
      BackspaceRefines(s, t, colour);
    } else {
      PlainRefines(s, t, ch, colour);
    }
  }

  // ----- Runs

  /** No character of the text escapes the window it finds. */
  predicate Clean(s: Screen, text: seq<Glyph>)
    decreases text
  {
    text == [] ||
    (!Escapes(s, text[0].ch) && Clean(Put(s, text[0].ch, text[0].colour), text[1..]))
  }

  /** Any run of characters: as long as none escapes, the screen shows the last 25 rows of the
      terminal, cell for cell. */
  lemma {:induction false} RunRefines(s: Screen, t: Tape, text: seq<Glyph>)
    requires Refines(s, t) && Clean(s, text)
    ensures Refines(PutAll(s, text), TypeAll(t, text))
    ensures PutAll(s, text).stray == s.stray
    decreases text
  {
    if text != [] {
      var g := text[0];
      PutRefines(s, t, g.ch, g.colour);
      RunRefines(Put(s, g.ch, g.colour), Type(t, g.ch, g.colour), text[1..]);
    }
  }

  lemma PlainOnlyAddsStrays(s: Screen, ch: byte, colour: byte)
    ensures s.stray <= PutPlain(s, ch, colour).stray
  {
  }

  lemma {:induction false} NoBackspaceIsClean(s: Screen, text: seq<Glyph>)
    requires forall i :: 0 <= i < |text| ==> text[i].ch != BACKSPACE
    ensures Clean(s, text)
    decreases text
  {
    if text != [] {
      NoBackspaceIsClean(Put(s, text[0].ch, text[0].colour), text[1..]);
    }
  }

  lemma PutOnlyAddsStrays(s: Screen, ch: byte, colour: byte)
    ensures s.stray <= Put(s, ch, colour).stray
  {
    var r := Scroll(s);
    if ch == TAB {
      PlainOnlyAddsStrays(r, SPACE, colour);
      var r1 := PutPlain(r, SPACE, colour);
      PlainOnlyAddsStrays(r1, SPACE, colour);
      var r2 := PutPlain(r1, SPACE, colour);
      PlainOnlyAddsStrays(r2, SPACE, colour);
      PlainOnlyAddsStrays(PutPlain(r2, SPACE, colour), SPACE, colour);
    } else if ch == BACKSPACE {
      PlainOnlyAddsStrays(r.(pos := Wrap(r.pos - 2)), SPACE, colour);
    } else {
      PlainOnlyAddsStrays(s, ch, colour);
    }
  }

  lemma {:induction false} RunOnlyAddsStrays(s: Screen, text: seq<Glyph>)
    ensures s.stray <= PutAll(s, text).stray
    decreases text
  {
    if text != [] {
      PutOnlyAddsStrays(s, text[0].ch, text[0].colour);
      RunOnlyAddsStrays(Put(s, text[0].ch, text[0].colour), text[1..]);
    }
  }

  /** A backspace at the start of the window writes outside video memory, and leaves the cursor
      far outside it: the clamp behind it is not reached. */
  lemma EscapeGoesAstray(s: Screen, colour: byte)
    requires InWindow(s) && s.pos == 0
    ensures |Put(s, BACKSPACE, colour).stray| == |s.stray| + 2
    ensures Put(s, BACKSPACE, colour).pos == ADDRESS_SPACE - 162
  {
  }

  /** Indeed it is never reached, whatever the cursor: the space drawn before it has either scrolled
      the cursor back by a row or left it below the end of the window. */
  lemma ClampNeverActs(s: Screen, colour: byte)
    ensures PutBackspace(s, colour).pos == Wrap(PutPlain(s.(pos := Wrap(s.pos - 2)), 0x20, colour).pos - 2)
  {
    var before := Wrap(s.pos - 2);
    var after := PutPlain(s.(pos := before), 0x20, colour).pos;
    assert after == (if before >= 4000 then before - 160 else before) + 2;
  }

  /** A run writes outside video memory exactly when it issues a backspace at the start of the
      window. */
  lemma {:induction false} StrayExactly(s: Screen, t: Tape, text: seq<Glyph>)
    requires Refines(s, t)
    ensures PutAll(s, text).stray == s.stray <==> Clean(s, text)
    decreases text
  {
    if text != [] {
      var g := text[0];
      var s' := Put(s, g.ch, g.colour);
      if Escapes(s, g.ch) {
        EscapeGoesAstray(s, g.colour);
        RunOnlyAddsStrays(s', text[1..]);
      } else {
        PutRefines(s, t, g.ch, g.colour);
        StrayExactly(s', Type(t, g.ch, g.colour), text[1..]);
      }
    }
  }

  /** From a cleared screen, any run without an escaping backspace: the cursor stays even and in
      the window, no write leaves video memory, and cell i of the screen is the terminal cell i
      below the rows that have been scrolled away. */
  lemma ConsoleIsWindow(cells: seq<byte>, text: seq<Glyph>)
    requires |cells| == 4000 && forall i :: 0 <= i < 4000 ==> cells[i] == 0
    requires Clean(Screen(cells, 0, []), text)
    ensures var s, t := PutAll(Screen(cells, 0, []), text), TypeAll(Tape(map[], 0), text);
      && s.pos <= 4000 && s.pos % 2 == 0 && s.stray == [] && |s.cells| == 4000
      && (t.cursor - s.pos) % 160 == 0 <= t.cursor - s.pos
      && forall i :: 0 <= i < 4000 ==> s.cells[i] == At(t, i + (t.cursor - s.pos))
  {
    BlankScreenRefines(cells, []);
    RunRefines(Screen(cells, 0, []), Tape(map[], 0), text);
    var s, t := PutAll(Screen(cells, 0, []), text), TypeAll(Tape(map[], 0), text);
    forall i | 0 <= i < SIZE ensures s.cells[i] == At(t, i + (t.cursor - s.pos)) {
      assert s.cells[i] == At(t, Base(s, t) + i);
    }
  }

  lemma {:induction false} PutAllConcat(s: Screen, a: seq<Glyph>, b: seq<Glyph>)
    ensures PutAll(s, a + b) == PutAll(PutAll(s, a), b)
    decreases a
  {
    if a == [] {
      assert a + b == b;
    } else {
      assert (a + b)[1..] == a[1..] + b;
      PutAllConcat(Put(s, a[0].ch, a[0].colour), a[1..], b);
    }
  }

  lemma PutAllOne(s: Screen, a: seq<Glyph>, g: Glyph)
    ensures PutAll(s, a + [g]) == Put(PutAll(s, a), g.ch, g.colour)
  {
    PutAllConcat(s, a, [g]);
  }

  lemma {:induction false} TypeAllConcat(t: Tape, a: seq<Glyph>, b: seq<Glyph>)
    ensures TypeAll(t, a + b) == TypeAll(TypeAll(t, a), b)
    decreases a
  {
    if a == [] {
      assert a + b == b;
    } else {
      assert (a + b)[1..] == a[1..] + b;
      TypeAllConcat(Type(t, a[0].ch, a[0].colour), a[1..], b);
    }
  }

  // ----- Scrolling by several rows

  /** Up to 12 rows, scrolling moves every row up and blanks the rows below, and two scrolls add
      up. */
  lemma ScrollsAdd(cells: seq<byte>, a: nat, b: nat)
    requires |cells| == SIZE && 1 <= a && 1 <= b && a + b <= 12
    ensures Scrolled(Scrolled(cells, a), b) == Scrolled(cells, a + b)
    ensures forall i :: 0 <= i < SIZE ==>
      Scrolled(cells, a)[i] == if i < SIZE - ROW * a then cells[i + ROW * a] else 0
  {
  }

  /** From 13 rows on, the cells between the rows moved and the rows read are left over. */
  lemma LongScrollLeavesCells(cells: seq<byte>, lines: nat, i: nat)
    requires |cells| == 4000 && 13 <= lines <= 25 && i < 4000
    ensures Scrolled(cells, lines)[i] ==
      if i < 4000 - 160 * lines then cells[i + 160 * lines]
      else if i < 160 * lines then cells[i]
      else 0
  {
  }

  /** Scrolling by no rows reads and clears every cell onto itself: the screen is blanked. */
  lemma NoScrollBlanks(cells: seq<byte>, i: nat)
    requires |cells| == 4000 && i < 4000
    ensures Scrolled(cells, 0)[i] == 0
  {
  }

  /** Beyond 12 rows two scrolls never add up: a screen on which they differ. */
  lemma LongScrollsDoNotAdd(a: nat, b: nat)
    requires 1 <= a && 1 <= b && 13 <= a + b <= 24
    ensures var cells := seq<byte>(SIZE, i => 1);
      Scrolled(Scrolled(cells, a), b) != Scrolled(cells, a + b)
  {
    var cells := seq<byte>(SIZE, i => 1);
    var first := Scrolled(cells, a);
    var k, k' := SIZE - ROW * (a + b), ROW * (a + b) - 1;
    assert Scrolled(cells, a + b)[k] == 1 && Scrolled(cells, a + b)[k'] == 1;
    assert Scrolled(first, b)[k] == 0 || Scrolled(first, b)[k'] == 0;
  }

  // ----- The driver

  class VideoConsole {
    const video: array<byte>
    var pos: uint32
    ghost var stray: seq<(uint32, byte)>

    ghost var origin: Screen
    ghost var typed: seq<Glyph>

    /** Since origin was on the screen, exactly the glyphs in typed have been issued. */
    ghost predicate Valid()
      reads this, video
    {
      video.Length == SIZE && State() == PutAll(origin, typed)
    }

    ghost function State(): Screen
      reads this, video
    {
      Screen(video[..], pos, stray)
    }

    constructor (video: array<byte>)
      requires video.Length == SIZE
      ensures Valid() && this.video == video && pos == 0 && stray == []
      ensures origin == State() && typed == []
    {
      this.video := video;
      pos := 0;
      stray := [];
      typed := [];
      origin := Screen(video[..], 0, []);
    }

    /** Whatever sequence of calls has been made since the screen stood for terminal t: it now
        stands for t with the record typed into it, cell for cell, and no store has left video
        memory since, if and only if no glyph of the record escaped. */
    lemma ShowsTape(t: Tape)
      requires Valid() && Refines(origin, t)
      ensures Clean(origin, typed) ==> Refines(State(), TypeAll(t, typed))
      ensures stray == origin.stray <==> Clean(origin, typed)
    {
      StrayExactly(origin, t, typed);
      if Clean(origin, typed) { RunRefines(origin, t, typed); }
    }

    /** Moves the rows up, reading and clearing each source cell in the same pass over the
        overlapping ranges. */
    method ScrollScreen(lines: byte)
      requires video.Length == SIZE && lines <= 25
      modifies video
      ensures video[..] == Scrolled(old(video[..]), lines)
    {
      ghost var was := video[..];
      var d := ROW * lines;
      var writePos, readPos := 0, d;
      while readPos != SIZE
        invariant 0 <= writePos == readPos - d && d <= readPos <= SIZE
        invariant forall i :: 0 <= i < SIZE ==> video[i] == MidScroll(was, lines, readPos, i)
        decreases SIZE - readPos
      {
        video[writePos] := video[readPos];
        video[readPos] := 0;
        writePos := writePos + 1;
        readPos := readPos + 1;
      }
      assert forall i :: 0 <= i < SIZE ==> MidScroll(was, lines, SIZE, i) == Scrolled(was, lines)[i];
    }

    /** A store through the cursor, which is then advanced. Outside video memory the store is
        recorded instead. */
    method Store(v: byte)
      requires video.Length == SIZE
      modifies this, video
      ensures State() == Poke(old(State()), v) && origin == old(origin) && typed == old(typed)
    {
      if pos < SIZE {
        video[pos] := v;
      } else {
        stray := stray + [(pos, v)];
      }
      pos := Wrap(pos + 1);
    }

    method Draw(ch: byte, colour: byte)
      requires video.Length == SIZE
      modifies this, video
      ensures State() == Put(old(State()), ch, colour) && origin == old(origin) && typed == old(typed)
      decreases if ch == TAB || ch == BACKSPACE then 3 else 0
    {
      StayInBounds();
      if ch == NEWLINE {
        pos := Wrap(pos + ROW - pos % ROW);
      } else if ch == TAB {
        DrawTab(colour);
      } else if ch == BACKSPACE {
        DrawBackspace(colour);
      } else {
        Store(ch);
        Store(colour);
      }
    }

    method StayInBounds()
      requires video.Length == SIZE
      modifies this, video
      ensures State() == Scroll(old(State())) && origin == old(origin) && typed == old(typed)
    {
      if pos >= SIZE {
        ScrollScreen(1);
        pos := pos - ROW;
      }
    }

    method DrawTab(colour: byte)
      requires video.Length == SIZE
      modifies this, video
      ensures State() == PutTab(old(State()), colour) && origin == old(origin) && typed == old(typed)
      decreases 2
    {
      DrawSpace(colour);
      DrawSpace(colour);
      DrawSpace(colour);
      DrawSpace(colour);
    }

    method DrawBackspace(colour: byte)
      requires video.Length == SIZE
      modifies this, video
      ensures State() == PutBackspace(old(State()), colour) && origin == old(origin) && typed == old(typed)
      decreases 2
    {
      pos := Wrap(pos - 2);
      DrawSpace(colour);
      pos := Wrap(pos - 2);
      if pos > Wrap(pos + 2) { pos := 0; }
    }

    /** The recursive call: a space. */
    method DrawSpace(colour: byte)
      requires video.Length == SIZE
      modifies this, video
      ensures State() == PutPlain(old(State()), SPACE, colour) && origin == old(origin) && typed == old(typed)
      decreases 1
    {
      Draw(SPACE, colour);
    }

    /** `putch` as its callers see it: Draw, with the glyph added to the record. */
    method Putch(ch: byte, colour: byte)
      requires Valid()
      modifies this, video
      ensures State() == Put(old(State()), ch, colour)
      ensures Valid() && origin == old(origin) && typed == old(typed) + [Glyph(ch, colour)]
    {
      PutAllOne(origin, typed, Glyph(ch, colour));
      Draw(ch, colour);
      typed := typed + [Glyph(ch, colour)];
    }

    /** Prints up to the terminating NUL. */
    method Puts(str: seq<byte>, colour: byte)
      requires Valid() && 0 in str
      modifies this, video
      ensures Valid() && origin == old(origin) && typed == old(typed) + Coloured(UpToNul(str), colour)
    {
      ghost var line := UpToNul(str);
      var i := 0;
      assert line[..0] == [];
      while str[i] != 0
        invariant 0 <= i <= |line|
        invariant Valid() && origin == old(origin) && typed == old(typed) + Coloured(line[..i], colour)
        decreases |line| - i
      {
        ColouredStep(old(typed), line, i, colour);
        Putch(str[i], colour);
        i := i + 1;
      }
      assert line[..i] == line;
    }

    /** Two hexadecimal digits. The sign extension of a negative `char` is masked away. */
    method PutchHex(c: byte, colour: byte)
      requires Valid()
      modifies this, video
      ensures Valid() && origin == old(origin) && typed == old(typed) + Coloured(HexByte(c), colour)
    {
      var h := 0x30 + c / 16;
      if h > 0x39 { h := h + 7; }
      var l := 0x30 + c % 16;
      if l > 0x39 { l := l + 7; }
      assert Coloured(HexByte(c), colour) == [Glyph(h, colour)] + [Glyph(l, colour)];
      Putch(h, colour);
      Putch(l, colour);
    }

    method ClearScreen()
      requires Valid()
      modifies this, video
      ensures Valid() && origin == State() && typed == [] && pos == 0 && stray == old(stray)
      ensures Refines(State(), Tape(map[], 0))
    {
      pos := 0;
      for i := 0 to SIZE
        invariant pos == 0 && stray == old(stray)
        invariant forall k :: 0 <= k < i ==> video[k] == 0
      {
        video[i] := 0;
      }
      origin, typed := State(), [];
      BlankScreenRefines(video[..], stray);
    }
  }

  function Coloured(str: seq<byte>, colour: byte): (r: seq<Glyph>)
    ensures |r| == |str| && forall i :: 0 <= i < |str| ==> r[i] == Glyph(str[i], colour)
  {
    seq(|str|, i requires 0 <= i < |str| => Glyph(str[i], colour))
  }

  lemma ColouredStep(was: seq<Glyph>, str: seq<byte>, i: nat, colour: byte)
    requires i < |str|
    ensures was + Coloured(str[..i + 1], colour) == was + Coloured(str[..i], colour) + [Glyph(str[i], colour)]
  {
    assert Coloured(str[..i + 1], colour) == Coloured(str[..i], colour) + [Glyph(str[i], colour)];
  }

  /** Cell i when the scroll loop has read the cells before readPos. */
  function MidScroll(was: seq<byte>, lines: nat, readPos: int, i: int): byte
    requires |was| == SIZE && 0 <= i < SIZE && ROW * lines <= readPos <= SIZE
  {
    var d := ROW * lines;
    if lines == 0 then if i < readPos then 0 else was[i]
    else if i < readPos - d then was[i + d]
    else if d <= i < readPos then 0
    else was[i]
  }

  /** The characters of a C string. */
  function UpToNul(str: seq<byte>): (r: seq<byte>)
    requires 0 in str
    ensures r < str && 0 !in r && str[|r|] == 0
  {
    if str[0] == 0 then [] else [str[0]] + UpToNul(str[1..])
  }

  function HexDigit(v: int): byte
    requires 0 <= v < 16
  {
    if v < 10 then 0x30 + v else 0x37 + v
  }

  function HexByte(c: byte): seq<byte> {
    [HexDigit(c / 16), HexDigit(c % 16)]
  }
}
