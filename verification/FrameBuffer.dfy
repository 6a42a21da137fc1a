/** The VESA blitters (Drivers/VESA/VESA.c): loops that walk a byte pointer through the frame
    buffer, and the pixel-by-pixel drawing they stand for, for every resolution. */
module FrameBuffer {
  import opened Words

  datatype Colour = Colour(r: byte, g: byte, b: byte)

  const BLACK := Colour(0, 0, 0)

  // ----- Pixels

  /** The offset of row y, counted up by strides. */
  function RowStart(xres: nat, y: nat): nat {
    if y == 0 then 0 else RowStart(xres, y - 1) + 3 * xres
  }

  /** The offset of the three bytes of a pixel: blue, green, red. */
  function Addr(xres: nat, x: nat, y: nat): nat {
    3 * x + RowStart(xres, y)
  }

  lemma {:induction false} AddrIsProduct(xres: nat, x: nat, y: nat)
    ensures Addr(xres, x, y) == x * 3 + y * (xres * 3)
  {
    if y > 0 {
      AddrIsProduct(xres, x, y - 1);
      assert y * (xres * 3) == (y - 1) * (xres * 3) + xres * 3;
    }
  }

  lemma LowSum(a: nat, b: nat)
    ensures Low32(Low32(a) + b) == Low32(a + b) && Low32(Low32(a) + Low32(b)) == Low32(a + b)
  {
    assert a == a / ADDRESS_SPACE * ADDRESS_SPACE + Low32(a) && b == b / ADDRESS_SPACE * ADDRESS_SPACE + Low32(b);
  }

  /** The offset as the drawing routines compute it, in 32 bits, is the offset less a multiple
      of 2^32. */
  lemma AddrComputed(xres: nat, x: uint32, y: uint32)
    ensures Low32(Low32(x * 3) + Low32(y * (xres * 3))) == Low32(Addr(xres, x, y))
  {
    AddrIsProduct(xres, x, y);
    LowSum(x * 3, y * (xres * 3));
  }

  predicate Framed(fb: seq<byte>, xres: nat, yres: nat) {
    |fb| == RowStart(xres, yres)
  }

  /** Rows are a whole stride apart. */
  lemma {:induction false} RowsApart(xres: nat, y: nat, y': nat)
    requires y < y'
    ensures RowStart(xres, y) + 3 * xres <= RowStart(xres, y')
  {
    if y + 1 < y' { RowsApart(xres, y, y' - 1); }
  }

  lemma AddrInFrame(xres: nat, yres: nat, x: nat, y: nat)
    requires x < xres && y < yres
    ensures Addr(xres, x, y) + 3 <= RowStart(xres, yres)
  {
    RowsApart(xres, y, yres);
  }

  /** Different pixels occupy different bytes. */
  lemma AddrApart(xres: nat, x: nat, y: nat, x': nat, y': nat)
    requires x < xres && x' < xres && (x, y) != (x', y')
    ensures Addr(xres, x, y) + 3 <= Addr(xres, x', y') || Addr(xres, x', y') + 3 <= Addr(xres, x, y)
  {
    if y < y' { RowsApart(xres, y, y'); }
    if y' < y { RowsApart(xres, y', y); }
  }

  /** The colour of a pixel; black off the buffer. */
  function PixelAt(fb: seq<byte>, xres: nat, x: nat, y: nat): Colour {
    var a := Addr(xres, x, y);
    if a + 3 <= |fb| then Colour(fb[a + 2], fb[a + 1], fb[a]) else BLACK
  }

  /** The three stores that draw a pixel, which must lie in the buffer. */
  function SetPixel(fb: seq<byte>, xres: nat, x: nat, y: nat, c: Colour): (r: seq<byte>)
    ensures |r| == |fb|
  {
    var a := Addr(xres, x, y);
    if a + 3 <= |fb| then fb[a := c.b][a + 1 := c.g][a + 2 := c.r] else fb
  }

  lemma SetPixelSetsOne(fb: seq<byte>, xres: nat, yres: nat, x: nat, y: nat, c: Colour, x': nat, y': nat)
    requires Framed(fb, xres, yres) && x < xres && y < yres && x' < xres && y' < yres
    ensures PixelAt(SetPixel(fb, xres, x, y, c), xres, x', y')
         == if (x', y') == (x, y) then c else PixelAt(fb, xres, x', y')
  {
    AddrInFrame(xres, yres, x, y);
    AddrInFrame(xres, yres, x', y');
    if (x, y) != (x', y') {
      AddrApart(xres, x, y, x', y');
    }
  }

  /** The pixels leave no byte out: equal pixels make equal frame buffers. */
  lemma PixelsAreAll(fb: seq<byte>, fb': seq<byte>, xres: nat, yres: nat)
    requires Framed(fb, xres, yres) && Framed(fb', xres, yres)
    requires forall x: nat, y: nat :: x < xres && y < yres ==> PixelAt(fb, xres, x, y) == PixelAt(fb', xres, x, y)
    ensures fb == fb'
  {
    forall a | 0 <= a < |fb| ensures fb[a] == fb'[a] {
      var x, y := ByteHasPixel(a, xres, yres);
      AddrInFrame(xres, yres, x, y);
      assert PixelAt(fb, xres, x, y) == PixelAt(fb', xres, x, y);
    }
  }

  lemma {:induction false} ByteHasPixel(a: nat, xres: nat, yres: nat) returns (x: nat, y: nat)
    requires a < RowStart(xres, yres)
    ensures x < xres && y < yres && Addr(xres, x, y) <= a < Addr(xres, x, y) + 3
  {
    if a < RowStart(xres, yres - 1) {
      x, y := ByteHasPixel(a, xres, yres - 1);
    } else {
      y := yres - 1;
      x := (a - RowStart(xres, y)) / 3;
    }
  }

  /** A pixel is three bytes, blue first, red last; pixels follow one another along a row, and row
      follows row. */
  lemma PixelInBytes(fb: seq<byte>, xres: nat, yres: nat, x: nat, y: nat)
    requires Framed(fb, xres, yres) && x < xres && y < yres
    ensures var at := 3 * x + y * (xres * 3);
      && at + 3 <= |fb|
      && PixelAt(fb, xres, x, y).b == fb[at]
      && PixelAt(fb, xres, x, y).g == fb[at + 1]
      && PixelAt(fb, xres, x, y).r == fb[at + 2]
  {
    AddrInFrame(xres, yres, x, y);
    AddrIsProduct(xres, x, y);
  }

  // ----- 32-bit addresses

  /** The address of byte j of a pixel. */
  function ByteAddr(xres: nat, x: nat, y: nat, j: nat): uint32 { Low32(Addr(xres, x, y) + j) }

  /** Byte j of one pixel is stored where byte j' of another is. */
  predicate Clash(xres: nat, x: nat, y: nat, j: nat, x': nat, y': nat, j': nat) {
    (x, y) != (x', y') && ByteAddr(xres, x, y, j) == ByteAddr(xres, x', y', j')
  }

  ghost predicate NoClash(xres: nat, yres: nat) {
    forall x: nat, y: nat, j: nat, x': nat, y': nat, j': nat ::
      x < xres && y < yres && x' < xres && y' < yres && j < 3 && j' < 3 ==> !Clash(xres, x, y, j, x', y', j')
  }

  /** Different pixels are stored in different bytes exactly for the resolutions whose frame fits
      the 32-bit address space. */
  lemma PixelsApartExactly(xres: nat, yres: nat)
    ensures NoClash(xres, yres) <==> RowStart(xres, yres) <= ADDRESS_SPACE
  {
    if RowStart(xres, yres) <= ADDRESS_SPACE {
      forall x: nat, y: nat, j: nat, x': nat, y': nat, j': nat
        | x < xres && y < yres && x' < xres && y' < yres && j < 3 && j' < 3
        ensures !Clash(xres, x, y, j, x', y', j')
      {
        ByteInFrame(xres, yres, x, y, j);
        ByteInFrame(xres, yres, x', y', j');
        if (x, y) != (x', y') { AddrApart(xres, x, y, x', y'); }
      }
    } else {
      var x, y := ByteHasPixel(ADDRESS_SPACE, xres, yres);
      assert Addr(xres, 0, 0) == 0 && (x, y) != (0, 0);
      var j: nat := ADDRESS_SPACE - Addr(xres, x, y);
      assert Clash(xres, x, y, j, 0, 0, 0);
    }
  }

  /** The largest resolution the mode information can name does not fit. */
  lemma LargestResolutionClashes()
    ensures !NoClash(0xFFFF, 0xFFFF)
  {
    AddrIsProduct(0xFFFF, 0, 0xFFFF);
    PixelsApartExactly(0xFFFF, 0xFFFF);
  }

  lemma ByteInFrame(xres: nat, yres: nat, x: nat, y: nat, j: nat)
    requires x < xres && y < yres && j < 3 && RowStart(xres, yres) <= ADDRESS_SPACE
    ensures ByteAddr(xres, x, y, j) == Addr(xres, x, y) + j
  {
    AddrInFrame(xres, yres, x, y);
  }

  // ----- Rectangles, pixel by pixel

  /** What a drawing routine puts at column j of row i of its rectangle. */
  type Paint = (nat, nat) -> Colour

  datatype Rect = Rect(x: nat, y: nat, w: nat, h: nat) {
    predicate Fits(xres: nat, yres: nat) { x + w <= xres && y + h <= yres }
  }

  /** The first n pixels of row i, one after the other. */
  function DrawCells(fb: seq<byte>, xres: nat, yres: nat, q: Rect, paint: Paint, i: nat, n: nat): (r: seq<byte>)
    requires Framed(fb, xres, yres) && q.Fits(xres, yres) && i < q.h && n <= q.w
    ensures Framed(r, xres, yres)
  {
    if n == 0 then fb
    else SetPixel(DrawCells(fb, xres, yres, q, paint, i, n - 1), xres, q.x + n - 1, q.y + i, paint(n - 1, i))
  }

  /** The first n rows. */
  function DrawRows(fb: seq<byte>, xres: nat, yres: nat, q: Rect, paint: Paint, n: nat): (r: seq<byte>)
    requires Framed(fb, xres, yres) && q.Fits(xres, yres) && n <= q.h
    ensures Framed(r, xres, yres)
  {
    if n == 0 then fb
    else DrawCells(DrawRows(fb, xres, yres, q, paint, n - 1), xres, yres, q, paint, n - 1, q.w)
  }

  /** Drawing one more pixel of a row. */
  lemma NextCell(fb: seq<byte>, xres: nat, yres: nat, q: Rect, paint: Paint, i: nat, j: nat, c: Colour)
    requires Framed(fb, xres, yres) && q.Fits(xres, yres) && i < q.h && j < q.w && paint(j, i) == c
    ensures DrawCells(fb, xres, yres, q, paint, i, j + 1)
         == SetPixel(DrawCells(fb, xres, yres, q, paint, i, j), xres, q.x + j, q.y + i, c)
  {
  }

  /** The pixel at (x, y) once a rectangle has been painted. */
  function Painted(fb: seq<byte>, xres: nat, q: Rect, paint: Paint, x: nat, y: nat): Colour {
    if q.x <= x < q.x + q.w && q.y <= y < q.y + q.h then paint(x - q.x, y - q.y)
    else PixelAt(fb, xres, x, y)
  }

  lemma {:induction false} CellsPaint(fb: seq<byte>, xres: nat, yres: nat, q: Rect, paint: Paint,
      i: nat, n: nat, x: nat, y: nat)
    requires Framed(fb, xres, yres) && q.Fits(xres, yres) && i < q.h && n <= q.w && x < xres && y < yres
    ensures PixelAt(DrawCells(fb, xres, yres, q, paint, i, n), xres, x, y)
         == if y == q.y + i && q.x <= x < q.x + n then paint(x - q.x, i) else PixelAt(fb, xres, x, y)
  {
    AddrInFrame(xres, yres, x, y);
    if n > 0 {
      CellsPaint(fb, xres, yres, q, paint, i, n - 1, x, y);
      var front := DrawCells(fb, xres, yres, q, paint, i, n - 1);
      SetPixelSetsOne(front, xres, yres, q.x + n - 1, q.y + i, paint(n - 1, i), x, y);
    }
  }

  lemma {:induction false} RowsPaint(fb: seq<byte>, xres: nat, yres: nat, q: Rect, paint: Paint, n: nat, x: nat, y: nat)
    requires Framed(fb, xres, yres) && q.Fits(xres, yres) && n <= q.h && x < xres && y < yres
    ensures PixelAt(DrawRows(fb, xres, yres, q, paint, n), xres, x, y)
         == Painted(fb, xres, Rect(q.x, q.y, q.w, n), paint, x, y)
  {
    AddrInFrame(xres, yres, x, y);
    if n > 0 {
      RowsPaint(fb, xres, yres, q, paint, n - 1, x, y);
      CellsPaint(DrawRows(fb, xres, yres, q, paint, n - 1), xres, yres, q, paint, n - 1, q.w, x, y);
    }
  }

  /** Drawing every pixel of a rectangle: inside it each pixel has its paint, outside it no pixel
      and hence no byte has changed. */
  lemma RectPaint(fb: seq<byte>, xres: nat, yres: nat, q: Rect, paint: Paint, x: nat, y: nat)
    requires Framed(fb, xres, yres) && q.Fits(xres, yres) && x < xres && y < yres
    ensures PixelAt(DrawRows(fb, xres, yres, q, paint, q.h), xres, x, y) == Painted(fb, xres, q, paint, x, y)
  {
    RowsPaint(fb, xres, yres, q, paint, q.h, x, y);
  }

  /** The same for a pixel given by its column and row inside the rectangle. */
  lemma InsidePaint(fb: seq<byte>, xres: nat, yres: nat, q: Rect, paint: Paint, j: nat, i: nat)
    requires Framed(fb, xres, yres) && q.Fits(xres, yres) && j < q.w && i < q.h
    ensures PixelAt(DrawRows(fb, xres, yres, q, paint, q.h), xres, q.x + j, q.y + i) == paint(j, i)
  {
    RectPaint(fb, xres, yres, q, paint, q.x + j, q.y + i);
  }

  // ----- The driver

  class Vesa {
    const fb: array<byte>
    const xres: nat
    const yres: nat

    predicate Valid()
      reads this
    {
      && xres < 0x1_0000 && yres < 0x1_0000
      && fb.Length == RowStart(xres, yres) <= ADDRESS_SPACE
    }

    method Offset(x: uint32, y: uint32) returns (where: uint32)
      ensures where == Low32(Addr(xres, x, y))
    {
      AddrComputed(xres, x, y);
      where := Low32(Low32(x * 3) + Low32(y * (xres * 3)));
    }

    method DrawPixel(x: uint32, y: uint32, c: Colour)
      requires Valid() && x < xres && y < yres
      modifies fb
      ensures fb[..] == SetPixel(old(fb[..]), xres, x, y, c)
      ensures Addr(xres, x, y) == 3 * x + y * (xres * 3) && Addr(xres, x, y) + 3 <= fb.Length
      ensures var at := Addr(xres, x, y); fb[at] == c.b && fb[at + 1] == c.g && fb[at + 2] == c.r
    {
      AddrInFrame(xres, yres, x, y);
      AddrIsProduct(xres, x, y);
      var where := Offset(x, y);
      fb[where] := c.b;
      where := where + 1;
      fb[where] := c.g;
      where := where + 1;
      fb[where] := c.r;
    }

    /** One pass over the rectangle with a pointer that is never recomputed. */
    method DrawFillRect(q: Rect, c: Colour)
      requires Valid() && q.Fits(xres, yres)
      modifies fb
      ensures fb[..] == DrawRows(old(fb[..]), xres, yres, q, Plain(c), q.h)
      ensures Filled(old(fb[..]), fb[..], xres, yres, q, c)
    {
      FillIsColour(fb[..], xres, yres, q, c);
      ghost var was := fb[..];
      var where := Offset(q.x, q.y);
      for i := 0 to q.h
        invariant where == Low32(Addr(xres, q.x, q.y + i))
        invariant fb[..] == DrawRows(was, xres, yres, q, Plain(c), i)
      {
        where := FillRow(where, q, c, i);
        NextRow(q.x, q.w, q.y + i);
        where := Low32(where + (xres * 3 - q.w * 3));
      }
    }

    method FillRow(start: uint32, q: Rect, c: Colour, i: nat) returns (where: uint32)
      requires Valid() && q.Fits(xres, yres) && i < q.h && start == Low32(Addr(xres, q.x, q.y + i))
      modifies fb
      ensures where == Low32(Addr(xres, q.x + q.w, q.y + i))
      ensures fb[..] == DrawCells(old(fb[..]), xres, yres, q, Plain(c), i, q.w)
    {
      where := start;
      ghost var was, paint := fb[..], Plain(c);
      for j := 0 to q.w
        invariant where == Low32(Addr(xres, q.x + j, q.y + i))
        invariant fb[..] == DrawCells(was, xres, yres, q, paint, i, j)
      {
        NextCell(was, xres, yres, q, paint, i, j, c);
        where := Put(where, c, q.x + j, q.y + i);
      }
    }

    /** The pointer's step from the end of a row of the rectangle to the start of the next. */
    lemma NextRow(x: nat, w: nat, y: nat)
      requires w <= xres
      ensures Low32(Low32(Addr(xres, x + w, y)) + (xres * 3 - w * 3)) == Low32(Addr(xres, x, y + 1))
    {
      LowSum(Addr(xres, x + w, y), xres * 3 - w * 3);
    }

    /** Three stores through the moving pointer. */
    method Put(from: uint32, c: Colour, ghost x: nat, ghost y: nat) returns (where: uint32)
      requires Valid() && x < xres && y < yres && from == Low32(Addr(xres, x, y))
      modifies fb
      ensures where == Low32(Addr(xres, x + 1, y))
      ensures fb[..] == SetPixel(old(fb[..]), xres, x, y, c)
    {
      AddrInFrame(xres, yres, x, y);
      fb[from] := c.b;
      fb[from + 1] := c.g;
      fb[from + 2] := c.r;
      where := Wrap(from + 3);
    }

    /** The colour on the border, black inside. */
    method DrawRect(q: Rect, c: Colour)
      requires Valid() && q.Fits(xres, yres)
      modifies fb
      ensures fb[..] == DrawRows(old(fb[..]), xres, yres, q, Border(q, c), q.h)
      ensures Bordered(old(fb[..]), fb[..], xres, yres, q, c)
    {
      FrameIsColour(fb[..], xres, yres, q, c);
      ghost var was := fb[..];
      var where := Offset(q.x, q.y);
      for i := 0 to q.h
        invariant where == Low32(Addr(xres, q.x, q.y + i))
        invariant fb[..] == DrawRows(was, xres, yres, q, Border(q, c), i)
      {
        where := BorderRow(where, q, c, i);
        NextRow(q.x, q.w, q.y + i);
        where := Low32(where + (xres * 3 - q.w * 3));
      }
    }

    method BorderRow(start: uint32, q: Rect, c: Colour, i: nat) returns (where: uint32)
      requires Valid() && q.Fits(xres, yres) && i < q.h && start == Low32(Addr(xres, q.x, q.y + i))
      modifies fb
      ensures where == Low32(Addr(xres, q.x + q.w, q.y + i))
      ensures fb[..] == DrawCells(old(fb[..]), xres, yres, q, Border(q, c), i, q.w)
    {
      where := start;
      for j := 0 to q.w
        invariant where == Low32(Addr(xres, q.x + j, q.y + i))
        invariant fb[..] == DrawCells(old(fb[..]), xres, yres, q, Border(q, c), i, j)
      {
        if i == 0 || i == q.h - 1 || j == 0 || j == q.w - 1 {
          where := Put(where, c, q.x + j, q.y + i);
        } else {
          where := Put(where, BLACK, q.x + j, q.y + i);
        }
      }
    }

    /** One glyph of the 8x8 font, scaled. The counters are 8 bits wide, so the loops end only if
        the scaled size fits them. */
    method DrawChar(glyph: seq<bv8>, x0: nat, y0: nat, c: Colour, scale: uint32)
      requires Valid() && |glyph| == 8
      requires CountersReach(scale) && Square(x0, y0, scale).Fits(xres, yres)
      modifies fb
      ensures fb[..] == DrawGlyph(old(fb[..]), xres, yres, glyph, x0, y0, c, scale, Extent(scale))
      ensures GlyphDrawn(old(fb[..]), fb[..], xres, yres, glyph, x0, y0, c, scale)
    {
      GlyphIsDrawn(fb[..], xres, yres, glyph, x0, y0, c, scale);
      ghost var was, paint, q := fb[..], Glyph(glyph, c, scale), Square(x0, y0, scale);
      CountersReachExactly(scale);
      var size := Low32(8 * scale);
      var y: byte := 0;
      while y < size
        invariant 0 <= y <= size
        invariant fb[..] == DrawRows(was, xres, yres, q, paint, y)
      {
        DrawDotRow(glyph, x0, y0, c, scale, size, y);
        y := Next8(y);
      }
    }

    method DrawDotRow(glyph: seq<bv8>, x0: nat, y0: nat, c: Colour, scale: uint32, size: nat, y: nat)
      requires Valid() && |glyph| == 8 && Square(x0, y0, scale).Fits(xres, yres)
      requires size == Extent(scale) <= 255 && y < size
      modifies fb
      ensures fb[..] == DrawCells(old(fb[..]), xres, yres, Square(x0, y0, scale), Glyph(glyph, c, scale), y, size)
    {
      var x: byte := 0;
      while x < size
        invariant 0 <= x <= size
        invariant fb[..] == DrawCells(old(fb[..]), xres, yres, Square(x0, y0, scale), Glyph(glyph, c, scale), y, x)
      {
        DrawDot(glyph, x0, y0, c, scale, x, y);
        x := Next8(x);
      }
    }

    method DrawDot(glyph: seq<bv8>, x0: nat, y0: nat, c: Colour, scale: uint32, x: nat, y: nat)
      requires Valid() && |glyph| == 8 && Square(x0, y0, scale).Fits(xres, yres)
      requires x < Extent(scale) && y < Extent(scale)
      modifies fb
      ensures fb[..] == SetPixel(old(fb[..]), xres, x0 + x, y0 + y, Dot(glyph, c, scale, x, y))
    {
      var set_ := TestFont(glyph, scale, x, y);
      if set_ {
        DrawPixel(x0 + x, y0 + y, c);
      } else {
        DrawPixel(x0 + x, y0 + y, BLACK);
      }
    }

    method TestFont(glyph: seq<bv8>, scale: uint32, x: nat, y: nat) returns (b: bool)
      requires |glyph| == 8 && x < Extent(scale) && y < Extent(scale)
      ensures scale > 0 && b == FontBit(glyph, Cell(x, scale), Cell(y, scale))
    {
      InGlyph(scale, x);
      InGlyph(scale, y);
      CellIsQuotient(x, scale);
      CellIsQuotient(y, scale);
      b := glyph[y / scale] & MASK[x / scale] != 0;
    }
  }

  function Plain(c: Colour): Paint {
    (j: nat, i: nat) => c
  }

  function Border(q: Rect, c: Colour): Paint {
    (j: nat, i: nat) => if i == 0 || i == q.h - 1 || j == 0 || j == q.w - 1 then c else BLACK
  }

  /** `VESA_DrawRect` leaves the colour on the border of the rectangle, black inside it and every
      other pixel as it was. */
  lemma RectIsBorder(fb: seq<byte>, xres: nat, yres: nat, q: Rect, c: Colour, x: nat, y: nat)
    requires Framed(fb, xres, yres) && q.Fits(xres, yres) && x < xres && y < yres
    ensures PixelAt(DrawRows(fb, xres, yres, q, Border(q, c), q.h), xres, x, y) ==
      if !(q.x <= x < q.x + q.w && q.y <= y < q.y + q.h) then PixelAt(fb, xres, x, y)
      else if x == q.x || x == q.x + q.w - 1 || y == q.y || y == q.y + q.h - 1 then c
      else BLACK
  {
    RectPaint(fb, xres, yres, q, Border(q, c), x, y);
  }

  /** Every pixel of the rectangle has the colour, and every other pixel is as it was. */
  ghost predicate Filled(was: seq<byte>, now: seq<byte>, xres: nat, yres: nat, q: Rect, c: Colour) {
    forall x: nat, y: nat :: x < xres && y < yres ==>
      PixelAt(now, xres, x, y) ==
        if q.x <= x < q.x + q.w && q.y <= y < q.y + q.h then c else PixelAt(was, xres, x, y)
  }

  lemma FillIsColour(fb: seq<byte>, xres: nat, yres: nat, q: Rect, c: Colour)
    requires Framed(fb, xres, yres) && q.Fits(xres, yres)
    ensures Filled(fb, DrawRows(fb, xres, yres, q, Plain(c), q.h), xres, yres, q, c)
  {
    var now := DrawRows(fb, xres, yres, q, Plain(c), q.h);
    forall x: nat, y: nat | x < xres && y < yres
      ensures PixelAt(now, xres, x, y) ==
        if q.x <= x < q.x + q.w && q.y <= y < q.y + q.h then c else PixelAt(fb, xres, x, y)
    {
      RectPaint(fb, xres, yres, q, Plain(c), x, y);
    }
  }

  /** The border of the rectangle has the colour, its inside is black, and every other pixel is as it
      was. */
  ghost predicate Bordered(was: seq<byte>, now: seq<byte>, xres: nat, yres: nat, q: Rect, c: Colour) {
    forall x: nat, y: nat :: x < xres && y < yres ==>
      PixelAt(now, xres, x, y) ==
        if !(q.x <= x < q.x + q.w && q.y <= y < q.y + q.h) then PixelAt(was, xres, x, y)
        else if x == q.x || x == q.x + q.w - 1 || y == q.y || y == q.y + q.h - 1 then c
        else Colour(0, 0, 0)
  }

  lemma FrameIsColour(fb: seq<byte>, xres: nat, yres: nat, q: Rect, c: Colour)
    requires Framed(fb, xres, yres) && q.Fits(xres, yres)
    ensures Bordered(fb, DrawRows(fb, xres, yres, q, Border(q, c), q.h), xres, yres, q, c)
  {
    var now := DrawRows(fb, xres, yres, q, Border(q, c), q.h);
    forall x: nat, y: nat | x < xres && y < yres
      ensures PixelAt(now, xres, x, y) ==
        if !(q.x <= x < q.x + q.w && q.y <= y < q.y + q.h) then PixelAt(fb, xres, x, y)
        else if x == q.x || x == q.x + q.w - 1 || y == q.y || y == q.y + q.h - 1 then c
        else Colour(0, 0, 0)
    {
      RectIsBorder(fb, xres, yres, q, c, x, y);
    }
  }

  // ----- Glyphs

  const MASK: seq<bv8> := [1, 2, 4, 8, 16, 32, 64, 128]

  /** The side of a scaled glyph as the loops compute it, in 32 bits. */
  function Extent(scale: uint32): uint32 { Low32(8 * scale) }

  function Square(x: nat, y: nat, scale: uint32): Rect { Rect(x, y, Extent(scale), Extent(scale)) }

  /** An 8-bit loop counter after n increments. */
  function Counter(n: nat): byte {
    if n == 0 then 0 else Next8(Counter(n - 1))
  }

  lemma {:induction false} CounterCounts(n: nat)
    ensures n <= 255 ==> Counter(n) == n
  {
    if n > 0 { CounterCounts(n - 1); }
  }

  /** The loop ends: after some number of rounds the counter has reached the size. */
  ghost predicate CountersReach(scale: uint32) { exists n: nat :: LoopDone(n, scale) }

  predicate LoopDone(n: nat, scale: uint32) { Counter(n) >= Extent(scale) }

  /** Exactly the sizes below 256 end the loops: of the scales below 2^29, those up to 31. */
  lemma CountersReachExactly(scale: uint32)
    ensures CountersReach(scale) <==> Extent(scale) <= 255
    ensures scale < 0x2000_0000 ==> (CountersReach(scale) <==> scale <= 31)
  {
    if Extent(scale) <= 255 {
      CounterCounts(255);
      assert LoopDone(255, scale);
    }
  }

  /** The font cell a scaled coordinate falls into. */
  function Cell(x: nat, scale: nat): nat
    requires scale > 0
  {
    if x < scale then 0 else 1 + Cell(x - scale, scale)
  }

  lemma {:induction false} CellBounds(x: nat, scale: nat)
    requires scale > 0
    ensures Cell(x, scale) * scale <= x < Cell(x, scale) * scale + scale
  {
    if x >= scale {
      CellBounds(x - scale, scale);
      assert (1 + Cell(x - scale, scale)) * scale == Cell(x - scale, scale) * scale + scale;
    }
  }

  lemma {:induction false} ProductStep(a: nat, b: nat, s: nat)
    ensures a < b ==> a * s + s <= b * s
    decreases b
  {
    if a < b {
      assert b * s == (b - 1) * s + s;
      ProductStep(a, b - 1, s);
    }
  }

  lemma CellIsQuotient(x: nat, scale: nat)
    requires scale > 0
    ensures Cell(x, scale) == x / scale
  {
    CellBounds(x, scale);
    assert x == x / scale * scale + x % scale;
    ProductStep(Cell(x, scale), x / scale, scale);
    ProductStep(x / scale, Cell(x, scale), scale);
  }

  lemma {:induction false} CellBelow(x: nat, scale: nat, n: nat, limit: nat)
    requires scale > 0 && x < limit && limit == n * scale
    ensures Cell(x, scale) < n
  {
    if x >= scale {
      assert n > 0;
      assert (n - 1) * scale == n * scale - scale;
      CellBelow(x - scale, scale, n - 1, limit - scale);
    }
  }

  lemma InGlyph(scale: uint32, x: nat)
    requires x < Extent(scale)
    ensures scale > 0 && Cell(x, scale) < 8
  {
    CellBelow(x, scale, 8, 8 * scale);
  }

  /** Font bit (column, row): bit 0 is the leftmost column. */
  predicate FontBit(glyph: seq<bv8>, column: nat, row: nat) {
    row < |glyph| && column < 8 && glyph[row] & MASK[column] != 0
  }

  /** Bit 0 of a row, the least significant one, is its column 0. */
  lemma FontBitInNumbers(glyph: seq<bv8>, column: nat, row: nat)
    requires column < 8 && row < |glyph|
    ensures FontBit(glyph, column, row) <==> (glyph[row] >> column) & 1 == 1
  {
    var g := glyph[row];
    if column == 0 { assert g & 1 != 0 <==> (g >> 0) & 1 == 1; }
    else if column == 1 { assert g & 2 != 0 <==> (g >> 1) & 1 == 1; }
    else if column == 2 { assert g & 4 != 0 <==> (g >> 2) & 1 == 1; }
    else if column == 3 { assert g & 8 != 0 <==> (g >> 3) & 1 == 1; }
    else if column == 4 { assert g & 16 != 0 <==> (g >> 4) & 1 == 1; }
    else if column == 5 { assert g & 32 != 0 <==> (g >> 5) & 1 == 1; }
    else if column == 6 { assert g & 64 != 0 <==> (g >> 6) & 1 == 1; }
    else { assert g & 128 != 0 <==> (g >> 7) & 1 == 1; }
  }

  function Dot(glyph: seq<bv8>, c: Colour, scale: uint32, x: nat, y: nat): Colour {
    if scale > 0 && FontBit(glyph, Cell(x, scale), Cell(y, scale)) then c else BLACK
  }

  function Glyph(glyph: seq<bv8>, c: Colour, scale: uint32): Paint {
    (x: nat, y: nat) => Dot(glyph, c, scale, x, y)
  }

  lemma {:induction false} CellOfOne(x: nat)
    ensures Cell(x, 1) == x
  {
    if x > 0 { CellOfOne(x - 1); }
  }

  lemma GlyphScales(glyph: seq<bv8>, c: Colour, scale: uint32, x: nat, y: nat)
    requires scale > 0
    ensures Dot(glyph, c, scale, x, y) == Dot(glyph, c, 1, Cell(x, scale), Cell(y, scale))
  {
    CellOfOne(Cell(x, scale));
    CellOfOne(Cell(y, scale));
  }

  /** Every dot of a glyph, drawn one by one on a square of the given size. */
  function DrawGlyph(fb: seq<byte>, xres: nat, yres: nat, glyph: seq<bv8>, x0: nat, y0: nat, c: Colour,
      scale: uint32, size: nat): seq<byte>
    requires Framed(fb, xres, yres) && x0 + size <= xres && y0 + size <= yres
  {
    DrawRows(fb, xres, yres, Rect(x0, y0, size, size), Glyph(glyph, c, scale), size)
  }

  /** Every pixel of the square has the colour of its font dot. */
  ghost predicate ShowsGlyph(fb: seq<byte>, xres: nat, glyph: seq<bv8>, x0: nat, y0: nat, c: Colour,
      scale: uint32, size: nat)
  {
    forall x: nat, y: nat :: x < size && y < size ==> PixelAt(fb, xres, x0 + x, y0 + y) == Dot(glyph, c, scale, x, y)
  }

  lemma DrawnGlyphShows(fb: seq<byte>, xres: nat, yres: nat, glyph: seq<bv8>, x0: nat, y0: nat, c: Colour,
      scale: uint32, size: nat)
    requires Framed(fb, xres, yres) && x0 + size <= xres && y0 + size <= yres
    ensures ShowsGlyph(DrawGlyph(fb, xres, yres, glyph, x0, y0, c, scale, size), xres, glyph, x0, y0, c, scale, size)
  {
    var drawn := DrawGlyph(fb, xres, yres, glyph, x0, y0, c, scale, size);
    forall x: nat, y: nat | x < size && y < size
      ensures PixelAt(drawn, xres, x0 + x, y0 + y) == Dot(glyph, c, scale, x, y)
    {
      InsidePaint(fb, xres, yres, Rect(x0, y0, size, size), Glyph(glyph, c, scale), x, y);
    }
  }

  /** Inside the square of 8 times the scale, in 32 bits, a pixel has the colour if bit x / scale of row
      y / scale is set, and is black otherwise; every other pixel is as it was. */
  ghost predicate GlyphDrawn(was: seq<byte>, now: seq<byte>, xres: nat, yres: nat, glyph: seq<bv8>, x0: nat, y0: nat,
      c: Colour, scale: uint32)
    requires |glyph| == 8
  {
    var side := 8 * scale % 0x1_0000_0000;
    forall x: nat, y: nat :: x < xres && y < yres ==>
      PixelAt(now, xres, x, y) ==
        if !(x0 <= x < x0 + side && y0 <= y < y0 + side) then PixelAt(was, xres, x, y)
        else if BitOf(glyph, x - x0, y - y0, scale) then c
        else Colour(0, 0, 0)
  }

  predicate BitOf(glyph: seq<bv8>, x: nat, y: nat, scale: nat) {
    scale > 0 && x / scale < 8 && y / scale < |glyph| && (glyph[y / scale] >> (x / scale)) & 1 == 1
  }

  lemma DotInNumbers(glyph: seq<bv8>, c: Colour, scale: uint32, x: nat, y: nat)
    requires |glyph| == 8 && x < Extent(scale) && y < Extent(scale)
    ensures Dot(glyph, c, scale, x, y) == if BitOf(glyph, x, y, scale) then c else Colour(0, 0, 0)
  {
    InGlyph(scale, x);
    InGlyph(scale, y);
    CellIsQuotient(x, scale);
    CellIsQuotient(y, scale);
    FontBitInNumbers(glyph, x / scale, y / scale);
  }

  lemma GlyphIsDrawn(fb: seq<byte>, xres: nat, yres: nat, glyph: seq<bv8>, x0: nat, y0: nat, c: Colour, scale: uint32)
    requires Framed(fb, xres, yres) && |glyph| == 8 && Square(x0, y0, scale).Fits(xres, yres)
    ensures GlyphDrawn(fb, DrawGlyph(fb, xres, yres, glyph, x0, y0, c, scale, Extent(scale)), xres, yres,
                       glyph, x0, y0, c, scale)
  {
    var side := Extent(scale);
    var now := DrawGlyph(fb, xres, yres, glyph, x0, y0, c, scale, side);
    forall x: nat, y: nat | x < xres && y < yres
      ensures PixelAt(now, xres, x, y) ==
        if !(x0 <= x < x0 + side && y0 <= y < y0 + side) then PixelAt(fb, xres, x, y)
        else if BitOf(glyph, x - x0, y - y0, scale) then c
        else Colour(0, 0, 0)
    {
      RectPaint(fb, xres, yres, Rect(x0, y0, side, side), Glyph(glyph, c, scale), x, y);
      if x0 <= x < x0 + side && y0 <= y < y0 + side { DotInNumbers(glyph, c, scale, x - x0, y - y0); }
    }
  }

  /** A scaled glyph is the block enlargement of the unscaled one: its pixel (x, y) has the
      colour the unscaled drawing has at (x / scale, y / scale). */
  lemma ScaledGlyph(big: seq<byte>, small: seq<byte>, xres: nat, glyph: seq<bv8>, x0: nat, y0: nat, c: Colour,
      scale: uint32, x: nat, y: nat)
    requires 1 <= scale <= 31 && x < 8 * scale && y < 8 * scale
    requires ShowsGlyph(big, xres, glyph, x0, y0, c, scale, 8 * scale)
    requires ShowsGlyph(small, xres, glyph, x0, y0, c, 1, 8)
    ensures Cell(x, scale) < 8 && Cell(y, scale) < 8
    ensures PixelAt(big, xres, x0 + x, y0 + y) == PixelAt(small, xres, x0 + Cell(x, scale), y0 + Cell(y, scale))
  {
    CellBelow(x, scale, 8, 8 * scale);
    CellBelow(y, scale, 8, 8 * scale);
    GlyphScales(glyph, c, scale, x, y);
    assert Dot(glyph, c, scale, x, y) == PixelAt(big, xres, x0 + x, y0 + y);
  }
}
