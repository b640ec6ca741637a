/**
  * `drawChar`: a 5 x 8 glyph from the font table plus one blank spacer
  * column, each font pixel drawn as a `size` x `size` block.  A set font bit
  * is drawn in the text colour; a clear one in the background colour, and
  * only when it would show (the background colour is nonzero or differs from
  * the text colour).
  */
module Glyphs {
  import opened CInt
  import opened FrameBuffer

  /** Font bytes: five column bytes for each of the 256 character codes. */
  const FONT_SIZE: int := 5 * 256

  /** The arguments of one drawChar call. */
  datatype Glyph = Glyph(x: int, y: int, c: u8, color: u8, bg: u8, size: u8)

  /** The early return: the glyph starts right of or below the screen, or its five font columns or eight rows end before it. */
  predicate Clipped(g: Glyph) {
    g.x >= WIDTH || g.y >= HEIGHT || g.x + 5 * g.size - 1 < 0 || g.y + 8 * g.size - 1 < 0
  }

  /** Column i of the glyph: a font byte for i < 5, the blank spacer for i == 5. */
  function GlyphLine(font: seq<bv8>, c: u8, i: int): bv8
    requires |font| >= FONT_SIZE && 0 <= i < 6
  {
    if i == 5 then 0 else font[5 * c + i]
  }

  /** The column byte after `j` of the loop's `line >>= 1` steps. */
  function Shifted(line: bv8, j: nat): bv8 {
    if j == 0 then line else Shifted(line, j - 1) >> 1
  }

  /** The j-th shift of a byte brings its bit j to the bottom. */
  lemma {:induction false} ShiftedBit(line: bv8, j: nat)
    requires j < 8
    ensures Shifted(line, j) & 1 != 0 <==> line & Mask(j) != 0
  {
    ShiftedIs(line, j);
    if j == 0 {
    } else if j == 1 {
    } else if j == 2 {
    } else if j == 3 {
    } else if j == 4 {
    } else if j == 5 {
    } else if j == 6 {
    } else {
    }
  }

  /** After j single shifts the byte is the original shifted by j. */
  lemma {:induction false} ShiftedIs(line: bv8, j: nat)
    requires j < 8
    ensures Shifted(line, j) == line >> j
  {
    if j == 0 {
    } else {
      ShiftedIs(line, j - 1);
      if j == 1 {
      } else if j == 2 {
        assert (line >> 1) >> 1 == line >> 2;
      } else if j == 3 {
        assert (line >> 2) >> 1 == line >> 3;
      } else if j == 4 {
        assert (line >> 3) >> 1 == line >> 4;
      } else if j == 5 {
        assert (line >> 4) >> 1 == line >> 5;
      } else if j == 6 {
        assert (line >> 5) >> 1 == line >> 6;
      } else {
        assert (line >> 6) >> 1 == line >> 7;
      }
    }
  }

  lemma {:induction false} ShiftedZero(j: nat)
    ensures Shifted(0, j) == 0
  {
    if j > 0 {
      ShiftedZero(j - 1);
    }
  }

  /** Font pixel (i, j) is set. */
  predicate GlyphBit(font: seq<bv8>, c: u8, i: int, j: nat)
    requires |font| >= FONT_SIZE && 0 <= i < 6
  {
    Shifted(GlyphLine(font, c, i), j) & 1 != 0
  }

  /** `draw_color` of cell (i, j): the text colour on a set bit, the background otherwise. */
  function CellColor(font: seq<bv8>, g: Glyph, i: int, j: nat): (r: u8)
    requires |font| >= FONT_SIZE && 0 <= i < 6
    ensures r == g.color || r == g.bg
    ensures GlyphBit(font, g.c, i, j) ==> r == g.color
  {
    if GlyphBit(font, g.c, i, j) then g.color else g.bg
  }

  /** Cell (i, j) is drawn: its colour is nonzero, or the background differs from the text colour. */
  predicate CellDrawn(font: seq<bv8>, g: Glyph, i: int, j: nat)
    requires |font| >= FONT_SIZE && 0 <= i < 6
  {
    CellColor(font, g, i, j) != 0 || g.bg != g.color
  }

  /** The block of one cell from column `a` on: `size` columns of `size` pixels, top to bottom. */
  function Block(x0: int, y0: int, size: u8, a: nat): seq<Point>
    decreases size - a
  {
    if a >= size then [] else Column(x0 + a, y0, y0 + size) + Block(x0, y0, size, a + 1)
  }

  lemma {:induction false} BlockMembers(x0: int, y0: int, size: u8, a: nat, q: Point)
    ensures q in Block(x0, y0, size, a) <==> x0 + a <= q.x < x0 + size && y0 <= q.y < y0 + size
    decreases size - a
  {
    if a < size {
      ColumnHas(x0 + a, y0, y0 + size, q);
      BlockMembers(x0, y0, size, a + 1, q);
    }
  }

  /** Cell (i, j) drawn with drawPixel over its block, or skipped. */
  function DrawCell(buf: Buffer, font: seq<bv8>, g: Glyph, i: int, j: nat): Buffer
    requires |font| >= FONT_SIZE && 0 <= i < 6
  {
    if CellDrawn(font, g, i, j)
    then PlotAll(buf, Block(g.x + i * g.size, g.y + j * g.size, g.size, 0), CellColor(font, g, i, j))
    else buf
  }

  /** The cells from (i, j) on, column by column and top to bottom within a column. */
  function CellsFrom(buf: Buffer, font: seq<bv8>, g: Glyph, i: nat, j: nat): Buffer
    requires |font| >= FONT_SIZE && j <= 8
    decreases 6 - i, 8 - j
  {
    if i >= 6 then buf
    else if j == 8 then CellsFrom(buf, font, g, i + 1, 0)
    else CellsFrom(DrawCell(buf, font, g, i, j), font, g, i, j + 1)
  }

  /** The effect of `drawChar`. */
  function CharBuffer(buf: Buffer, font: seq<bv8>, g: Glyph): Buffer
    requires |font| >= FONT_SIZE
  {
    if Clipped(g) then buf else CellsFrom(buf, font, g, 0, 0)
  }

  // ---------------------------------------------------------------------
  // drawChar's loops, one step at a time

  /** One turn of the innermost loop: pixel (x, lo) of the column, then the rest of it. */
  lemma ColumnStep(buf: Buffer, x: int, lo: int, lo': int, hi: int, color: u8)
    requires lo < hi && lo' == lo + 1
    ensures PlotAll(buf, Column(x, lo, hi), color) == PlotAll(Plot(buf, Point(x, lo), color), Column(x, lo', hi), color)
  {
    var rest := Column(x, lo', hi);
    assert Column(x, lo, hi) == [Point(x, lo)] + rest;
    assert ([Point(x, lo)] + rest)[1..] == rest;
  }

  /** One column `a` of a block, at screen column px, then the columns after it. */
  lemma BlockStep(buf: Buffer, x0: int, y0: int, size: u8, a: nat, a': nat, px: int, color: u8)
    requires a < size && a' == a + 1 && px == x0 + a
    ensures PlotAll(buf, Block(x0, y0, size, a), color) ==
            PlotAll(PlotAll(buf, Column(px, y0, y0 + size), color), Block(x0, y0, size, a'), color)
  {
    PlotAllAppend(buf, Column(px, y0, y0 + size), Block(x0, y0, size, a'), color);
  }

  /**
    * One turn of the loop over a glyph column: cell (i, j), at screen
    * position (x0, y0) in colour drawColor, is drawn when the cell is, and
    * the column goes on at row j'.
    */
  lemma CellStep(buf: Buffer, font: seq<bv8>, g: Glyph, i: nat, j: nat, j': nat, x0: int, y0: int, drawColor: u8)
    requires |font| >= FONT_SIZE && i < 6 && j < 8 && j' == j + 1
    requires x0 == g.x + i * g.size && y0 == g.y + j * g.size && drawColor == CellColor(font, g, i, j)
    ensures CellsFrom(buf, font, g, i, j) ==
            CellsFrom(if drawColor != 0 || g.bg != g.color then PlotAll(buf, Block(x0, y0, g.size, 0), drawColor) else buf,
                      font, g, i, j')
  {
    var drawn := DrawCell(buf, font, g, i, j);
    assert CellsFrom(buf, font, g, i, j) == CellsFrom(drawn, font, g, i, j + 1);
    assert drawn == if drawColor != 0 || g.bg != g.color then PlotAll(buf, Block(x0, y0, g.size, 0), drawColor) else buf;
  }

  /** One more `line >>= 1`. */
  lemma ShiftStep(line: bv8, j: nat, j': nat)
    requires j' == j + 1
    ensures Shifted(line, j') == Shifted(line, j) >> 1
  {
  }

  /** Offset d lies in span i of width `size`. */
  predicate InSpan(d: int, i: int, size: int) {
    i * size <= d < i * size + size
  }

  /** Pixel q lies in the block of cell (i, j). */
  predicate InCell(g: Glyph, i: int, j: int, q: Point) {
    InSpan(q.x - g.x, i, g.size) && InSpan(q.y - g.y, j, g.size)
  }

  /** Plotting a block sets exactly the pixels of its square. */
  lemma BlockPixel(buf: Buffer, x0: int, y0: int, size: u8, color: u8, q: Point)
    requires OnScreen(q)
    ensures Lit(PlotAll(buf, Block(x0, y0, size, 0), color), q) ==
            if x0 <= q.x < x0 + size && y0 <= q.y < y0 + size then color != 0 else Lit(buf, q)
  {
    PlotAllPixel(buf, Block(x0, y0, size, 0), color, q);
    BlockMembers(x0, y0, size, 0, q);
  }

  lemma DrawCellPixel(buf: Buffer, font: seq<bv8>, g: Glyph, i: int, j: nat, q: Point)
    requires |font| >= FONT_SIZE && 0 <= i < 6 && OnScreen(q)
    ensures Lit(DrawCell(buf, font, g, i, j), q) ==
            if InCell(g, i, j, q) && CellDrawn(font, g, i, j) then CellColor(font, g, i, j) != 0 else Lit(buf, q)
  {
    if CellDrawn(font, g, i, j) {
      var x0, y0 := g.x + i * g.size, g.y + j * g.size;
      var color := CellColor(font, g, i, j);
      assert DrawCell(buf, font, g, i, j) == PlotAll(buf, Block(x0, y0, g.size, 0), color);
      BlockPixel(buf, x0, y0, g.size, color, q);
      assert InCell(g, i, j, q) <==> x0 <= q.x < x0 + g.size && y0 <= q.y < y0 + g.size;
    } else {
      assert DrawCell(buf, font, g, i, j) == buf;
    }
  }

  /** For a positive width, offset d lies in span i exactly when i == d / size. */
  lemma SpanIndex(d: int, size: int, i: int)
    requires size > 0
    ensures InSpan(d, i, size) <==> i == d / size
  {
    var k := d / size;
    assert k * size <= d < k * size + size;
    if i < k {
      MulMono(i + 1, k, size);
      assert (i + 1) * size == i * size + size;
    } else if i > k {
      MulMono(k + 1, i, size);
      assert (k + 1) * size == k * size + size;
    }
  }

  /** The first n spans of width `size` tile the offsets 0 .. n * size - 1. */
  lemma SpanRange(d: int, size: int, n: nat)
    requires size > 0
    ensures 0 <= d < n * size <==> 0 <= d / size < n
  {
    var k := d / size;
    SpanIndex(d, size, k);
    if 0 <= k < n {
      MulMono(0, k, size);
      MulMono(k + 1, n, size);
      assert (k + 1) * size == k * size + size;
    } else if k < 0 {
      MulMono(k + 1, 0, size);
      assert (k + 1) * size == k * size + size;
    } else {
      MulMono(n, k, size);
    }
  }

  /** Cell (i, j) comes at or after cell (i0, j0) in drawing order. */
  predicate AtOrAfter(i: int, j: int, i0: int, j0: int) {
    i > i0 || (i == i0 && j >= j0)
  }

  /**
    * The cells from (i0, j0) on leave pixel q as its own cell sets it, when
    * that cell is yet to come and is drawn, and unchanged otherwise.
    */
  lemma {:induction false} CellsFromPixel(buf: Buffer, font: seq<bv8>, g: Glyph, i0: nat, j0: nat, q: Point, i: int, j: int)
    requires |font| >= FONT_SIZE && j0 <= 8 && OnScreen(q)
    requires 0 <= i < 6 && 0 <= j < 8 && InCell(g, i, j, q)
    requires forall i', j' :: 0 <= i' < 6 && 0 <= j' < 8 && InCell(g, i', j', q) ==> i' == i && j' == j
    ensures Lit(CellsFrom(buf, font, g, i0, j0), q) ==
            if AtOrAfter(i, j, i0, j0) && CellDrawn(font, g, i, j) then CellColor(font, g, i, j) != 0 else Lit(buf, q)
    decreases 6 - i0, 8 - j0
  {
    if i0 < 6 {
      if j0 == 8 {
        CellsFromPixel(buf, font, g, i0 + 1, 0, q, i, j);
      } else {
        var next := DrawCell(buf, font, g, i0, j0);
        CellsFromPixel(next, font, g, i0, j0 + 1, q, i, j);
        DrawCellPixel(buf, font, g, i0, j0, q);
      }
    }
  }

  /** A pixel outside every cell is left alone by the cells from (i0, j0) on. */
  lemma {:induction false} CellsFromOutside(buf: Buffer, font: seq<bv8>, g: Glyph, i0: nat, j0: nat, q: Point)
    requires |font| >= FONT_SIZE && j0 <= 8 && OnScreen(q)
    requires forall i', j' :: 0 <= i' < 6 && 0 <= j' < 8 ==> !InCell(g, i', j', q)
    ensures Lit(CellsFrom(buf, font, g, i0, j0), q) == Lit(buf, q)
    decreases 6 - i0, 8 - j0
  {
    if i0 < 6 {
      if j0 == 8 {
        CellsFromOutside(buf, font, g, i0 + 1, 0, q);
      } else {
        var next := DrawCell(buf, font, g, i0, j0);
        CellsFromOutside(next, font, g, i0, j0 + 1, q);
        DrawCellPixel(buf, font, g, i0, j0, q);
      }
    }
  }

  /** The glyph column of pixel q, for a nonzero size. */
  function GridX(g: Glyph, q: Point): int
    requires g.size > 0
  {
    (q.x - g.x) / g.size
  }

  /** The glyph row of pixel q, for a nonzero size. */
  function GridY(g: Glyph, q: Point): int
    requires g.size > 0
  {
    (q.y - g.y) / g.size
  }

  /** Pixel q falls in the 6 x 8 grid of cells of a glyph with a nonzero size. */
  predicate InGrid(g: Glyph, q: Point) {
    g.size > 0 && 0 <= GridX(g, q) < 6 && 0 <= GridY(g, q) < 8
  }

  /** The grid is the 6 size x 8 size rectangle at the glyph's origin. */
  lemma InGridBox(g: Glyph, q: Point)
    ensures InGrid(g, q) <==> 0 <= q.x - g.x < 6 * g.size && 0 <= q.y - g.y < 8 * g.size
  {
    if g.size > 0 {
      SpanRange(q.x - g.x, g.size, 6);
      SpanRange(q.y - g.y, g.size, 8);
    }
  }

  /**
    * drawChar, pixel by pixel: when the glyph is not clipped, a pixel in the
    * grid takes the colour of its cell (font pixel (dx / size, dy / size))
    * if that cell is drawn; every other pixel keeps its value.
    */
  lemma CharPixel(buf: Buffer, font: seq<bv8>, g: Glyph, q: Point)
    requires |font| >= FONT_SIZE && OnScreen(q)
    ensures Lit(CharBuffer(buf, font, g), q) ==
            if !Clipped(g) && InGrid(g, q) && CellDrawn(font, g, GridX(g, q), GridY(g, q))
            then CellColor(font, g, GridX(g, q), GridY(g, q)) != 0
            else Lit(buf, q)
  {
    InGridBox(g, q);
    if !Clipped(g) {
      if InGrid(g, q) {
        CharPixelInside(buf, font, g, q);
      } else {
        CharPixelOutside(buf, font, g, q);
      }
    }
  }

  lemma CharPixelInside(buf: Buffer, font: seq<bv8>, g: Glyph, q: Point)
    requires |font| >= FONT_SIZE && OnScreen(q) && InGrid(g, q)
    ensures var i, j := GridX(g, q), GridY(g, q);
            Lit(CellsFrom(buf, font, g, 0, 0), q) == if CellDrawn(font, g, i, j) then CellColor(font, g, i, j) != 0 else Lit(buf, q)
  {
    var dx, dy := q.x - g.x, q.y - g.y;
    var i, j := GridX(g, q), GridY(g, q);
    SpanIndex(dx, g.size, i);
    SpanIndex(dy, g.size, j);
    forall i', j' | 0 <= i' < 6 && 0 <= j' < 8 && InCell(g, i', j', q)
      ensures i' == i && j' == j
    {
      SpanIndex(dx, g.size, i');
      SpanIndex(dy, g.size, j');
    }
    CellsFromPixel(buf, font, g, 0, 0, q, i, j);
  }

  lemma CharPixelOutside(buf: Buffer, font: seq<bv8>, g: Glyph, q: Point)
    requires |font| >= FONT_SIZE && OnScreen(q)
    requires !(0 <= q.x - g.x < 6 * g.size && 0 <= q.y - g.y < 8 * g.size)
    ensures Lit(CellsFrom(buf, font, g, 0, 0), q) == Lit(buf, q)
  {
    var dx, dy := q.x - g.x, q.y - g.y;
    forall i', j' | 0 <= i' < 6 && 0 <= j' < 8
      ensures !InCell(g, i', j', q)
    {
      if InCell(g, i', j', q) {
        SpanIndex(dx, g.size, i');
        SpanIndex(dy, g.size, j');
        SpanRange(dx, g.size, 6);
        SpanRange(dy, g.size, 8);
      }
    }
    CellsFromOutside(buf, font, g, 0, 0, q);
  }

  /** The spacer column is drawn in the background colour, and only when the background would show. */
  lemma SpacerIsBackground(font: seq<bv8>, g: Glyph, j: nat)
    requires |font| >= FONT_SIZE
    ensures CellColor(font, g, 5, j) == g.bg
    ensures CellDrawn(font, g, 5, j) <==> g.bg != 0 || g.bg != g.color
  {
    ShiftedZero(j);
  }
}
