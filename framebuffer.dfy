/**
  * The packed 1-bit framebuffer: WIDTH x HEIGHT pixels stored as one byte per
  * column of each eight-pixel band, pixel (x, y) at byte (y / 8) * WIDTH + x,
  * bit y % 8.  This module gives the buffer's pixel view and the effect of the
  * two primitives every other routine is built from: `drawPixel` (Plot) and
  * the masked byte run of `drawFastHLine` (HLine).
  */
module FrameBuffer {
  import opened CInt

  const WIDTH: int := 128
  const HEIGHT: int := 64
  const WHITE: u8 := 1
  const BLACK: u8 := 0
  /** 1024 bytes for 128 x 64 pixels. */
  const BUFFER_SIZE: int := WIDTH * HEIGHT / 8

  /** The contents of the screen buffer. */
  type Buffer = s: seq<bv8> | |s| == BUFFER_SIZE witness seq(BUFFER_SIZE, _ => 0)

  datatype Point = Point(x: int, y: int)

  predicate OnScreen(p: Point) {
    0 <= p.x < WIDTH && 0 <= p.y < HEIGHT
  }

  /** The byte holding pixel `p`: band y / 8, column x. */
  function Offset(p: Point): (i: int)
    requires OnScreen(p)
    ensures 0 <= i < BUFFER_SIZE
  {
    (p.y / 8) * WIDTH + p.x
  }

  /** The byte index splits back into the band and the column. */
  lemma OffsetParts(p: Point)
    requires OnScreen(p)
    ensures Offset(p) / WIDTH == p.y / 8 && Offset(p) % WIDTH == p.x
  {
  }

  function Mask(bit: int): bv8
    requires 0 <= bit < 8
  {
    (1 as bv8) << bit
  }

  /** Pixel `p` is on. */
  predicate Lit(buf: Buffer, p: Point)
    requires OnScreen(p)
  {
    buf[Offset(p)] & Mask(p.y % 8) != 0
  }

  /**
    * The effect of `drawPixel(x, y, color)` with the bounds check of
    * PIXEL_SAFE_MODE: an off-screen pixel is ignored, any nonzero colour sets
    * the bit and zero clears it.
    */
  function Plot(buf: Buffer, p: Point, color: u8): Buffer {
    if !OnScreen(p) then buf
    else
      var i := Offset(p);
      buf[i := SetBit(buf[i], p.y % 8, color)]
  }

  /** Bit `k` of byte `b` set for a nonzero colour and cleared for zero. */
  function SetBit(b: bv8, k: int, color: u8): bv8
    requires 0 <= k < 8
  {
    if color != 0 then b | Mask(k) else b & !Mask(k)
  }

  lemma BitOfMaskedByte(b: bv8, k: int, j: int)
    requires 0 <= k < 8 && 0 <= j < 8
    ensures (b | Mask(k)) & Mask(j) != 0 <==> k == j || b & Mask(j) != 0
    ensures (b & !Mask(k)) & Mask(j) != 0 <==> k != j && b & Mask(j) != 0
  {
  }

  lemma BitOfSetBit(b: bv8, k: int, color: u8, j: int)
    requires 0 <= k < 8 && 0 <= j < 8
    ensures SetBit(b, k, color) & Mask(j) != 0 <==> if k == j then color != 0 else b & Mask(j) != 0
  {
    BitOfMaskedByte(b, k, j);
  }

  /** Two bytes that agree on each of their eight bits are equal. */
  lemma ByteFromBits(a: bv8, b: bv8)
    requires forall k :: 0 <= k < 8 ==> (a & Mask(k) != 0 <==> b & Mask(k) != 0)
    ensures a == b
  {
    assert a & Mask(0) != 0 <==> b & Mask(0) != 0;
    assert a & Mask(1) != 0 <==> b & Mask(1) != 0;
    assert a & Mask(2) != 0 <==> b & Mask(2) != 0;
    assert a & Mask(3) != 0 <==> b & Mask(3) != 0;
    assert a & Mask(4) != 0 <==> b & Mask(4) != 0;
    assert a & Mask(5) != 0 <==> b & Mask(5) != 0;
    assert a & Mask(6) != 0 <==> b & Mask(6) != 0;
    assert a & Mask(7) != 0 <==> b & Mask(7) != 0;
  }

  /** Distinct on-screen pixels live in distinct bytes or distinct bits. */
  lemma OffsetInjective(p: Point, q: Point)
    requires OnScreen(p) && OnScreen(q)
    requires Offset(p) == Offset(q) && p.y % 8 == q.y % 8
    ensures p == q
  {
    OffsetParts(p);
    OffsetParts(q);
  }

  /** The pixel stored in bit `k` of byte `i`: the inverse of Offset. */
  function PixelOfBit(i: int, k: int): (p: Point)
    requires 0 <= i < BUFFER_SIZE && 0 <= k < 8
    ensures OnScreen(p) && Offset(p) == i && p.y % 8 == k
  {
    Point(i % WIDTH, (i / WIDTH) * 8 + k)
  }

  /** Every on-screen pixel is the pixel of its own byte and bit. */
  lemma PixelOfOffset(p: Point)
    requires OnScreen(p)
    ensures PixelOfBit(Offset(p), p.y % 8) == p
  {
    OffsetInjective(p, PixelOfBit(Offset(p), p.y % 8));
  }

  /** A column past the right edge reads a pixel further on: (200, 0) is the byte and bit of pixel (72, 8). */
  lemma ColumnPastEdge()
    ensures (0 / 8) * WIDTH + 200 < BUFFER_SIZE && PixelOfBit((0 / 8) * WIDTH + 200, 0 % 8) == Point(72, 8)
  {
  }

  /**
    * Pixel round trip: after drawPixel(p, color), pixel p reads back as
    * `color != 0` and every other pixel is unchanged.
    */
  lemma PlotPixel(buf: Buffer, p: Point, color: u8, q: Point)
    requires OnScreen(q)
    ensures Lit(Plot(buf, p, color), q) == if q == p then color != 0 else Lit(buf, q)
  {
    if OnScreen(p) {
      if Offset(q) == Offset(p) {
        PlotSameByte(buf, p, color, q);
      } else {
        assert Plot(buf, p, color)[Offset(q)] == buf[Offset(q)];
      }
    }
  }

  lemma PlotSameByte(buf: Buffer, p: Point, color: u8, q: Point)
    requires OnScreen(p) && OnScreen(q) && Offset(p) == Offset(q)
    ensures Lit(Plot(buf, p, color), q) == if q == p then color != 0 else Lit(buf, q)
  {
    if p.y % 8 == q.y % 8 {
      OffsetInjective(p, q);
    }
    BitOfSetBit(buf[Offset(p)], p.y % 8, color, q.y % 8);
  }

  /** Two buffers that show the same picture hold the same bytes. */
  lemma BufferExt(a: Buffer, b: Buffer)
    requires forall p :: OnScreen(p) ==> (Lit(a, p) <==> Lit(b, p))
    ensures a == b
  {
    forall i | 0 <= i < BUFFER_SIZE
      ensures a[i] == b[i]
    {
      var x, band := i % WIDTH, i / WIDTH;
      forall k | 0 <= k < 8
        ensures a[i] & Mask(k) != 0 <==> b[i] & Mask(k) != 0
      {
        var p := Point(x, 8 * band + k);
        assert OnScreen(p) && p.y % 8 == k;
        assert Offset(p) == i;
        assert Lit(a, p) <==> Lit(b, p);
      }
      ByteFromBits(a[i], b[i]);
    }
  }

  /** drawPixel called on each point of `pts` in turn, all in one colour. */
  function PlotAll(buf: Buffer, pts: seq<Point>, color: u8): Buffer
    decreases |pts|
  {
    if pts == [] then buf else PlotAll(Plot(buf, pts[0], color), pts[1..], color)
  }

  /** After plotting `pts`, a pixel is `color != 0` if it is one of them, and unchanged otherwise. */
  lemma {:induction false} PlotAllPixel(buf: Buffer, pts: seq<Point>, color: u8, q: Point)
    requires OnScreen(q)
    ensures Lit(PlotAll(buf, pts, color), q) == if q in pts then color != 0 else Lit(buf, q)
    decreases |pts|
  {
    if pts != [] {
      PlotAllPixel(Plot(buf, pts[0], color), pts[1..], color, q);
      PlotPixel(buf, pts[0], color, q);
      assert q in pts <==> q == pts[0] || q in pts[1..] by {
        assert pts == [pts[0]] + pts[1..];
      }
    }
  }

  lemma {:induction false} PlotAllAppend(buf: Buffer, p: seq<Point>, q: seq<Point>, color: u8)
    ensures PlotAll(buf, p + q, color) == PlotAll(PlotAll(buf, p, color), q, color)
    decreases |p|
  {
    if p != [] {
      assert (p + q)[1..] == p[1..] + q;
      PlotAllAppend(Plot(buf, p[0], color), p[1..], q, color);
    } else {
      assert p + q == q;
    }
  }

  /**
    * Plotting depends only on which on-screen pixels are plotted, not on
    * their order, repetitions or on off-screen points.
    */
  lemma PlotAllSameSet(buf: Buffer, pts: seq<Point>, qts: seq<Point>, color: u8)
    requires forall q :: OnScreen(q) ==> (q in pts <==> q in qts)
    ensures PlotAll(buf, pts, color) == PlotAll(buf, qts, color)
  {
    forall q | OnScreen(q)
      ensures Lit(PlotAll(buf, pts, color), q) <==> Lit(PlotAll(buf, qts, color), q)
    {
      PlotAllPixel(buf, pts, color, q);
      PlotAllPixel(buf, qts, color, q);
    }
    BufferExt(PlotAll(buf, pts, color), PlotAll(buf, qts, color));
  }

  /** The points (lo, y), (lo + 1, y), ..., (hi - 1, y). */
  function Row(lo: int, hi: int, y: int): seq<Point>
    decreases hi - lo
  {
    if lo >= hi then [] else [Point(lo, y)] + Row(lo + 1, hi, y)
  }

  lemma {:induction false} RowMembers(lo: int, hi: int, y: int)
    ensures forall q :: q in Row(lo, hi, y) <==> lo <= q.x < hi && q.y == y
    decreases hi - lo
  {
    if lo < hi {
      RowMembers(lo + 1, hi, y);
    }
  }

  /** The points (x, lo), (x, lo + 1), ..., (x, hi - 1). */
  function Column(x: int, lo: int, hi: int): seq<Point>
    decreases hi - lo
  {
    if lo >= hi then [] else [Point(x, lo)] + Column(x, lo + 1, hi)
  }

  lemma {:induction false} ColumnMembers(x: int, lo: int, hi: int)
    ensures forall q :: q in Column(x, lo, hi) <==> q.x == x && lo <= q.y < hi
    decreases hi - lo
  {
    if lo < hi {
      ColumnMembers(x, lo + 1, hi);
    }
  }

  /** The whole buffer as `fillScreen(color)` leaves it. */
  function Filled(color: u8): Buffer {
    seq(BUFFER_SIZE, _ => if color != 0 then 0xFF else 0)
  }

  /** After fillScreen(color) every pixel is `color != 0`. */
  lemma FilledPixel(color: u8, p: Point)
    requires OnScreen(p)
    ensures Lit(Filled(color), p) == (color != 0)
  {
  }

  /**
    * The clipping of `drawFastHLine(x, y, w, ..)` exactly as written: first
    * column and byte count.  A negative `x` is folded into the `uint8_t`
    * width (`w += x` wraps modulo 256), and the right-edge clip
    * `w = WIDTH - x` is stored into the `uint8_t` too.
    */
  function HLineClipAsWritten(x: int, w: u8): (r: (int, u8))
    ensures 0 <= r.0
    ensures 0 <= x < WIDTH && x + w <= WIDTH ==> r == (x, w)
    ensures x <= WIDTH ==> r.0 + r.1 <= WIDTH
    ensures x > WIDTH ==> r == (x, Wrap8(WIDTH - x))
  {
    var (x1, w1) := if x < 0 then (0, Wrap8(w + x)) else (x, w);
    var w2 := if x1 + w1 > WIDTH then Wrap8(WIDTH - x1) else w1;
    (x1, w2)
  }

  /**
    * The same clipping with the two runs the `uint8_t` width gets wrong
    * treated as empty: a start column at or beyond WIDTH, and a run that
    * ends left of column 0.  The clipped run is then exactly the part of
    * [x, x + w) on the screen.
    */
  function HLineClip(x: int, w: u8): (r: (int, u8))
    ensures 0 <= r.0 && r.0 + r.1 <= WIDTH
    ensures r.1 == Max(0, Min(x + w, WIDTH) - Max(x, 0))
    ensures r.1 > 0 ==> r.0 == Max(x, 0)
    ensures x < WIDTH && 0 < x + w ==> r == HLineClipAsWritten(x, w)
    ensures x <= WIDTH && 0 <= x + w ==> r.1 == HLineClipAsWritten(x, w).1
  {
    if x >= WIDTH || x + w <= 0 then (0, 0) else HLineClipAsWritten(x, w)
  }

  /**
    * An x of 129 lets the as-written run start past the end of its band and
    * run 255 bytes: from row 0 it lands in the next band, at pixel (1, 8);
    * from row 56 it starts past the end of the buffer.
    */
  lemma HLineClipOverrun()
    ensures HLineClipAsWritten(WIDTH + 1, 0) == (WIDTH + 1, 255)
    ensures Lit(HLine(Filled(BLACK), WIDTH + 1, 0, 0, WHITE), Point(1, 8))
    ensures (56 / 8) * WIDTH + (WIDTH + 1) + 255 > BUFFER_SIZE
  {
    var r := HLine(Filled(BLACK), WIDTH + 1, 0, 0, WHITE);
    assert Offset(Point(1, 8)) == 129;
    assert r[129] == SetBit(0, 0, WHITE);
  }

  /**
    * The byte run of `drawFastHLine(x, y, w, color)`, with the clipping as
    * written: OR the bit of row y into the clipped run for WHITE, clear it
    * for BLACK; any other colour, or a row outside the screen, leaves the
    * buffer as it is.  Bytes of a run that passes the end of the buffer are
    * not part of the buffer and are dropped.
    */
  function HLine(buf: Buffer, x: int, y: int, w: u8, color: u8): (r: Buffer)
    ensures y < 0 || y >= HEIGHT || (color != WHITE && color != BLACK) ==> r == buf
  {
    if y < 0 || y >= HEIGHT || (color != WHITE && color != BLACK) then buf
    else
      var (start, count) := HLineClipAsWritten(x, w);
      var first := (y / 8) * WIDTH + start;
      seq(BUFFER_SIZE, i requires 0 <= i < BUFFER_SIZE =>
        if first <= i < first + count then SetBit(buf[i], y % 8, color) else buf[i])
  }

  /** An empty clipped run leaves the buffer as it is. */
  lemma HLineEmpty(buf: Buffer, x: int, y: int, w: u8, color: u8)
    requires HLineClipAsWritten(x, w).1 == 0
    ensures HLine(buf, x, y, w, color) == buf
  {
    if 0 <= y < HEIGHT && (color == WHITE || color == BLACK) {
      var r := HLine(buf, x, y, w, color);
      forall i | 0 <= i < BUFFER_SIZE
        ensures r[i] == buf[i]
      {
      }
    }
  }

  /** The buffer with bit k set to `color` in the bytes of [lo, hi). */
  function Run(buf: Buffer, lo: int, hi: int, k: int, color: u8): Buffer
    requires 0 <= k < 8
  {
    seq(BUFFER_SIZE, i requires 0 <= i < BUFFER_SIZE => if lo <= i < hi then SetBit(buf[i], k, color) else buf[i])
  }

  /** An empty run is no change; extending a run by one byte updates just that byte. */
  lemma RunStep(buf: Buffer, lo: int, hi: int, k: int, color: u8)
    requires 0 <= k < 8 && 0 <= lo <= hi < BUFFER_SIZE
    ensures Run(buf, lo, lo, k, color) == buf
    ensures Run(buf, lo, hi, k, color)[hi] == buf[hi]
    ensures Run(buf, lo, hi + 1, k, color) == Run(buf, lo, hi, k, color)[hi := SetBit(buf[hi], k, color)]
  {
  }

  /** A run is cut off at the end of the buffer; one that starts past it changes nothing. */
  lemma RunClamp(buf: Buffer, lo: int, hi: int, k: int, color: u8)
    requires 0 <= k < 8
    ensures Run(buf, lo, hi, k, color) == Run(buf, lo, Min(hi, BUFFER_SIZE), k, color)
    ensures lo >= BUFFER_SIZE ==> Run(buf, lo, hi, k, color) == buf
  {
  }

  /** drawFastHLine on WHITE or BLACK is the run over its clipped span in band y / 8. */
  lemma HLineIsRun(buf: Buffer, x: int, y: int, w: u8, color: u8)
    requires 0 <= y < HEIGHT && (color == WHITE || color == BLACK)
    ensures var first := (y / 8) * WIDTH + HLineClipAsWritten(x, w).0;
            HLine(buf, x, y, w, color) == Run(buf, first, first + HLineClipAsWritten(x, w).1, y % 8, color)
  {
  }

  /** drawFastHLine changes only bytes of band y / 8 in the clipped column range. */
  lemma HLineRun(buf: Buffer, x: int, y: int, w: u8, color: u8, i: int)
    requires 0 <= i < BUFFER_SIZE
    ensures HLine(buf, x, y, w, color)[i] != buf[i] ==>
      0 <= y < HEIGHT && (y / 8) * WIDTH + HLineClipAsWritten(x, w).0 <= i < (y / 8) * WIDTH + HLineClipAsWritten(x, w).0 + HLineClipAsWritten(x, w).1
  {
  }

  /**
    * The pixels drawFastHLine covers: its clipped run on row y.  (For
    * x > WIDTH the run lies past the end of the row; the bytes it writes
    * are those of the next band, see HLineClipOverrun.)
    */
  function HLinePoints(x: int, y: int, w: u8): seq<Point> {
    if 0 <= y < HEIGHT then
      var (start, count) := HLineClipAsWritten(x, w);
      Row(start, start + count, y)
    else []
  }

  /**
    * Unless the run ends left of the screen, drawFastHLine's pixels are
    * exactly the on-screen part of [x, x + w) on row y, the corrected
    * clip's run.
    */
  lemma HLineMembers(x: int, y: int, w: u8)
    requires 0 <= x + w
    ensures forall q :: OnScreen(q) ==> (q in HLinePoints(x, y, w) <==> q.y == y && x <= q.x < x + w)
  {
    var (start, count) := HLineClipAsWritten(x, w);
    RowMembers(start, start + count, y);
    if x <= WIDTH {
      var c := HLineClip(x, w);
      assert c.1 == count;
    }
  }

  /**
    * A run that ends left of the screen wraps its width, `w + x`, modulo
    * 256 and covers the start of row y up to that width.
    */
  lemma HLineWrapMembers(x: int, y: int, w: u8)
    requires x + w < 0
    ensures forall q :: OnScreen(q) ==> (q in HLinePoints(x, y, w) <==> q.y == y && q.x < Wrap8(w + x))
  {
    var (start, count) := HLineClipAsWritten(x, w);
    RowMembers(start, start + count, y);
  }

  /**
    * Pixel view of drawFastHLine for x <= WIDTH: a pixel of the clipped run
    * takes the colour, the others keep theirs.
    */
  lemma HLinePixel(buf: Buffer, x: int, y: int, w: u8, color: u8, q: Point)
    requires (color == WHITE || color == BLACK) && OnScreen(q) && x <= WIDTH
    ensures Lit(HLine(buf, x, y, w, color), q) == if q in HLinePoints(x, y, w) then color != 0 else Lit(buf, q)
  {
    var r := HLine(buf, x, y, w, color);
    if 0 <= y < HEIGHT {
      var (start, count) := HLineClipAsWritten(x, w);
      RowMembers(start, start + count, y);
      var first := (y / 8) * WIDTH + start;
      var i := Offset(q);
      OffsetParts(q);
      if first <= i < first + count {
        assert q.y / 8 == y / 8 && start <= q.x < start + count;
        assert r[i] == SetBit(buf[i], y % 8, color);
        BitOfSetBit(buf[i], y % 8, color, q.y % 8);
        assert q in HLinePoints(x, y, w) <==> q.y % 8 == y % 8;
      } else {
        assert r[i] == buf[i];
        assert q !in HLinePoints(x, y, w);
      }
    }
  }

  /**
    * For WHITE and BLACK and x <= WIDTH the byte run equals drawPixel on
    * every pixel of the clipped span.
    */
  lemma HLineAsPlots(buf: Buffer, x: int, y: int, w: u8, color: u8)
    requires (color == WHITE || color == BLACK) && x <= WIDTH
    ensures HLine(buf, x, y, w, color) == PlotAll(buf, HLinePoints(x, y, w), color)
  {
    var r := HLine(buf, x, y, w, color);
    var pts := HLinePoints(x, y, w);
    forall q | OnScreen(q)
      ensures Lit(r, q) <==> Lit(PlotAll(buf, pts, color), q)
    {
      PlotAllPixel(buf, pts, color, q);
      HLinePixel(buf, x, y, w, color, q);
    }
    BufferExt(r, PlotAll(buf, pts, color));
  }

  /**
    * A run wholly left of the screen (x = -1, w = 0) wraps its width to
    * 255 and, clipped at the right edge, covers the whole row; the
    * corrected clip draws nothing.
    */
  lemma HLineNegativeWrap()
    ensures HLineClipAsWritten(-1, 0) == (0, WIDTH as u8)
    ensures Lit(HLine(Filled(BLACK), -1, 0, 0, WHITE), Point(WIDTH - 1, 0))
    ensures HLineClip(-1, 0).1 == 0
  {
    var r := HLine(Filled(BLACK), -1, 0, 0, WHITE);
    assert Offset(Point(WIDTH - 1, 0)) == WIDTH - 1;
    assert r[WIDTH - 1] == SetBit(0, 0, WHITE);
  }

  /**
    * drawFastHLine in WHITE or BLACK, wherever its run lands, only ever
    * gives pixels the colour: a pixel that has it keeps it.
    */
  lemma HLineKeepsColour(buf: Buffer, x: int, y: int, w: u8, color: u8, q: Point)
    requires (color == WHITE || color == BLACK) && OnScreen(q) && Lit(buf, q) == (color != 0)
    ensures Lit(HLine(buf, x, y, w, color), q) == (color != 0)
  {
    var r := HLine(buf, x, y, w, color);
    var i := Offset(q);
    if r[i] != buf[i] {
      BitOfSetBit(buf[i], y % 8, color, q.y % 8);
    }
  }

  /** The pixels drawFastVLine(x, y, h, ..) plots: rows max(0, y) .. min(y + h, HEIGHT) - 1 of column x. */
  function VLinePoints(x: int, y: int, h: u8): seq<Point> {
    Column(x, Max(0, y), Min(y + h, HEIGHT))
  }

  /** drawFastVLine's pixels are exactly the on-screen part of [y, y + h) in column x. */
  lemma VLineMembers(x: int, y: int, h: u8)
    ensures forall q :: OnScreen(q) ==> (q in VLinePoints(x, y, h) <==> q.x == x && y <= q.y < y + h)
  {
    ColumnMembers(x, Max(0, y), Min(y + h, HEIGHT));
  }

  /** VLineMembers for one pixel. */
  lemma VLineHas(x: int, y: int, h: u8, q: Point)
    requires OnScreen(q)
    ensures q in VLinePoints(x, y, h) <==> q.x == x && y <= q.y < y + h
  {
    VLineMembers(x, y, h);
  }

  /** HLineMembers for one pixel. */
  lemma HLineHas(x: int, y: int, w: u8, q: Point)
    requires OnScreen(q) && 0 <= x + w
    ensures q in HLinePoints(x, y, w) <==> q.y == y && x <= q.x < x + w
  {
    HLineMembers(x, y, w);
  }

  /** ColumnMembers for one point. */
  lemma ColumnHas(x: int, lo: int, hi: int, q: Point)
    ensures q in Column(x, lo, hi) <==> q.x == x && lo <= q.y < hi
  {
    ColumnMembers(x, lo, hi);
  }
}
