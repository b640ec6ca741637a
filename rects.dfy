/**
  * The rectangle routines, each a composition of the span primitives:
  * `drawRect` (two horizontal runs, two columns), `fillRect` (one column per
  * x), and the rounded variants, which shorten the edges by the radius and
  * add the quarter circles of `drawCircleHelper` / `fillCircleHelper`.
  */
module Rects {
  import opened CInt
  import opened FrameBuffer
  import opened Circles

  /** `drawRect(x, y, w, h, color)`: top run, bottom run, left column, right column. */
  function RectBuffer(buf: Buffer, x: int, y: int, w: u8, h: u8, color: u8): Buffer {
    Edges(buf, x, x + w - 1, y, y + h - 1, x, y, w, h, color)
  }

  /**
    * The four edges drawRect and drawRoundRect draw, with their coordinates
    * worked out: runs of `ew` pixels from column `xs` on rows `yt` and `yb`,
    * then columns of `eh` pixels from row `ys` at `xl` and `xr`.
    */
  function Edges(buf: Buffer, xl: int, xr: int, yt: int, yb: int, xs: int, ys: int, ew: u8, eh: u8, color: u8): Buffer {
    var top := HLine(buf, xs, yt, ew, color);
    var bottom := HLine(top, xs, yb, ew, color);
    var left := PlotAll(bottom, VLinePoints(xl, ys, eh), color);
    PlotAll(left, VLinePoints(xr, ys, eh), color)
  }

  /** Pixel q lies on the outline of the w x h rectangle at (x, y). */
  ghost predicate OnBorder(x: int, y: int, w: int, h: int, q: Point) {
    x <= q.x < x + w && y <= q.y < y + h &&
    (q.x == x || q.x == x + w - 1 || q.y == y || q.y == y + h - 1)
  }

  /**
    * drawRect in WHITE or BLACK colours exactly the on-screen pixels of the
    * rectangle's outline and leaves every other pixel alone, wherever the
    * clipping of drawFastHLine is right: x <= WIDTH and x + w >= 0 (see
    * RectWrapsLeft for a rectangle left of the screen).  With w or h zero
    * it still draws a column or a row, which the outline of an empty
    * rectangle does not contain.
    */
  lemma RectOutline(buf: Buffer, x: int, y: int, w: u8, h: u8, color: u8, q: Point)
    requires color == WHITE || color == BLACK
    requires 1 <= w && 1 <= h && OnScreen(q) && x <= WIDTH && 0 <= x + w
    ensures Lit(RectBuffer(buf, x, y, w, h, color), q) == if OnBorder(x, y, w, h, q) then color != 0 else Lit(buf, q)
  {
    RectEdges(buf, RectBuffer(buf, x, y, w, h, color), x, y, x + w - 1, y + h - 1, w, h, color, q);
  }

  /** RectOutline for a buffer `r` drawn as the four edges, with the far column and row given as `x2` and `y2`. */
  lemma RectEdges(buf: Buffer, r: Buffer, x: int, y: int, x2: int, y2: int, w: u8, h: u8, color: u8, q: Point)
    requires color == WHITE || color == BLACK
    requires 1 <= w && 1 <= h && OnScreen(q) && x2 == x + w - 1 && y2 == y + h - 1 && x <= WIDTH && 0 <= x + w
    requires r == Edges(buf, x, x2, y, y2, x, y, w, h, color)
    ensures Lit(r, q) == if OnBorder(x, y, w, h, q) then color != 0 else Lit(buf, q)
  {
    EdgesLayers(buf, x, y, x2, y2, w, h, color, q);
  }

  /** The pixels of the four edges, one layer at a time. */
  lemma EdgesLayers(buf: Buffer, x: int, y: int, x2: int, y2: int, w: u8, h: u8, color: u8, q: Point)
    requires color == WHITE || color == BLACK
    requires 1 <= w && 1 <= h && OnScreen(q) && x2 == x + w - 1 && y2 == y + h - 1 && x <= WIDTH && 0 <= x + w
    ensures Lit(Edges(buf, x, x2, y, y2, x, y, w, h, color), q) == if OnBorder(x, y, w, h, q) then color != 0 else Lit(buf, q)
  {
    var top := HLine(buf, x, y, w, color);
    var bottom := HLine(top, x, y2, w, color);
    var left := PlotAll(bottom, VLinePoints(x, y, h), color);
    HLinePixel(buf, x, y, w, color, q);
    HLinePixel(top, x, y2, w, color, q);
    HLineHas(x, y, w, q);
    HLineHas(x, y2, w, q);
    VLineHas(x, y, h, q);
    VLineHas(x2, y, h, q);
    PlotAllPixel(bottom, VLinePoints(x, y, h), color, q);
    PlotAllPixel(left, VLinePoints(x2, y, h), color, q);
  }

  /**
    * Pixel q lies on one of the four edges drawRect draws: the runs of rows
    * y and y + h - 1 over [x, x + w), or the columns x and x + w - 1 over
    * [y, y + h).  For w, h >= 1 this is OnBorder.
    */
  ghost predicate OnEdges(x: int, y: int, w: int, h: int, q: Point) {
    ((q.y == y || q.y == y + h - 1) && x <= q.x < x + w) ||
    ((q.x == x || q.x == x + w - 1) && y <= q.y < y + h)
  }

  /**
    * An empty rectangle is not empty on the screen: with w == 0 drawRect
    * still draws the columns x and x - 1 over [y, y + h), and with h == 0
    * the rows y and y - 1 over [x, x + w).
    */
  lemma RectDegenerate(buf: Buffer, x: int, y: int, w: u8, h: u8, color: u8, q: Point)
    requires color == WHITE || color == BLACK
    requires (w == 0 || h == 0) && OnScreen(q) && 0 <= x <= WIDTH
    ensures Lit(RectBuffer(buf, x, y, w, h, color), q) == if OnEdges(x, y, w, h, q) then color != 0 else Lit(buf, q)
  {
    EdgesPixels();
  }

  /** EdgesPixel for every buffer, rectangle and pixel at once. */
  lemma EdgesPixels()
    ensures forall buf, x, y, x2, y2, w: u8, h: u8, color: u8, q ::
      (color == WHITE || color == BLACK) && OnScreen(q) && x2 == x + w - 1 && y2 == y + h - 1 && 0 <= x <= WIDTH ==>
      Lit(Edges(buf, x, x2, y, y2, x, y, w, h, color), q) == if OnEdges(x, y, w, h, q) then color != 0 else Lit(buf, q)
  {
    forall buf, x, y, x2, y2, w: u8, h: u8, color: u8, q |
      (color == WHITE || color == BLACK) && OnScreen(q) && x2 == x + w - 1 && y2 == y + h - 1 && 0 <= x <= WIDTH
      ensures Lit(Edges(buf, x, x2, y, y2, x, y, w, h, color), q) == if OnEdges(x, y, w, h, q) then color != 0 else Lit(buf, q)
    {
      EdgesPixel(buf, x, y, x2, y2, w, h, color, q);
    }
  }

  /** The pixels of the four edges, one layer at a time, with the far column and row given as `x2` and `y2`. */
  lemma EdgesPixel(buf: Buffer, x: int, y: int, x2: int, y2: int, w: u8, h: u8, color: u8, q: Point)
    requires color == WHITE || color == BLACK
    requires OnScreen(q) && x2 == x + w - 1 && y2 == y + h - 1 && 0 <= x <= WIDTH
    ensures Lit(Edges(buf, x, x2, y, y2, x, y, w, h, color), q) == if OnEdges(x, y, w, h, q) then color != 0 else Lit(buf, q)
  {
    var top := HLine(buf, x, y, w, color);
    var bottom := HLine(top, x, y2, w, color);
    var left := PlotAll(bottom, VLinePoints(x, y, h), color);
    HLinePixel(buf, x, y, w, color, q);
    HLinePixel(top, x, y2, w, color, q);
    HLineHas(x, y, w, q);
    HLineHas(x, y2, w, q);
    VLineHas(x, y, h, q);
    VLineHas(x2, y, h, q);
    PlotAllPixel(bottom, VLinePoints(x, y, h), color, q);
    PlotAllPixel(left, VLinePoints(x2, y, h), color, q);
  }

  /**
    * A rectangle wholly left of the screen, drawRect(-20, 10, 10, 10), has
    * its top and bottom runs wrap in drawFastHLine's `uint8_t` width: rows
    * 10 and 19 are lit across the screen.
    */
  lemma RectWrapsLeft(buf: Buffer, q: Point)
    requires OnScreen(q) && (q.y == 10 || q.y == 19)
    ensures Lit(RectBuffer(buf, -20, 10, 10, 10, WHITE), q)
  {
    var bottom := HLine(HLine(buf, -20, 10, 10, WHITE), -20, 19, 10, WHITE);
    var left := PlotAll(bottom, VLinePoints(-20, 10, 10), WHITE);
    WrappedRuns(buf, q);
    VLineHas(-20, 10, 10, q);
    VLineHas(-11, 10, 10, q);
    PlotAllPixel(bottom, VLinePoints(-20, 10, 10), WHITE, q);
    PlotAllPixel(left, VLinePoints(-11, 10, 10), WHITE, q);
  }

  /** The two wrapped runs of RectWrapsLeft. */
  lemma WrappedRuns(buf: Buffer, q: Point)
    requires OnScreen(q) && (q.y == 10 || q.y == 19)
    ensures Lit(HLine(HLine(buf, -20, 10, 10, WHITE), -20, 19, 10, WHITE), q)
  {
    var top := HLine(buf, -20, 10, 10, WHITE);
    if q.y == 10 {
      WrappedRow(buf, q);
      HLineKeepsColour(top, -20, 19, 10, WHITE, q);
    } else {
      WrappedRow(top, q);
    }
  }

  /** A run from x = -20 of width 10 wraps to width 246 and so lights its whole row. */
  lemma WrappedRow(buf: Buffer, q: Point)
    requires OnScreen(q)
    ensures Lit(HLine(buf, -20, q.y, 10, WHITE), q)
  {
    HLineWrapMembers(-20, q.y, 10);
    assert Wrap8(10 + -20) == 246;
    HLinePixel(buf, -20, q.y, 10, WHITE, q);
  }

  /** The columns fillRect draws: drawFastVLine(i, y, h, ..) for i = lo .. hi - 1. */
  function RectColumns(lo: int, hi: int, y: int, h: u8): seq<Point>
    decreases hi - lo
  {
    if lo >= hi then [] else VLinePoints(lo, y, h) + RectColumns(lo + 1, hi, y, h)
  }

  /** The pixels fillRect(x, y, w, h, ..) plots. */
  function FillRectPoints(x: int, y: int, w: u8, h: u8): seq<Point> {
    RectColumns(x, x + w, y, h)
  }

  lemma {:induction false} RectColumnsCover(lo: int, hi: int, y: int, h: u8, q: Point)
    requires OnScreen(q)
    ensures q in RectColumns(lo, hi, y, h) <==> lo <= q.x < hi && y <= q.y < y + h
    decreases hi - lo
  {
    if lo < hi {
      VLineHas(lo, y, h, q);
      RectColumnsCover(lo + 1, hi, y, h, q);
    }
  }

  /**
    * fillRect colours exactly the on-screen pixels of the rectangle
    * [x, x + w) x [y, y + h), whatever part of it lies off the screen.
    */
  lemma FillRectPixel(buf: Buffer, x: int, y: int, w: u8, h: u8, color: u8, q: Point)
    requires OnScreen(q)
    ensures Lit(PlotAll(buf, FillRectPoints(x, y, w, h), color), q) ==
      if x <= q.x < x + w && y <= q.y < y + h then color != 0 else Lit(buf, q)
  {
    RectColumnsCover(x, x + w, y, h, q);
    PlotAllPixel(buf, FillRectPoints(x, y, w, h), color, q);
  }

  /** Quarter circles of radius r centred at the four corners (xl | xr, yt | yb) of the inner box, in call order. */
  function Corners(xl: int, xr: int, yt: int, yb: int, r: u8): seq<Point> {
    CornerPoints(xl, yt, r, 1) + CornerPoints(xr, yt, r, 2) + CornerPoints(xr, yb, r, 4) + CornerPoints(xl, yb, r, 8)
  }

  /**
    * The coordinates drawRoundRect and fillRoundRect work out from their
    * arguments: the columns xl, xr and rows yt, yb of the corner centres, the shortened lengths
    * `w - 2 * r` and `h - 2 * r` stored into a `uint8_t` (iw, ih), and the
    * fillCircleHelper delta `h - 2 * r - 1`.
    */
  datatype Inner = Inner(xl: int, xr: int, yt: int, yb: int, iw: u8, ih: u8, delta: int)

  function InnerOf(x: int, y: int, w: u8, h: u8, r: u8): Inner {
    Inner(x + r, x + w - r - 1, y + r, y + h - r - 1, Wrap8(w - 2 * r), Wrap8(h - 2 * r), h - 2 * r - 1)
  }

  /** `drawRoundRect(x, y, w, h, r, color)`: the four edges shortened by the radius, then the four corners. */
  function RoundRectBuffer(buf: Buffer, x: int, y: int, w: u8, h: u8, r: u8, color: u8): Buffer {
    RoundParts(buf, x, y, w, h, InnerOf(x, y, w, h, r), r, color)
  }

  /** drawRoundRect of the w x h rectangle at (x, y) with its inner coordinates b worked out. */
  function RoundParts(buf: Buffer, x: int, y: int, w: u8, h: u8, b: Inner, r: u8, color: u8): Buffer {
    var edges := Edges(buf, x, x + w - 1, y, y + h - 1, b.xl, b.yt, b.iw, b.ih, color);
    PlotAll(edges, Corners(b.xl, b.xr, b.yt, b.yb, r), color)
  }

  /** A drawCircleHelper arc of radius 0 plots nothing: the loop does not run. */
  lemma CornerEmpty(x0: int, y0: int, cornername: u8)
    ensures CornerPoints(x0, y0, 0, cornername) == []
  {
    assert Start(0).x == Start(0).y;
  }

  /** With radius 0 the corner arcs are empty and drawRoundRect is drawRect. */
  lemma RoundRectZeroRadius(buf: Buffer, x: int, y: int, w: u8, h: u8, color: u8)
    ensures RoundRectBuffer(buf, x, y, w, h, 0, color) == RectBuffer(buf, x, y, w, h, color)
  {
    var b := InnerOf(x, y, w, h, 0);
    assert b.xl == x && b.yt == y && b.iw == w && b.ih == h;
    RoundPartsNoCorners(buf, x, y, w, h, b, color);
    EdgesOfRect(buf, x, y, w, h, color, b.xl, b.yt, b.iw, b.ih);
  }

  /** With radius 0 drawRoundRect draws its four edges and nothing more. */
  lemma RoundPartsNoCorners(buf: Buffer, x: int, y: int, w: u8, h: u8, b: Inner, color: u8)
    ensures RoundParts(buf, x, y, w, h, b, 0, color) == Edges(buf, x, x + w - 1, y, y + h - 1, b.xl, b.yt, b.iw, b.ih, color)
  {
    CornersEmpty();
  }

  /** drawRoundRect's edges are drawRect's when its inner coordinates are the rectangle's own. */
  lemma EdgesOfRect(buf: Buffer, x: int, y: int, w: u8, h: u8, color: u8, xl: int, yt: int, iw: u8, ih: u8)
    requires xl == x && yt == y && iw == w && ih == h
    ensures Edges(buf, x, x + w - 1, y, y + h - 1, xl, yt, iw, ih, color) == RectBuffer(buf, x, y, w, h, color)
  {
  }

  /** With radius 0 all four corner arcs are empty, wherever their centres are. */
  lemma CornersEmpty()
    ensures forall xl, xr, yt, yb :: Corners(xl, xr, yt, yb, 0) == []
  {
    forall xl, xr, yt, yb
      ensures Corners(xl, xr, yt, yb, 0) == []
    {
      CornerEmpty(xl, yt, 1);
      CornerEmpty(xr, yt, 2);
      CornerEmpty(xr, yb, 4);
      CornerEmpty(xl, yb, 8);
    }
  }

  /** A pixel of a list that stays near the circle is within r of the centre on both axes. */
  lemma NearBox(pts: seq<Point>, x0: int, y0: int, r: int, p: Point)
    requires AllNear(pts, x0, y0, r) && p in pts
    ensures x0 - r <= p.x <= x0 + r && y0 - r <= p.y <= y0 + r
  {
    assert NearCircle(Abs2(p.x - x0), Abs2(p.y - y0), r);
  }

  /** Every pixel drawCircle plots lies within r of its centre on both axes. */
  lemma CirclePointNear(x0: int, y0: int, r: u8, p: Point)
    requires p in CirclePoints(x0, y0, r)
    ensures x0 - r <= p.x <= x0 + r && y0 - r <= p.y <= y0 + r
  {
    CircleNearRadius(x0, y0, r);
    NearBox(CirclePoints(x0, y0, r), x0, y0, r, p);
  }

  /** Every pixel of a drawCircleHelper arc lies in a selected quadrant, within r of its centre on both axes. */
  lemma CornerNear(x0: int, y0: int, r: u8, cornername: u8, p: Point)
    requires p in CornerPoints(x0, y0, r, cornername)
    ensures InSelectedQuadrant(p, x0, y0, cornername)
    ensures x0 - r <= p.x <= x0 + r && y0 - r <= p.y <= y0 + r
  {
    CornerQuadrants(x0, y0, r, cornername);
    CornerWithinCircle(x0, y0, r, cornername);
    CirclePointNear(x0, y0, r, p);
  }

  /** A pixel in the quadrant a single-bit cornername selects lies on that side of both axes. */
  lemma QuadrantSides(p: Point, x0: int, y0: int, cornername: u8)
    requires cornername in {1, 2, 4, 8}
    requires InSelectedQuadrant(p, x0, y0, cornername)
    ensures cornername == 1 ==> p.x <= x0 && p.y <= y0
    ensures cornername == 2 ==> p.x >= x0 && p.y <= y0
    ensures cornername == 4 ==> p.x >= x0 && p.y >= y0
    ensures cornername == 8 ==> p.x <= x0 && p.y >= y0
  {
    if cornername == 1 {
      assert !Corner(1, 2) && !Corner(1, 4) && !Corner(1, 8);
    } else if cornername == 2 {
      assert !Corner(2, 1) && !Corner(2, 4) && !Corner(2, 8);
    } else if cornername == 4 {
      assert !Corner(4, 1) && !Corner(4, 2) && !Corner(4, 8);
    } else {
      assert !Corner(8, 1) && !Corner(8, 2) && !Corner(8, 4);
    }
  }

  /** A pixel of a single-quadrant arc lies in the r x r box of that quadrant. */
  lemma CornerBox(x0: int, y0: int, r: u8, cornername: u8, p: Point)
    requires cornername in {1, 2, 4, 8}
    requires p in CornerPoints(x0, y0, r, cornername)
    ensures x0 - r <= p.x <= x0 + r && y0 - r <= p.y <= y0 + r
    ensures cornername == 1 ==> p.x <= x0 && p.y <= y0
    ensures cornername == 2 ==> p.x >= x0 && p.y <= y0
    ensures cornername == 4 ==> p.x >= x0 && p.y >= y0
    ensures cornername == 8 ==> p.x <= x0 && p.y >= y0
  {
    CornerNear(x0, y0, r, cornername, p);
    QuadrantSides(p, x0, y0, cornername);
  }

  /** The goal of RoundCornersInside for one pixel, given the box of its corner. */
  ghost predicate InsideRoundRect(x: int, y: int, w: int, h: int, r: int, p: Point) {
    x <= p.x < x + w && y <= p.y < y + h &&
    (x + r < p.x < x + w - r - 1 ==> p.y <= y + r || p.y >= y + h - r - 1)
  }

  /** One corner of drawRoundRect: its arc stays in the rectangle, in its own r x r box. */
  lemma CornerInside(x: int, y: int, w: u8, h: u8, r: u8, cornername: u8, x0: int, y0: int, p: Point)
    requires 2 * r < w && 2 * r < h && cornername in {1, 2, 4, 8}
    requires x0 == (if cornername in {1, 8} then x + r else x + w - r - 1)
    requires y0 == (if cornername in {1, 2} then y + r else y + h - r - 1)
    requires p in CornerPoints(x0, y0, r, cornername)
    ensures InsideRoundRect(x, y, w, h, r, p)
  {
    CornerBox(x0, y0, r, cornername, p);
  }

  /**
    * When the radius fits (2 * r < w and 2 * r < h), every corner pixel of
    * drawRoundRect lies inside the rectangle, in the r x r box of its own
    * corner.
    */
  lemma RoundCornersInside(x: int, y: int, w: u8, h: u8, r: u8, p: Point)
    requires 2 * r < w && 2 * r < h
    requires p in Corners(x + r, x + w - r - 1, y + r, y + h - r - 1, r)
    ensures x <= p.x < x + w && y <= p.y < y + h
    ensures x + r < p.x < x + w - r - 1 ==> p.y <= y + r || p.y >= y + h - r - 1
  {
    if p in CornerPoints(x + r, y + r, r, 1) {
      CornerInside(x, y, w, h, r, 1, x + r, y + r, p);
    } else if p in CornerPoints(x + w - r - 1, y + r, r, 2) {
      CornerInside(x, y, w, h, r, 2, x + w - r - 1, y + r, p);
    } else if p in CornerPoints(x + w - r - 1, y + h - r - 1, r, 4) {
      CornerInside(x, y, w, h, r, 4, x + w - r - 1, y + h - r - 1, p);
    } else {
      CornerInside(x, y, w, h, r, 8, x + r, y + h - r - 1, p);
    }
  }

  /**
    * `fillRoundRect(x, y, w, h, r, color)`: the middle block of width
    * `w - 2 * r` (stored into a `uint8_t`), then the right and left sides
    * through fillCircleHelper with delta `h - 2 * r - 1`.
    */
  function FillRoundRectBuffer(buf: Buffer, x: int, y: int, w: u8, h: u8, r: u8, color: u8): Buffer {
    FillRoundParts(buf, y, h, InnerOf(x, y, w, h, r), r, color)
  }

  /** fillRoundRect on rows y .. y + h - 1 with its inner coordinates b worked out. */
  function FillRoundParts(buf: Buffer, y: int, h: u8, b: Inner, r: u8, color: u8): Buffer {
    var middle := PlotAll(buf, FillRectPoints(b.xl, y, b.iw, h), color);
    PlotAll(middle, FillCornerPoints(b.xr, b.yt, r, 1, b.delta) + FillCornerPoints(b.xl, b.yt, r, 2, b.delta), color)
  }

  /** With radius 0 fillRoundRect is fillRect. */
  lemma FillRoundRectZeroRadius(buf: Buffer, x: int, y: int, w: u8, h: u8, color: u8)
    ensures FillRoundRectBuffer(buf, x, y, w, h, 0, color) == PlotAll(buf, FillRectPoints(x, y, w, h), color)
  {
    assert FillCornerPoints(x + w - 1, y, 0, 1, h - 1) + FillCornerPoints(x, y, 0, 2, h - 1) == [];
    assert Wrap8(w - 2 * 0) == w;
  }

  /**
    * When the radius fits (2 * r < w and 2 * r < h), fillRoundRect changes
    * no pixel outside the rectangle [x, x + w) x [y, y + h), and it colours
    * the whole of its central cross: the middle block's columns
    * x + r .. x + w - r - 1 over every row, and the rows
    * y + r .. y + h - r - 1 over every column.
    */
  lemma FillRoundRectPixel(buf: Buffer, x: int, y: int, w: u8, h: u8, r: u8, color: u8, q: Point)
    requires 2 * r < w && 2 * r < h && OnScreen(q)
    ensures !(x <= q.x < x + w && y <= q.y < y + h) ==> Lit(FillRoundRectBuffer(buf, x, y, w, h, r, color), q) == Lit(buf, q)
    ensures (x + r <= q.x < x + w - r && y <= q.y < y + h) || (x <= q.x < x + w && y + r <= q.y < y + h - r) ==>
      Lit(FillRoundRectBuffer(buf, x, y, w, h, r, color), q) == (color != 0)
  {
    var b := InnerOf(x, y, w, h, r);
    assert b.iw == w - 2 * r;
    FillRoundPartsPixel(buf, x, y, w, h, b, r, color, q);
  }

  /** The Inner coordinates fillRoundRect works out, for a radius that fits. */
  ghost predicate FitsInner(x: int, y: int, w: int, h: int, b: Inner, r: int) {
    0 <= r && 2 * r < w && 2 * r < h && h < 0x100 &&
    b.xl == x + r && b.xr == x + w - r - 1 && b.yt == y + r && b.iw == w - 2 * r && b.delta == h - 2 * r - 1
  }

  /** FillRoundRectPixel with the inner coordinates worked out. */
  lemma FillRoundPartsPixel(buf: Buffer, x: int, y: int, w: int, h: u8, b: Inner, r: u8, color: u8, q: Point)
    requires FitsInner(x, y, w, h, b, r) && OnScreen(q)
    ensures !(x <= q.x < x + w && y <= q.y < y + h) ==> Lit(FillRoundParts(buf, y, h, b, r, color), q) == Lit(buf, q)
    ensures (x + r <= q.x < x + w - r && y <= q.y < y + h) || (x <= q.x < x + w && y + r <= q.y < y + h - r) ==>
      Lit(FillRoundParts(buf, y, h, b, r, color), q) == (color != 0)
  {
    var middle := PlotAll(buf, FillRectPoints(b.xl, y, b.iw, h), color);
    var halves := FillCornerPoints(b.xr, b.yt, r, 1, b.delta) + FillCornerPoints(b.xl, b.yt, r, 2, b.delta);
    FillRectPixel(buf, b.xl, y, b.iw, h, color, q);
    PlotAllPixel(middle, halves, color, q);
    if q in halves {
      RoundHalvesInside(x, y, w, h, b, r, q);
    }
    if (x <= q.x < x + r || x + w - r <= q.x < x + w) && y + r <= q.y < y + h - r {
      RoundHalvesCover(x, y, w, h, b, r, q);
    }
  }

  /** The two fillCircleHelper halves of fillRoundRect stay inside the rectangle. */
  lemma RoundHalvesInside(x: int, y: int, w: int, h: int, b: Inner, r: u8, q: Point)
    requires FitsInner(x, y, w, h, b, r) && OnScreen(q)
    requires q in FillCornerPoints(b.xr, b.yt, r, 1, b.delta) + FillCornerPoints(b.xl, b.yt, r, 2, b.delta)
    ensures x <= q.x < x + w && y <= q.y < y + h
  {
    if q in FillCornerPoints(b.xr, b.yt, r, 1, b.delta) {
      FillArcBox(b.xr, b.yt, Start(r), 1, b.delta, r, q);
    } else {
      FillArcBox(b.xl, b.yt, Start(r), 2, b.delta, r, q);
    }
  }

  /** The two halves fill the rows y + r .. y + h - r - 1 of the columns left and right of the middle block. */
  lemma RoundHalvesCover(x: int, y: int, w: int, h: int, b: Inner, r: u8, q: Point)
    requires FitsInner(x, y, w, h, b, r) && OnScreen(q)
    requires (x <= q.x < x + r || x + w - r <= q.x < x + w) && y + r <= q.y < y + h - r
    ensures q in FillCornerPoints(b.xr, b.yt, r, 1, b.delta) + FillCornerPoints(b.xl, b.yt, r, 2, b.delta)
  {
    if q.x < x + r {
      HalfCover(b.xl, b.yt, r, 2, b.delta, q);
    } else {
      HalfCover(b.xr, b.yt, r, 1, b.delta, q);
    }
  }

  /** One half of fillCircleHelper fills rows y0 .. y0 + delta of the columns 1 .. r out from x0 on its side. */
  lemma HalfCover(x0: int, y0: int, r: u8, cornername: u8, delta: int, q: Point)
    requires cornername == 1 || cornername == 2
    requires 1 <= (if cornername == 1 then q.x - x0 else x0 - q.x) <= r
    requires y0 <= q.y <= y0 + delta && 2 * r + 1 + delta < 0x100 && OnScreen(q)
    ensures q in FillCornerPoints(x0, y0, r, cornername, delta)
  {
    var k := if cornername == 1 then q.x - x0 else x0 - q.x;
    assert Point(SideColumn(x0, cornername, k), y0 + (q.y - y0)) == q;
    StartReach(r);
    FillArcBand(x0, y0, Start(r), cornername, delta, k, q.y - y0);
  }
}
