/**
  * `ArduboyBase`: the screen buffer `sBuffer`, which every drawing routine
  * updates in place, and the frame-management fields.  Each drawing method
  * runs the source's own loops over the array and is proved to leave the
  * buffer as the matching function of the modules above describes; the
  * frame methods are proved to take the steps of module Scheduler.
  */
module Base {
  import opened CInt
  import opened FrameBuffer
  import opened Lines
  import opened Circles
  import opened Rects
  import opened Triangles
  import opened Bitmaps
  import opened Glyphs
  import Scheduler

  /** Plotting a nonempty list is plotting its first point, then the rest. */
  lemma Peel(buf: Buffer, pts: seq<Point>, p: Point, color: u8)
    requires pts != [] && pts[0] == p
    ensures PlotAll(buf, pts, color) == PlotAll(Plot(buf, p, color), pts[1..], color)
  {
  }

  /**
    * One turn of Bresenham's loop: plot the current pixel, then step the
    * error term, moving one row along when it goes negative.
    */
  lemma PlotBresenham(buf: Buffer, steep: bool, x: int, x1: int, y: int, err: int, dx: int, dy: int, ystep: int,
                      y': int, err': int, color: u8)
    requires x <= x1
    requires if err - dy < 0 then y' == y + ystep && err' == err - dy + dx else y' == y && err' == err - dy
    ensures PlotAll(buf, Bresenham(steep, x, x1, y, err, dx, dy, ystep), color) ==
            PlotAll(Plot(buf, Unswap(steep, x, y), color), Bresenham(steep, x + 1, x1, y', err', dx, dy, ystep), color)
  {
    var pts := Bresenham(steep, x, x1, y, err, dx, dy, ystep);
    Peel(buf, pts, Unswap(steep, x, y), color);
  }

  lemma PeelAt(buf: Buffer, pts: seq<Point>, k: int, color: u8)
    requires 0 <= k < |pts|
    ensures PlotAll(buf, pts[k..], color) == PlotAll(Plot(buf, pts[k], color), pts[k + 1..], color)
  {
    assert pts[k..][1..] == pts[k + 1..];
  }

  /** Plotting a concatenation of four groups is plotting each group in turn. */
  lemma PlotGroups(buf: Buffer, a: seq<Point>, b: seq<Point>, c: seq<Point>, d: seq<Point>, color: u8)
    ensures PlotAll(buf, a + b + c + d, color) ==
            PlotAll(PlotAll(PlotAll(PlotAll(buf, a, color), b, color), c, color), d, color)
  {
    PlotAllAppend(buf, a + b + c, d, color);
    PlotAllAppend(buf, a + b, c, color);
    PlotAllAppend(buf, a, b, color);
  }

  /** A pair of column runs drawn only when `cond` holds plots their concatenation, or nothing. */
  lemma HalfPlots(c0: Buffer, c1: Buffer, cond: bool, a: seq<Point>, b: seq<Point>, color: u8)
    requires cond ==> c1 == PlotAll(PlotAll(c0, a, color), b, color)
    requires !cond ==> c1 == c0
    ensures c1 == PlotAll(c0, if cond then a + b else [], color)
  {
    PlotAllAppend(c0, a, b, color);
  }

  /** Two pixels plotted only when `cond` holds: the pair, or nothing. */
  lemma Chosen(c0: Buffer, c1: Buffer, cond: bool, pair: seq<Point>, color: u8)
    requires |pair| == 2
    requires cond ==> c1 == Plot(Plot(c0, pair[0], color), pair[1], color)
    requires !cond ==> c1 == c0
    ensures c1 == PlotAll(c0, if cond then pair else [], color)
  {
    if cond {
      Peel(c0, pair, pair[0], color);
      Peel(Plot(c0, pair[0], color), pair[1..], pair[1], color);
      assert pair[1..][1..] == [];
    }
  }

  class ArduboyBase {
    /** The screen buffer, WIDTH * HEIGHT / 8 bytes. */
    const sBuffer: array<bv8>

    var frameRate: u8
    var eachFrameMillis: int
    var frameCount: int
    var lastFrameStart: int
    var nextFrameStart: int
    var lastFrameDurationMs: int
    var postRender: bool

    /** The frame-management fields as one value. */
    function Frames(): Scheduler.Frames
      reads this
    {
      Scheduler.Frames(frameRate, eachFrameMillis, frameCount, lastFrameStart, nextFrameStart, lastFrameDurationMs, postRender)
    }

    /** The screen buffer has its full size; the buffer never changes identity. */
    predicate Drawable() {
      sBuffer.Length == BUFFER_SIZE
    }

    predicate Valid()
      reads this
    {
      Drawable() && Scheduler.Valid(Frames())
    }

    /** The contents of the screen buffer. */
    function Screen(): Buffer
      reads this, sBuffer
      requires Drawable()
    {
      sBuffer[..]
    }

    /**
      * The constructor: a zeroed buffer (the buffer is a static array),
      * 60 frames per second and nothing rendered yet.
      */
    constructor()
      ensures Valid() && fresh(sBuffer)
      ensures Frames() == Scheduler.Initial()
      ensures Screen() == Filled(BLACK)
    {
      sBuffer := new bv8[BUFFER_SIZE](_ => 0);
      lastFrameStart := 0;
      lastFrameDurationMs := 0;
      new;
      SetFrameRate(60);
      frameCount := 0;
      nextFrameStart := 0;
      postRender := false;
    }

    // -------------------------------------------------------------------
    // Frame management

    method SetFrameRate(rate: u8)
      requires rate > 0
      modifies this
      ensures Frames() == Scheduler.SetFrameRate(old(Frames()), rate)
    {
      frameRate := rate;
      eachFrameMillis := 1000 / rate;
    }

    predicate EveryXFrames(frames: u8)
      reads this
      requires frames > 0
      ensures EveryXFrames(frames) <==> Scheduler.EveryXFrames(Frames(), frames)
    {
      frameCount % frames == 0
    }

    /** newFrame() with the clock reading `now`: true when a new frame starts. */
    method NewFrame(now: int) returns (ok: bool)
      modifies this
      ensures (Frames(), ok) == Scheduler.NewFrameStep(old(Frames()), now)
    {
      if postRender {
        lastFrameDurationMs := now - lastFrameStart;
        frameCount := frameCount + 1;
        postRender := false;
      }
      if now < nextFrameStart {
        return false;
      }
      nextFrameStart := lastFrameStart + eachFrameMillis;
      if nextFrameStart < now {
        nextFrameStart := now;
      }
      lastFrameStart := now;
      postRender := true;
      return postRender;
    }

    /** nextFrame() (deprecated) with the clock reading `now`. */
    method NextFrame(now: int) returns (ok: bool)
      modifies this
      ensures (Frames(), ok) == Scheduler.NextFrameStep(old(Frames()), now)
    {
      if postRender {
        lastFrameDurationMs := now - lastFrameStart;
        frameCount := frameCount + 1;
        postRender := false;
      }
      if now < nextFrameStart {
        return false;
      }
      nextFrameStart := now + eachFrameMillis;
      lastFrameStart := now;
      postRender := true;
      return postRender;
    }

    function CpuLoad(): (r: int)
      reads this
      requires Valid()
      ensures r == Scheduler.CpuLoad(Frames())
    {
      CDiv(lastFrameDurationMs * 100, eachFrameMillis)
    }

    // -------------------------------------------------------------------
    // Pixels

    /** drawPixel with the PIXEL_SAFE_MODE bounds check. */
    method DrawPixel(x: int, y: int, color: u8)
      requires Drawable()
      modifies sBuffer
      ensures Screen() == Plot(old(Screen()), Point(x, y), color)
    {
      if x < 0 || x > WIDTH - 1 || y < 0 || y > HEIGHT - 1 {
        return;
      }
      ghost var b0 := Screen();
      var row := y / 8;
      var i := row * WIDTH + x;
      assert i == Offset(Point(x, y));
      if color != 0 {
        sBuffer[i] := sBuffer[i] | Mask(y % 8);
      } else {
        sBuffer[i] := sBuffer[i] & !Mask(y % 8);
      }
      assert sBuffer[..] == b0[i := SetBit(b0[i], y % 8, color)];
    }

    /**
      * getPixel: bit y % 8 of byte (y / 8) * WIDTH + x, which for an
      * on-screen pixel is that pixel and for a column past the right edge is
      * a pixel of a later band.
      */
    function GetPixel(x: u8, y: u8): (r: u8)
      reads this, sBuffer
      requires Drawable() && (y / 8) * WIDTH + x < BUFFER_SIZE
      ensures r == if Lit(Screen(), PixelOfBit((y / 8) * WIDTH + x, y % 8)) then 1 else 0
      ensures x < WIDTH && y < HEIGHT ==> r == if Lit(Screen(), Point(x, y)) then 1 else 0
    {
      var row, bit := y / 8, y % 8;
      var v := if sBuffer[row * WIDTH + x] & Mask(bit) != 0 then 1 else 0;
      if x < WIDTH && y < HEIGHT then PixelOfOffset(Point(x, y)); v else v
    }

    /** fillScreen: every byte 0xFF for a nonzero colour, 0 otherwise. */
    method FillScreen(color: u8)
      requires Drawable()
      modifies sBuffer
      ensures Screen() == Filled(color)
    {
      var v: bv8 := if color != 0 then 0xFF else 0;
      var i := 0;
      while i < BUFFER_SIZE
        invariant 0 <= i <= BUFFER_SIZE
        invariant forall j :: 0 <= j < i ==> sBuffer[j] == v
      {
        sBuffer[i] := v;
        i := i + 1;
      }
    }

    method Clear()
      requires Drawable()
      modifies sBuffer
      ensures Screen() == Filled(BLACK)
    {
      FillScreen(BLACK);
    }

    /**
      * draw() without its callback and display(): nothing when no frame is
      * due (result 1), otherwise a new frame on a cleared buffer (result 0).
      */
    method Draw(now: int) returns (r: u8)
      requires Valid()
      modifies this, sBuffer
      ensures var (f, ok) := Scheduler.NewFrameStep(old(Frames()), now);
              Frames() == f && (r == 0 <==> ok) && (r == 1 <==> !ok) &&
              Screen() == if ok then Filled(BLACK) else old(Screen())
    {
      Scheduler.NewFrameValid(Frames(), now);
      var ok := NewFrame(now);
      if !ok {
        return 1;
      }
      Clear();
      return 0;
    }

    // -------------------------------------------------------------------
    // Spans and lines

    /** drawFastVLine: drawPixel down column x over the rows of [y, y + h) on the screen. */
    method DrawFastVLine(x: int, y: int, h: u8, color: u8)
      requires Drawable()
      modifies sBuffer
      ensures Screen() == PlotAll(old(Screen()), VLinePoints(x, y, h), color)
    {
      ghost var goal := PlotAll(Screen(), VLinePoints(x, y, h), color);
      var end := y + h;
      var a := Max(0, y);
      while a < Min(end, HEIGHT)
        invariant PlotAll(Screen(), Column(x, a, Min(end, HEIGHT)), color) == goal
        decreases HEIGHT - a
      {
        ghost var col := Column(x, a, Min(end, HEIGHT));
        assert col[1..] == Column(x, a + 1, Min(end, HEIGHT));
        Peel(Screen(), col, Point(x, a), color);
        DrawPixel(x, a, color);
        a := a + 1;
      }
    }

    /**
      * drawFastHLine: the masked byte run over the clipped span, WHITE and
      * BLACK only, with the width kept in a `uint8_t` as in the source.  Of
      * a run that passes the end of the buffer only the bytes inside it are
      * written.
      */
    method DrawFastHLine(x: int, y: int, w: u8, color: u8)
      requires Drawable()
      modifies sBuffer
      ensures Screen() == HLine(old(Screen()), x, y, w, color)
    {
      if y < 0 || y >= HEIGHT {
        return;
      }
      var x', w' := x, w;
      if x' < 0 {
        w' := Wrap8(w' + x');
        x' := 0;
      }
      if x' + w' > WIDTH {
        w' := Wrap8(WIDTH - x');
      }
      assert (x', w') == HLineClipAsWritten(x, w);
      if w' == 0 {
        HLineEmpty(Screen(), x, y, w, color);
        return;
      }
      if color == WHITE || color == BLACK {
        var first := (y / 8) * WIDTH + x';
        HLineIsRun(Screen(), x, y, w, color);
        RunClamp(Screen(), first, first + w', y % 8, color);
        if first < BUFFER_SIZE {
          var count := if first + w' > BUFFER_SIZE then BUFFER_SIZE - first else w' as int;
          ByteRun(first, count, y % 8, color);
        }
      }
    }

    /** The byte loop of drawFastHLine: OR the mask in for WHITE, AND its complement in for BLACK. */
    method ByteRun(start: int, count: int, k: int, color: u8)
      requires Drawable() && 0 <= start && 0 < count && start + count <= BUFFER_SIZE && 0 <= k < 8
      requires color == WHITE || color == BLACK
      modifies sBuffer
      ensures Screen() == Run(old(Screen()), start, start + count, k, color)
    {
      ghost var b0 := Screen();
      var mask := Mask(k);
      var p, n := start, count;
      if color == WHITE {
        while n > 0
          invariant start <= p <= start + count && n == start + count - p
          invariant sBuffer[..] == Run(b0, start, p, k, color)
        {
          RunStep(b0, start, p, k, color);
          sBuffer[p] := sBuffer[p] | mask;
          p, n := p + 1, n - 1;
        }
      } else {
        mask := !mask;
        while n > 0
          invariant start <= p <= start + count && n == start + count - p
          invariant sBuffer[..] == Run(b0, start, p, k, color)
        {
          RunStep(b0, start, p, k, color);
          sBuffer[p] := sBuffer[p] & mask;
          p, n := p + 1, n - 1;
        }
      }
    }

    /** drawLine: the steep swap and the endpoint swap, then Bresenham's loop. */
    method DrawLine(x0: int, y0: int, x1: int, y1: int, color: u8)
      requires Drawable()
      modifies sBuffer
      ensures Screen() == PlotAll(old(Screen()), LinePoints(x0, y0, x1, y1), color)
    {
      var setup := Setup(x0, y0, x1, y1);
      var steep, x0', y0', x1', y1' := setup.steep, setup.x0, setup.y0, setup.x1, setup.y1;
      var dx := x1' - x0';
      var dy := Abs(y1' - y0');
      var err := dx / 2;
      var ystep := if y0' < y1' then 1 else -1;
      DrawSteps(steep, x0', x1', y0', err, dx, dy, ystep, color);
    }

    /** Bresenham's loop, one drawPixel per column of the dominant axis from column x to column x1. */
    method DrawSteps(steep: bool, x: int, x1: int, y: int, err: int, dx: int, dy: int, ystep: int, color: u8)
      requires Drawable()
      modifies sBuffer
      ensures Screen() == PlotAll(old(Screen()), Bresenham(steep, x, x1, y, err, dx, dy, ystep), color)
    {
      ghost var goal := PlotAll(Screen(), Bresenham(steep, x, x1, y, err, dx, dy, ystep), color);
      var x0', y0', err' := x, y, err;
      while x0' <= x1
        invariant PlotAll(Screen(), Bresenham(steep, x0', x1, y0', err', dx, dy, ystep), color) == goal
        decreases x1 - x0' + 1
      {
        ghost var b, u, v, e := Screen(), x0', y0', err';
        if steep {
          DrawPixel(y0', x0', color);
        } else {
          DrawPixel(x0', y0', color);
        }
        err' := err' - dy;
        if err' < 0 {
          y0' := y0' + ystep;
          err' := err' + dx;
        }
        PlotBresenham(b, steep, u, x1, v, e, dx, dy, ystep, y0', err', color);
        x0' := x0' + 1;
      }
    }

    // -------------------------------------------------------------------
    // Circles

    /**
      * A run of drawPixel calls, one per point in order: the source spells
      * these out one call per line.
      */
    method DrawPoints(pts: seq<Point>, color: u8)
      requires Drawable()
      modifies sBuffer
      ensures Screen() == PlotAll(old(Screen()), pts, color)
    {
      ghost var goal := PlotAll(Screen(), pts, color);
      assert pts[0..] == pts;
      var k := 0;
      while k < |pts|
        invariant 0 <= k <= |pts|
        invariant PlotAll(Screen(), pts[k..], color) == goal
      {
        PeelAt(Screen(), pts, k, color);
        DrawPixel(pts[k].x, pts[k].y, color);
        k := k + 1;
      }
    }

    /** drawCircle: the four axis pixels, then eight symmetric pixels per pass of the midpoint loop. */
    method DrawCircle(x0: int, y0: int, r: u8, color: u8)
      requires Drawable()
      modifies sBuffer
      ensures Screen() == PlotAll(old(Screen()), CirclePoints(x0, y0, r), color)
    {
      ghost var goal := PlotAll(Screen(), CirclePoints(x0, y0, r), color);
      var f, ddFx, ddFy, x, y := 1 - r, 1, -2 * r, 0, r as int;
      var axes := [Point(x0, y0 + r), Point(x0, y0 - r), Point(x0 + r, y0), Point(x0 - r, y0)];
      PlotAllAppend(Screen(), axes, Arc(x0, y0, Start(r)), color);
      DrawPoints(axes, color);
      while x < y
        invariant PlotAll(Screen(), Arc(x0, y0, Midpoint(x, y, f, ddFx, ddFy)), color) == goal
        decreases y - x
      {
        ghost var s := Midpoint(x, y, f, ddFx, ddFy);
        if f >= 0 {
          y := y - 1;
          ddFy := ddFy + 2;
          f := f + ddFy;
        }
        x := x + 1;
        ddFx := ddFx + 2;
        f := f + ddFx;
        assert Midpoint(x, y, f, ddFx, ddFy) == Step(s);
        PlotAllAppend(Screen(), Octants(x0, y0, x, y), Arc(x0, y0, Step(s)), color);
        DrawPoints(Octants(x0, y0, x, y), color);
      }
    }

    /** drawCircleHelper: per pass, the two pixels of each quadrant `cornername` selects. */
    method DrawCircleHelper(x0: int, y0: int, r: u8, cornername: u8, color: u8)
      requires Drawable()
      modifies sBuffer
      ensures Screen() == PlotAll(old(Screen()), CornerPoints(x0, y0, r, cornername), color)
    {
      ghost var goal := PlotAll(Screen(), CornerPoints(x0, y0, r, cornername), color);
      var f, ddFx, ddFy, x, y := 1 - r, 1, -2 * r, 0, r as int;
      while x < y
        invariant PlotAll(Screen(), HelperArc(x0, y0, Midpoint(x, y, f, ddFx, ddFy), cornername), color) == goal
        decreases y - x
      {
        ghost var s := Midpoint(x, y, f, ddFx, ddFy);
        if f >= 0 {
          y := y - 1;
          ddFy := ddFy + 2;
          f := f + ddFy;
        }
        x := x + 1;
        ddFx := ddFx + 2;
        f := f + ddFx;
        assert Midpoint(x, y, f, ddFx, ddFy) == Step(s);
        PlotAllAppend(Screen(), HelperOctants(x0, y0, x, y, cornername), HelperArc(x0, y0, Step(s), cornername), color);
        HelperPass(x0, y0, x, y, cornername, color);
      }
    }

    /** One pass of drawCircleHelper's loop, for offset (x, y). */
    method HelperPass(x0: int, y0: int, x: int, y: int, cornername: u8, color: u8)
      requires Drawable()
      modifies sBuffer
      ensures Screen() == PlotAll(old(Screen()), HelperOctants(x0, y0, x, y, cornername), color)
    {
      HelperQuadrants(Corner(cornername, 4), Corner(cornername, 2), Corner(cornername, 8), Corner(cornername, 1),
                      x0 + x, x0 + y, x0 - x, x0 - y, y0 + y, y0 + x, y0 - y, y0 - x, color,
                      HelperOctants(x0, y0, x, y, cornername));
    }

    /** The pixel pair of each selected quadrant, in the source's order. */
    method HelperQuadrants(lr: bool, ur: bool, ll: bool, ul: bool,
                           xa: int, xb: int, xc: int, xd: int, ya: int, yb: int, yc: int, yd: int, color: u8,
                           ghost pts: seq<Point>)
      requires Drawable() && pts == HelperQuad(lr, ur, ll, ul, xa, xb, xc, xd, ya, yb, yc, yd)
      modifies sBuffer
      ensures Screen() == PlotAll(old(Screen()), pts, color)
    {
      ghost var g4 := if lr then [Point(xa, ya), Point(xb, yb)] else [];
      ghost var g2 := if ur then [Point(xa, yc), Point(xb, yd)] else [];
      ghost var g8 := if ll then [Point(xd, yb), Point(xc, ya)] else [];
      ghost var g1 := if ul then [Point(xd, yd), Point(xc, yc)] else [];
      ghost var b0 := Screen();
      PlotGroups(b0, g4, g2, g8, g1, color);
      if lr {
        DrawPixel(xa, ya, color);
        DrawPixel(xb, yb, color);
      }
      ghost var b1 := Screen();
      Chosen(b0, b1, lr, [Point(xa, ya), Point(xb, yb)], color);
      if ur {
        DrawPixel(xa, yc, color);
        DrawPixel(xb, yd, color);
      }
      ghost var b2 := Screen();
      Chosen(b1, b2, ur, [Point(xa, yc), Point(xb, yd)], color);
      if ll {
        DrawPixel(xd, yb, color);
        DrawPixel(xc, ya, color);
      }
      ghost var b3 := Screen();
      Chosen(b2, b3, ll, [Point(xd, yb), Point(xc, ya)], color);
      if ul {
        DrawPixel(xd, yd, color);
        DrawPixel(xc, yc, color);
      }
      Chosen(b3, Screen(), ul, [Point(xd, yd), Point(xc, yc)], color);
    }

    /** fillCircle: the centre column, then both halves by fillCircleHelper. */
    method FillCircle(x0: int, y0: int, r: u8, color: u8)
      requires Drawable()
      modifies sBuffer
      ensures Screen() == PlotAll(old(Screen()), FillCirclePoints(x0, y0, r), color)
    {
      PlotAllAppend(Screen(), VLinePoints(x0, y0 - r, Wrap8(2 * r + 1)), FillCornerPoints(x0, y0, r, 3, 0), color);
      DrawFastVLine(x0, y0 - r, Wrap8(2 * r + 1), color);
      FillCircleHelper(x0, y0, r, 3, 0, color);
    }

    /**
      * fillCircleHelper: per pass, two columns for each half `cornername`
      * selects, their heights `2 * y + 1 + delta` and `2 * x + 1 + delta`
      * passed as `uint8_t`.
      */
    method FillCircleHelper(x0: int, y0: int, r: u8, cornername: u8, delta: int, color: u8)
      requires Drawable()
      modifies sBuffer
      ensures Screen() == PlotAll(old(Screen()), FillCornerPoints(x0, y0, r, cornername, delta), color)
    {
      ghost var goal := PlotAll(Screen(), FillCornerPoints(x0, y0, r, cornername, delta), color);
      var f, ddFx, ddFy, x, y := 1 - r, 1, -2 * r, 0, r as int;
      while x < y
        invariant PlotAll(Screen(), FillArc(x0, y0, Midpoint(x, y, f, ddFx, ddFy), cornername, delta), color) == goal
        decreases y - x
      {
        ghost var s := Midpoint(x, y, f, ddFx, ddFy);
        if f >= 0 {
          y := y - 1;
          ddFy := ddFy + 2;
          f := f + ddFy;
        }
        x := x + 1;
        ddFx := ddFx + 2;
        f := f + ddFx;
        assert Midpoint(x, y, f, ddFx, ddFy) == Step(s);
        PlotAllAppend(Screen(), FillOctants(x0, y0, x, y, cornername, delta), FillArc(x0, y0, Step(s), cornername, delta), color);
        FillPass(x0, y0, x, y, cornername, delta, color);
      }
    }


    /** One pass of fillCircleHelper's loop, for offset (x, y). */
    method FillPass(x0: int, y0: int, x: int, y: int, cornername: u8, delta: int, color: u8)
      requires Drawable()
      modifies sBuffer
      ensures Screen() == PlotAll(old(Screen()), FillOctants(x0, y0, x, y, cornername, delta), color)
    {
      FillOctantsQuads();
      FillQuadrants(Corner(cornername, 1), Corner(cornername, 2), x0 + x, x0 + y, x0 - x, x0 - y, y0 - y, y0 - x,
                    Wrap8(2 * y + 1 + delta), Wrap8(2 * x + 1 + delta), color, FillOctants(x0, y0, x, y, cornername, delta));
    }

    /** The right pair of columns if asked for, then the left pair. */
    method FillQuadrants(right: bool, left: bool, xa: int, xb: int, xc: int, xd: int, ya: int, yb: int, hy: u8, hx: u8, color: u8, ghost pts: seq<Point>)
      requires Drawable() && pts == FillQuad(right, left, xa, xb, xc, xd, ya, yb, hy, hx)
      modifies sBuffer
      ensures Screen() == PlotAll(old(Screen()), pts, color)
    {
      ghost var c0 := Screen();
      if right {
        DrawFastVLine(xa, ya, hy, color);
        DrawFastVLine(xb, yb, hx, color);
      }
      ghost var c1 := Screen();
      HalfPlots(c0, c1, right, VLinePoints(xa, ya, hy), VLinePoints(xb, yb, hx), color);
      if left {
        DrawFastVLine(xc, ya, hy, color);
        DrawFastVLine(xd, yb, hx, color);
      }
      HalfPlots(c1, Screen(), left, VLinePoints(xc, ya, hy), VLinePoints(xd, yb, hx), color);
      PlotAllAppend(c0, if right then VLinePoints(xa, ya, hy) + VLinePoints(xb, yb, hx) else [],
                    if left then VLinePoints(xc, ya, hy) + VLinePoints(xd, yb, hx) else [], color);
    }

    // -------------------------------------------------------------------
    // Rectangles

    /** drawRect: top and bottom runs of w pixels, then the left and right columns of h pixels. */
    method DrawRect(x: int, y: int, w: u8, h: u8, color: u8)
      requires Drawable()
      modifies sBuffer
      ensures Screen() == RectBuffer(old(Screen()), x, y, w, h, color)
    {
      DrawEdges(x, y, w, h, x, y, w, h, color);
    }

    /**
      * The four edge calls shared by drawRect and drawRoundRect for the w x h
      * rectangle at (x, y): runs of ew pixels from column xs on its first and
      * last rows, columns of eh pixels from row ys on its first and last columns.
      */
    method DrawEdges(x: int, y: int, w: u8, h: u8, xs: int, ys: int, ew: u8, eh: u8, color: u8)
      requires Drawable()
      modifies sBuffer
      ensures Screen() == Edges(old(Screen()), x, x + w - 1, y, y + h - 1, xs, ys, ew, eh, color)
    {
      DrawFastHLine(xs, y, ew, color);
      DrawFastHLine(xs, y + h - 1, ew, color);
      DrawFastVLine(x, ys, eh, color);
      DrawFastVLine(x + w - 1, ys, eh, color);
    }

    /** fillRect: drawFastVLine(i, y, h, ..) for each column i from x to x + w - 1. */
    method FillRect(x: int, y: int, w: u8, h: u8, color: u8)
      requires Drawable()
      modifies sBuffer
      ensures Screen() == PlotAll(old(Screen()), FillRectPoints(x, y, w, h), color)
    {
      ghost var goal := PlotAll(Screen(), RectColumns(x, x + w, y, h), color);
      var i := x;
      while i < x + w
        invariant x <= i <= x + w
        invariant PlotAll(Screen(), RectColumns(i, x + w, y, h), color) == goal
        decreases x + w - i
      {
        PlotAllAppend(Screen(), VLinePoints(i, y, h), RectColumns(i + 1, x + w, y, h), color);
        DrawFastVLine(i, y, h, color);
        i := i + 1;
      }
    }

    /** drawRoundRect: the edges shortened by the radius, then the four quarter circles. */
    method DrawRoundRect(x: int, y: int, w: u8, h: u8, r: u8, color: u8)
      requires Drawable()
      modifies sBuffer
      ensures Screen() == RoundRectBuffer(old(Screen()), x, y, w, h, r, color)
    {
      var b := InnerOf(x, y, w, h, r);
      DrawEdges(x, y, w, h, b.xl, b.yt, b.iw, b.ih, color);
      DrawCorners(b.xl, b.xr, b.yt, b.yb, r, color);
    }

    /** The corner calls of drawRoundRect: drawCircleHelper with cornername 1, 2, 4 and 8. */
    method DrawCorners(xl: int, xr: int, yt: int, yb: int, r: u8, color: u8)
      requires Drawable()
      modifies sBuffer
      ensures Screen() == PlotAll(old(Screen()), Corners(xl, xr, yt, yb, r), color)
    {
      PlotGroups(Screen(), CornerPoints(xl, yt, r, 1), CornerPoints(xr, yt, r, 2),
                 CornerPoints(xr, yb, r, 4), CornerPoints(xl, yb, r, 8), color);
      DrawCircleHelper(xl, yt, r, 1, color);
      DrawCircleHelper(xr, yt, r, 2, color);
      DrawCircleHelper(xr, yb, r, 4, color);
      DrawCircleHelper(xl, yb, r, 8, color);
    }

    /** fillRoundRect: the middle block, then the right and left halves by fillCircleHelper. */
    method FillRoundRect(x: int, y: int, w: u8, h: u8, r: u8, color: u8)
      requires Drawable()
      modifies sBuffer
      ensures Screen() == FillRoundRectBuffer(old(Screen()), x, y, w, h, r, color)
    {
      var b := InnerOf(x, y, w, h, r);
      FillRect(b.xl, y, b.iw, h, color);
      PlotAllAppend(Screen(), FillCornerPoints(b.xr, b.yt, r, 1, b.delta), FillCornerPoints(b.xl, b.yt, r, 2, b.delta), color);
      FillCircleHelper(b.xr, b.yt, r, 1, b.delta, color);
      FillCircleHelper(b.xl, b.yt, r, 2, b.delta, color);
    }

    // -------------------------------------------------------------------
    // Triangles

    /** drawTriangle: the lines 0-1, 1-2 and 2-0. */
    method DrawTriangle(x0: int, y0: int, x1: int, y1: int, x2: int, y2: int, color: u8)
      requires Drawable()
      modifies sBuffer
      ensures Screen() == PlotAll(old(Screen()), OutlinePoints(Triangle(x0, y0, x1, y1, x2, y2)), color)
    {
      PlotAllAppend(Screen(), LinePoints(x0, y0, x1, y1) + LinePoints(x1, y1, x2, y2), LinePoints(x2, y2, x0, y0), color);
      PlotAllAppend(Screen(), LinePoints(x0, y0, x1, y1), LinePoints(x1, y1, x2, y2), color);
      DrawLine(x0, y0, x1, y1, color);
      DrawLine(x1, y1, x2, y2, color);
      DrawLine(x2, y2, x0, y0, color);
    }

    /**
      * fillTriangle: the ys are sorted, but each `swap(xi, xj)` follows its
      * `if` unguarded, so the xs are exchanged every time; the triangle so
      * formed is filled.
      */
    method FillTriangle(x0: int, y0: int, x1: int, y1: int, x2: int, y2: int, color: u8)
      requires Drawable()
      modifies sBuffer
      ensures Screen() == DrawSpans(old(Screen()), FillSpansAsWritten(Triangle(x0, y0, x1, y1, x2, y2)), color)
    {
      var xa, ya, xb, yb, xc, yc := x0, y0, x1, y1, x2, y2;
      if ya > yb {
        ya, yb := yb, ya;
      }
      xa, xb := xb, xa;
      if yb > yc {
        yc, yb := yb, yc;
      }
      xc, xb := xb, xc;
      if ya > yb {
        ya, yb := yb, ya;
      }
      xa, xb := xb, xa;
      FillSorted(Triangle(xa, ya, xb, yb, xc, yc), color);
    }

    /**
      * The fill of a triangle in y order: the single span of a triangle on
      * one row, or else one span per row, top to bottom.
      */
    method FillSorted(t: Triangle, color: u8)
      requires Drawable() && SortedByY(t)
      modifies sBuffer
      ensures Screen() == DrawSpans(old(Screen()), SortedSpans(t), color)
    {
      if t.y0 == t.y2 {
        FillFlat(t, color);
        return;
      }
      ghost var spans := SortedSpans(t);
      var y, k := FillUpper(t, color, spans);
      FillLower(t, y, k, color, spans);
    }

    /** All three vertices on one row: one run from the leftmost to the rightmost. */
    method FillFlat(t: Triangle, color: u8)
      requires Drawable() && SortedByY(t) && t.y0 == t.y2
      modifies sBuffer
      ensures Screen() == DrawSpans(old(Screen()), SortedSpans(t), color)
    {
      var a, b := t.x0, t.x0;
      if t.x1 < a {
        a := t.x1;
      } else if t.x1 > b {
        b := t.x1;
      }
      if t.x2 < a {
        a := t.x2;
      } else if t.x2 > b {
        b := t.x2;
      }
      DrawFastHLine(a, t.y0, Wrap8(b - a + 1), color);
    }

    /**
      * The first loop, rows y0 .. last, between edges 0-1 and 0-2; it
      * returns the first row it did not draw and that row's index among
      * the spans.
      */
    method FillUpper(t: Triangle, color: u8, ghost spans: seq<Span>) returns (y: int, ghost k: int)
      requires Drawable() && SortedByY(t) && t.y0 < t.y2 && spans == SortedSpans(t)
      modifies sBuffer
      ensures y == Last(t) + 1 && k == y - t.y0 && 0 <= k <= |spans|
      ensures DrawSpans(Screen(), spans[k..], color) == DrawSpans(old(Screen()), spans, color)
    {
      var dx01, dy01, dx02, dy02 := t.x1 - t.x0, t.y1 - t.y0, t.x2 - t.x0, t.y2 - t.y0;
      var sa, sb := 0, 0;
      var last := if t.y1 == t.y2 then t.y1 else t.y1 - 1;
      ghost var goal := DrawSpans(Screen(), spans, color);
      y, k := t.y0, 0;
      while y <= last
        invariant t.y0 <= y <= last + 1 && k == y - t.y0
        invariant sa == dx01 * k && sb == dx02 * k
        invariant DrawSpans(Screen(), spans[k..], color) == goal
      {
        var a := t.x0 + CDiv(sa, dy01);
        var b := t.x0 + CDiv(sb, dy02);
        UpperRow(t, y, k, dx01, dy01, dx02, dy02, sa, sb, a, b);
        FillRow(a, b, y, color, spans, k);
        ghost var sa', sb', k' := sa, sb, k;
        sa, sb := sa + dx01, sb + dx02;
        y, k := y + 1, k + 1;
        MulSucc(dx01, k', k, sa');
        MulSucc(dx02, k', k, sb');
      }
    }

    /**
      * The second loop, rows last + 1 .. y2, between edges 1-2 and 0-2,
      * with the running sums restarted from the row it begins at.
      */
    method FillLower(t: Triangle, y0: int, ghost k0: int, color: u8, ghost spans: seq<Span>)
      requires Drawable() && SortedByY(t) && t.y0 < t.y2 && spans == SortedSpans(t)
      requires y0 == Last(t) + 1 && k0 == y0 - t.y0 && 0 <= k0 <= |spans|
      modifies sBuffer
      ensures Screen() == DrawSpans(old(Screen()), spans[k0..], color)
    {
      var dx02, dy02, dx12, dy12 := t.x2 - t.x0, t.y2 - t.y0, t.x2 - t.x1, t.y2 - t.y1;
      var y := y0;
      ghost var j, k := y - t.y1, k0;
      var sa, sb := dx12 * (y - t.y1), dx02 * (y - t.y0);
      assert sa == dx12 * j && sb == dx02 * k;
      ghost var goal := DrawSpans(Screen(), spans[k0..], color);
      while y <= t.y2
        invariant y0 <= y <= t.y2 + 1 && j == y - t.y1 && k == y - t.y0
        invariant sa == dx12 * j && sb == dx02 * k
        invariant DrawSpans(Screen(), spans[k..], color) == goal
      {
        var a := t.x1 + CDiv(sa, dy12);
        var b := t.x0 + CDiv(sb, dy02);
        LowerRow(t, y, j, k, dx12, dy12, dx02, dy02, sa, sb, a, b);
        FillRow(a, b, y, color, spans, k);
        ghost var sa', sb', j', k' := sa, sb, j, k;
        sa, sb := sa + dx12, sb + dx02;
        y, j, k := y + 1, j + 1, k + 1;
        MulSucc(dx12, j', j, sa');
        MulSucc(dx02, k', k, sb');
      }
    }

    /** One row of either loop: `if (a > b) swap(a, b); drawFastHLine(a, y, b - a + 1, color)`. */
    method FillRow(a: int, b: int, y: int, color: u8, ghost spans: seq<Span>, ghost k: int)
      requires Drawable() && 0 <= k < |spans| && spans[k] == SpanOf(a, b, y)
      modifies sBuffer
      ensures DrawSpans(Screen(), spans[k + 1..], color) == DrawSpans(old(Screen()), spans[k..], color)
    {
      DrawSpansPeel(Screen(), spans, k, color);
      var lo, hi := a, b;
      if lo > hi {
        lo, hi := b, a;
      }
      DrawFastHLine(lo, y, Wrap8(hi - lo + 1), color);
    }

    // -------------------------------------------------------------------
    // Bitmaps

    /** `sBuffer[i] |= m`, `&= ~m` or `^= m`, as drawBitmap chooses by colour. */
    method BlendByte(i: int, m: bv8, color: u8)
      requires Drawable() && 0 <= i < BUFFER_SIZE
      modifies sBuffer
      ensures Screen() == old(Screen())[i := Blend(old(Screen())[i], m, color)]
    {
      if color == WHITE {
        sBuffer[i] := sBuffer[i] | m;
      } else if color == BLACK {
        sBuffer[i] := sBuffer[i] & !m;
      } else {
        sBuffer[i] := sBuffer[i] ^ m;
      }
    }

    /**
      * drawBitmap: each image byte is shifted down by the offset of the
      * image's top row within its band and blended into the two buffer
      * bands it straddles, skipping what lies off the screen.
      */
    method DrawBitmap(x: int, y: int, bitmap: seq<bv8>, w: u8, h: u8, color: u8)
      requires Drawable() && |bitmap| >= Rows(h) * w
      modifies sBuffer
      ensures Screen() == BitmapBuffer(old(Screen()), bitmap, Blit(x, y, w, h, color))
    {
      ghost var p := Blit(x, y, w, h, color);
      if x + w < 0 || x > WIDTH - 1 || y + h < 0 || y > HEIGHT - 1 {
        return;
      }
      var yOffset, sRow, rows := BitmapLayout(y, h);
      DrawBitmapBands(x, bitmap, w, color, sRow, yOffset, rows, p);
    }

    /** drawBitmap's set-up: the bit offset within a band, the first band and the number of image bands. */
    static method BitmapLayout(y: int, h: u8) returns (yOffset: int, sRow: int, rows: int)
      ensures yOffset == YOffset(y) && sRow == SRow(y) && rows == Rows(h)
    {
      yOffset := Abs(y) % 8;
      sRow := CDiv(y, 8);
      if y < 0 {
        sRow := sRow - 1;
        yOffset := 8 - yOffset;
      }
      rows := h / 8;
      if h % 8 != 0 {
        rows := rows + 1;
      }
    }

    /** drawBitmap's outer loop: band after band, until the bottom edge of the screen. */
    method DrawBitmapBands(x: int, bitmap: seq<bv8>, w: u8, color: u8, sRow: int, yOffset: int, rows: int,
                           ghost p: Blit)
      requires Drawable() && p.x == x && p.w == w && p.color == color && |bitmap| >= Rows(p.h) * w
      requires sRow == SRow(p.y) && yOffset == YOffset(p.y) && rows == Rows(p.h)
      modifies sBuffer
      ensures Screen() == BitmapPartial(old(Screen()), bitmap, p, rows, 0)
    {
      ghost var orig := Screen();
      var a := 0;
      while a < rows
        invariant 0 <= a <= rows
        invariant Screen() == BitmapPartial(orig, bitmap, p, a, 0)
      {
        var bRow, next := sRow + a, a + 1;
        if bRow > HEIGHT / 8 - 1 {
          RowsPast(orig, bitmap, p, a);
          break;
        }
        if bRow > -2 {
          DrawBitmapRow(x, bitmap, w, color, a, bRow, yOffset, p, orig);
        } else {
          RowAbove(orig, bitmap, p, a);
        }
        a := next;
      }
    }

    /** One band of image bytes, left to right, up to the right edge of the screen. */
    method DrawBitmapRow(x: int, bitmap: seq<bv8>, w: u8, color: u8, a: int, bRow: int, yOffset: int,
                         ghost p: Blit, ghost orig: Buffer)
      requires Drawable() && p.x == x && p.w == w && p.color == color && |bitmap| >= Rows(p.h) * w
      requires 0 <= a < Rows(p.h) && bRow == SRow(p.y) + a && -2 < bRow <= HEIGHT / 8 - 1 && yOffset == YOffset(p.y)
      requires Screen() == BitmapPartial(orig, bitmap, p, a, 0)
      modifies sBuffer
      ensures Screen() == BitmapPartial(orig, bitmap, p, a + 1, 0)
    {
      var iCol := 0;
      while iCol < w
        invariant 0 <= iCol <= w
        invariant Screen() == BitmapPartial(orig, bitmap, p, a, iCol)
      {
        var col, next := x + iCol, iCol + 1;
        if col > WIDTH - 1 {
          ColumnsPast(orig, bitmap, p, a, iCol);
          return;
        }
        if col >= 0 {
          IndexBound(a, iCol, w, Rows(p.h));
          var b := bitmap[a * w + iCol];
          var i := bRow * WIDTH + col;
          var i2 := i + WIDTH;
          ghost var buf := Screen();
          if bRow >= 0 {
            BlendByte(i, LoMask(b, yOffset), color);
          }
          ghost var buf1 := Screen();
          if yOffset != 0 && bRow < HEIGHT / 8 - 1 && bRow > -2 {
            BlendByte(i2, HiMask(b, yOffset), color);
          }
          ImageByteStep(orig, bitmap, p, a, iCol, next, bRow, col, b, i, i2, buf, buf1, Screen());
        } else {
          SkipColumn(orig, bitmap, p, a, iCol, next);
        }
        iCol := next;
      }
      RowEnd(orig, bitmap, p, a);
    }

    /** drawSlowXYBitmap: drawPixel for each set pixel of a row-major image, row by row. */
    method DrawSlowXYBitmap(x: int, y: int, bitmap: seq<bv8>, w: u8, h: u8, color: u8)
      requires Drawable() && |bitmap| >= h * ByteWidth(w)
      modifies sBuffer
      ensures Screen() == SlowBitmapBuffer(old(Screen()), bitmap, Blit(x, y, w, h, color))
    {
      ghost var p := Blit(x, y, w, h, color);
      if x + w < 0 || x > WIDTH - 1 || y + h < 0 || y > HEIGHT - 1 {
        return;
      }
      var byteWidth := (w + 7) / 8;
      ghost var goal := PlotAll(Screen(), SlowRows(bitmap, p, 0), color);
      var yi := 0;
      while yi < h
        invariant 0 <= yi <= h
        invariant PlotAll(Screen(), SlowRows(bitmap, p, yi), color) == goal
      {
        var next := yi + 1;
        assert SlowRows(bitmap, p, yi) == SlowRow(bitmap, p, yi, 0) + SlowRows(bitmap, p, next);
        PlotAllAppend(Screen(), SlowRow(bitmap, p, yi, 0), SlowRows(bitmap, p, next), color);
        DrawSlowRow(x, y, bitmap, w, byteWidth, yi, color, p);
        yi := next;
      }
    }

    /** One image row of drawSlowXYBitmap, left to right. */
    method DrawSlowRow(x: int, y: int, bitmap: seq<bv8>, w: u8, byteWidth: int, yi: int, color: u8, ghost p: Blit)
      requires Drawable() && p == Blit(x, y, w, p.h, color) && 0 <= yi < p.h
      requires |bitmap| >= p.h * ByteWidth(w) && byteWidth == ByteWidth(w)
      modifies sBuffer
      ensures Screen() == PlotAll(old(Screen()), SlowRow(bitmap, p, yi, 0), color)
    {
      ghost var goal := PlotAll(Screen(), SlowRow(bitmap, p, yi, 0), color);
      var xi := 0;
      while xi < w
        invariant 0 <= xi <= w
        invariant PlotAll(Screen(), SlowRow(bitmap, p, yi, xi), color) == goal
      {
        assert xi / 8 < byteWidth;
        IndexBound(yi, xi / 8, byteWidth, p.h);
        var lit := bitmap[yi * byteWidth + xi / 8] & ((128 as bv8) >> (xi % 8)) != 0;
        var px, py, next := x + xi, y + yi, xi + 1;
        SlowRowStep(Screen(), bitmap, p, yi, xi, next, Point(px, py), lit);
        if lit {
          DrawPixel(px, py, color);
        }
        xi := next;
      }
    }

    // -------------------------------------------------------------------
    // Characters

    /**
      * drawChar: unless clipped, the five font columns of character c and
      * a blank spacer column, each font pixel drawn as a size x size block
      * in the text colour or, where the background shows, the background.
      */
    method DrawChar(x: int, y: int, c: u8, color: u8, bg: u8, size: u8, font: seq<bv8>)
      requires Drawable() && |font| >= FONT_SIZE
      modifies sBuffer
      ensures Screen() == CharBuffer(old(Screen()), font, Glyph(x, y, c, color, bg, size))
    {
      ghost var g := Glyph(x, y, c, color, bg, size);
      var drawBackground := bg != color;
      if x >= WIDTH || y >= HEIGHT || x + 5 * size - 1 < 0 || y + 8 * size - 1 < 0 {
        return;
      }
      ghost var goal := CellsFrom(Screen(), font, g, 0, 0);
      var i := 0;
      while i < 6
        invariant 0 <= i <= 6
        invariant CellsFrom(Screen(), font, g, i, 0) == goal
      {
        var line: bv8;
        if i == 5 {
          line := 0;
        } else {
          line := font[5 * c + i];
        }
        DrawGlyphColumn(x, y, color, bg, size, drawBackground, i, line, font, g);
        i := i + 1;
      }
    }

    /** Glyph column i of drawChar: its eight cells, top to bottom, the column byte shifted right after each. */
    method DrawGlyphColumn(x: int, y: int, color: u8, bg: u8, size: u8, drawBackground: bool, i: nat, line: bv8,
                           ghost font: seq<bv8>, ghost g: Glyph)
      requires Drawable() && |font| >= FONT_SIZE && g == Glyph(x, y, g.c, color, bg, size)
      requires i < 6 && line == GlyphLine(font, g.c, i) && drawBackground == (bg != color)
      modifies sBuffer
      ensures CellsFrom(Screen(), font, g, i + 1, 0) == CellsFrom(old(Screen()), font, g, i, 0)
    {
      ghost var goal := CellsFrom(Screen(), font, g, i, 0);
      var bits := line;
      var j := 0;
      while j < 8
        invariant 0 <= j <= 8 && bits == Shifted(line, j)
        invariant CellsFrom(Screen(), font, g, i, j) == goal
      {
        var drawColor := if bits & 1 != 0 then color else bg;
        var x0, y0, next := x + i * size, y + j * size, j + 1;
        CellStep(Screen(), font, g, i, j, next, x0, y0, drawColor);
        if drawColor != 0 || drawBackground {
          DrawBlock(x0, y0, size, drawColor);
        }
        ShiftStep(line, j, next);
        bits := bits >> 1;
        j := next;
      }
    }

    /** The size x size block of one cell: `size` columns of `size` drawPixel calls. */
    method DrawBlock(x0: int, y0: int, size: u8, color: u8)
      requires Drawable()
      modifies sBuffer
      ensures Screen() == PlotAll(old(Screen()), Block(x0, y0, size, 0), color)
    {
      ghost var goal := PlotAll(Screen(), Block(x0, y0, size, 0), color);
      var a := 0;
      while a < size
        invariant 0 <= a <= size
        invariant PlotAll(Screen(), Block(x0, y0, size, a), color) == goal
      {
        var px, next := x0 + a, a + 1;
        BlockStep(Screen(), x0, y0, size, a, next, px, color);
        DrawBlockColumn(px, y0, size, color);
        a := next;
      }
    }

    /** Column a of a block: the inner loop, one drawPixel per row. */
    method DrawBlockColumn(px: int, y0: int, size: u8, color: u8)
      requires Drawable()
      modifies sBuffer
      ensures Screen() == PlotAll(old(Screen()), Column(px, y0, y0 + size), color)
    {
      ghost var goal := PlotAll(Screen(), Column(px, y0, y0 + size), color);
      ghost var hi := y0 + size;
      ghost var lo := y0;
      var b := 0;
      while b < size
        invariant 0 <= b <= size && lo == y0 + b
        invariant PlotAll(Screen(), Column(px, lo, hi), color) == goal
      {
        var py, next := y0 + b, b + 1;
        ColumnStep(Screen(), px, lo, lo + 1, hi, color);
        DrawPixel(px, py, color);
        b, lo := next, lo + 1;
      }
    }
  }
}
