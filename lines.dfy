/**
  * `drawLine`: Bresenham's algorithm.  The set-up swaps x and y for steep
  * lines and orders the endpoints so that x grows; the loop then plots one
  * pixel per column of the dominant axis, stepping the minor coordinate when
  * the error term goes negative.
  */
module Lines {
  import opened CInt
  import opened FrameBuffer

  /** The line after drawLine's set-up: steep flag and endpoints in the (possibly swapped) frame. */
  datatype LineSetup = LineSetup(steep: bool, x0: int, y0: int, x1: int, y1: int)

  /** A point of the swapped frame, back in screen coordinates. */
  function Unswap(steep: bool, x: int, y: int): Point {
    if steep then Point(y, x) else Point(x, y)
  }

  /**
    * `steep = abs(y1 - y0) > abs(x1 - x0)`, then swap x and y of both
    * endpoints when steep, then swap the endpoints when x0 > x1.
    */
  function Setup(x0: int, y0: int, x1: int, y1: int): (s: LineSetup)
    ensures s.steep <==> Abs(y1 - y0) > Abs(x1 - x0)
    ensures s.x0 <= s.x1 && Abs(s.y1 - s.y0) <= s.x1 - s.x0
    ensures s.x1 - s.x0 == Max(Abs(x1 - x0), Abs(y1 - y0))
    ensures {Unswap(s.steep, s.x0, s.y0), Unswap(s.steep, s.x1, s.y1)} == {Point(x0, y0), Point(x1, y1)}
  {
    var steep := Abs(y1 - y0) > Abs(x1 - x0);
    var (a0, b0, a1, b1) := if steep then (y0, x0, y1, x1) else (x0, y0, x1, y1);
    if a0 > a1 then LineSetup(steep, a1, b1, a0, b0) else LineSetup(steep, a0, b0, a1, b1)
  }

  /**
    * The pixels the loop `for (; x <= x1; x++)` plots from column x, minor
    * coordinate y and error term err.
    */
  function Bresenham(steep: bool, x: int, x1: int, y: int, err: int, dx: int, dy: int, ystep: int): seq<Point>
    decreases x1 - x + 1
  {
    if x > x1 then []
    else
      var e := err - dy;
      var (y', e') := if e < 0 then (y + ystep, e + dx) else (y, e);
      [Unswap(steep, x, y)] + Bresenham(steep, x + 1, x1, y', e', dx, dy, ystep)
  }

  /** The pixels drawLine(x0, y0, x1, y1, ..) plots, in order. */
  function LinePoints(x0: int, y0: int, x1: int, y1: int): seq<Point> {
    var s := Setup(x0, y0, x1, y1);
    var dx := s.x1 - s.x0;
    Bresenham(s.steep, s.x0, s.x1, s.y0, dx / 2, dx, Abs(s.y1 - s.y0), if s.y0 < s.y1 then 1 else -1)
  }

  /** Both directions of a line normalise to the same set-up. */
  lemma SetupReversed(x0: int, y0: int, x1: int, y1: int)
    ensures Setup(x0, y0, x1, y1) == Setup(x1, y1, x0, y0)
  {
    var s := Setup(x0, y0, x1, y1);
    if s.x0 == s.x1 {
      // a degenerate line: both endpoints coincide
      assert y0 == y1 && x0 == x1;
    }
  }

  /** drawLine is undirected: both directions plot the same pixels in the same order. */
  lemma LineReversed(x0: int, y0: int, x1: int, y1: int)
    ensures LinePoints(x0, y0, x1, y1) == LinePoints(x1, y1, x0, y0)
  {
    SetupReversed(x0, y0, x1, y1);
  }

  /** One pixel per step: the k-th pixel sits at column x + k of the dominant axis. */
  lemma {:induction false} BresenhamSteps(steep: bool, x: int, x1: int, y: int, err: int, dx: int, dy: int, ystep: int)
    ensures |Bresenham(steep, x, x1, y, err, dx, dy, ystep)| == Max(x1 - x + 1, 0)
    ensures forall k :: 0 <= k < |Bresenham(steep, x, x1, y, err, dx, dy, ystep)| ==>
      (if steep then Bresenham(steep, x, x1, y, err, dx, dy, ystep)[k].y
       else Bresenham(steep, x, x1, y, err, dx, dy, ystep)[k].x) == x + k
    decreases x1 - x + 1
  {
    if x <= x1 {
      var e := err - dy;
      var (y', e') := if e < 0 then (y + ystep, e + dx) else (y, e);
      BresenhamSteps(steep, x + 1, x1, y', e', dx, dy, ystep);
    }
  }

  /**
    * drawLine plots exactly max(|x1 - x0|, |y1 - y0|) + 1 pixels, one for
    * each unit step along the dominant axis.
    */
  lemma LineLength(x0: int, y0: int, x1: int, y1: int)
    ensures |LinePoints(x0, y0, x1, y1)| == Max(Abs(x1 - x0), Abs(y1 - y0)) + 1
    ensures forall k :: 0 <= k < |LinePoints(x0, y0, x1, y1)| ==>
      var p := LinePoints(x0, y0, x1, y1)[k];
      (if Abs(y1 - y0) > Abs(x1 - x0) then p.y else p.x) == Min(if Abs(y1 - y0) > Abs(x1 - x0) then y0 else x0, if Abs(y1 - y0) > Abs(x1 - x0) then y1 else x1) + k
  {
    var s := Setup(x0, y0, x1, y1);
    var dx := s.x1 - s.x0;
    BresenhamSteps(s.steep, s.x0, s.x1, s.y0, dx / 2, dx, Abs(s.y1 - s.y0), if s.y0 < s.y1 then 1 else -1);
  }

  /** The minor coordinate after r steps of ystep (ystep is 1 or -1). */
  function Advance(y: int, r: int, ystep: int): int {
    if ystep == 1 then y + r else y - r
  }

  lemma PredTimes(a: int, b: int)
    ensures (a - 1) * b == a * b - b
  {
  }

  /** An error term in [0, dx) that equals dx / 2 - r * dx forces r == 0. */
  lemma NoStepsOwed(r: int, dx: int, err: int)
    requires dx > 0 && 0 <= err < dx && err == dx / 2 - r * dx
    ensures r == 0
  {
  }

  /**
    * One step of the loop keeps the error-term invariant: with n columns
    * left and r minor steps owed, err == dx / 2 + n * dy - r * dx and
    * 0 <= err < dx (or everything is zero for a single-pixel line).
    */
  lemma ErrorStep(err: int, dx: int, dy: int, n: int, r: int)
    requires 0 <= dy <= dx && n >= 1
    requires 0 <= err < dx || (dx == 0 && err == 0 && r == 0)
    requires err == dx / 2 + n * dy - r * dx
    ensures err - dy < 0 ==> 0 <= err - dy + dx < dx && err - dy + dx == dx / 2 + (n - 1) * dy - (r - 1) * dx
    ensures err - dy >= 0 ==>
      (0 <= err - dy < dx || (dx == 0 && err - dy == 0 && r == 0)) && err - dy == dx / 2 + (n - 1) * dy - r * dx
  {
    PredTimes(n, dy);
    PredTimes(r, dx);
  }

  /** A step of the loop does not change the last pixel plotted. */
  lemma LastOfStep(steep: bool, x: int, x1: int, y: int, err: int, dx: int, dy: int, ystep: int, y': int, e': int)
    requires x < x1
    requires (y', e') == if err - dy < 0 then (y + ystep, err - dy + dx) else (y, err - dy)
    ensures var full := Bresenham(steep, x, x1, y, err, dx, dy, ystep);
      var rest := Bresenham(steep, x + 1, x1, y', e', dx, dy, ystep);
      |full| == |rest| + 1 && full[|full| - 1] == rest[|rest| - 1]
  {
    var rest := Bresenham(steep, x + 1, x1, y', e', dx, dy, ystep);
    assert Bresenham(steep, x, x1, y, err, dx, dy, ystep) == [Unswap(steep, x, y)] + rest;
  }

  /**
    * The error-term invariant makes the last pixel land on the far
    * endpoint: after the remaining columns, exactly r minor steps are taken.
    */
  lemma {:induction false} BresenhamReachesEnd(steep: bool, x: int, x1: int, y: int, err: int, dx: int, dy: int, ystep: int, n: nat, r: int)
    requires n == x1 - x && 0 <= dy <= dx && (ystep == 1 || ystep == -1)
    requires 0 <= err < dx || (dx == 0 && err == 0 && r == 0)
    requires err == dx / 2 + n * dy - r * dx
    ensures |Bresenham(steep, x, x1, y, err, dx, dy, ystep)| > 0
    ensures Bresenham(steep, x, x1, y, err, dx, dy, ystep)[|Bresenham(steep, x, x1, y, err, dx, dy, ystep)| - 1] == Unswap(steep, x1, Advance(y, r, ystep))
    decreases n
  {
    if n == 0 {
      if dx > 0 {
        NoStepsOwed(r, dx, err);
      }
    } else {
      var e := err - dy;
      ErrorStep(err, dx, dy, n, r);
      if e < 0 {
        assert Advance(y + ystep, r - 1, ystep) == Advance(y, r, ystep);
        BresenhamReachesEnd(steep, x + 1, x1, y + ystep, e + dx, dx, dy, ystep, n - 1, r - 1);
        LastOfStep(steep, x, x1, y, err, dx, dy, ystep, y + ystep, e + dx);
      } else {
        BresenhamReachesEnd(steep, x + 1, x1, y, e, dx, dy, ystep, n - 1, r);
        LastOfStep(steep, x, x1, y, err, dx, dy, ystep, y, e);
      }
    }
  }

  /** drawLine starts at one endpoint and ends at the other. */
  lemma LineEndpoints(x0: int, y0: int, x1: int, y1: int)
    ensures |LinePoints(x0, y0, x1, y1)| > 0
    ensures {LinePoints(x0, y0, x1, y1)[0], LinePoints(x0, y0, x1, y1)[|LinePoints(x0, y0, x1, y1)| - 1]} == {Point(x0, y0), Point(x1, y1)}
  {
    var s := Setup(x0, y0, x1, y1);
    var dx := s.x1 - s.x0;
    var dy := Abs(s.y1 - s.y0);
    var ystep := if s.y0 < s.y1 then 1 else -1;
    assert Advance(s.y0, dy, ystep) == s.y1;
    assert dx * dy == dy * dx;
    BresenhamReachesEnd(s.steep, s.x0, s.x1, s.y0, dx / 2, dx, dy, ystep, dx, dy);
  }
}
