/**
  * The midpoint circle routines: `drawCircle`, the quadrant-masked
  * `drawCircleHelper` used for rounded corners, and the span-filling
  * `fillCircleHelper` / `fillCircle`.  All four share one loop over the
  * decision variables f, ddF_x, ddF_y; each pass moves x one step right and y
  * at most one step down, and plots (or fills to) the symmetric points.
  */
module Circles {
  import opened CInt
  import opened FrameBuffer

  /** The loop state: offsets (x, y) from the centre and the decision variables. */
  datatype Midpoint = Midpoint(x: int, y: int, f: int, ddFx: int, ddFy: int)

  /** `f = 1 - r, ddF_x = 1, ddF_y = -2 * r, x = 0, y = r`. */
  function Start(r: u8): Midpoint {
    Midpoint(0, r, 1 - r, 1, -2 * r)
  }

  /** One pass of the loop body before plotting: y steps down when f >= 0, then x steps right. */
  function Step(s: Midpoint): Midpoint {
    var (y, ddFy, f) := if s.f >= 0 then (s.y - 1, s.ddFy + 2, s.f + s.ddFy + 2) else (s.y, s.ddFy, s.f);
    Midpoint(s.x + 1, y, f + s.ddFx + 2, s.ddFx + 2, ddFy)
  }

  /** The eight symmetric pixels drawCircle plots for offset (x, y). */
  function Octants(x0: int, y0: int, x: int, y: int): seq<Point> {
    [Point(x0 + x, y0 + y), Point(x0 - x, y0 + y), Point(x0 + x, y0 - y), Point(x0 - x, y0 - y),
     Point(x0 + y, y0 + x), Point(x0 - y, y0 + x), Point(x0 + y, y0 - x), Point(x0 - y, y0 - x)]
  }

  /** The pixels drawCircle's loop plots from state s while x < y. */
  function Arc(x0: int, y0: int, s: Midpoint): seq<Point>
    decreases s.y - s.x
  {
    if s.x < s.y then
      var t := Step(s);
      Octants(x0, y0, t.x, t.y) + Arc(x0, y0, t)
    else []
  }

  /** The pixels drawCircle(x0, y0, r, ..) plots: the four axis points, then the arc. */
  function CirclePoints(x0: int, y0: int, r: u8): seq<Point> {
    [Point(x0, y0 + r), Point(x0, y0 - r), Point(x0 + r, y0), Point(x0 - r, y0)] + Arc(x0, y0, Start(r))
  }

  /**
    * A point set closed under the reflections about (x0, y0) in the diagonal
    * and in the two axes, which generate all eight octant symmetries.
    */
  ghost predicate Symmetric(pts: seq<Point>, x0: int, y0: int) {
    forall p :: p in pts ==>
      Point(x0 + p.y - y0, y0 + p.x - x0) in pts && Point(2 * x0 - p.x, p.y) in pts && Point(p.x, 2 * y0 - p.y) in pts
  }

  lemma SymmetricConcat(a: seq<Point>, b: seq<Point>, x0: int, y0: int)
    requires Symmetric(a, x0, y0) && Symmetric(b, x0, y0)
    ensures Symmetric(a + b, x0, y0)
  {
    forall p | p in a + b
      ensures Point(x0 + p.y - y0, y0 + p.x - x0) in a + b
      ensures Point(2 * x0 - p.x, p.y) in a + b && Point(p.x, 2 * y0 - p.y) in a + b
    {
      if p in a {
        assert Point(x0 + p.y - y0, y0 + p.x - x0) in a;
        assert Point(2 * x0 - p.x, p.y) in a && Point(p.x, 2 * y0 - p.y) in a;
      } else {
        assert p in b;
        assert Point(x0 + p.y - y0, y0 + p.x - x0) in b;
        assert Point(2 * x0 - p.x, p.y) in b && Point(p.x, 2 * y0 - p.y) in b;
      }
    }
  }

  lemma OctantsSymmetric(x0: int, y0: int, x: int, y: int)
    ensures Symmetric(Octants(x0, y0, x, y), x0, y0)
  {
    var o := Octants(x0, y0, x, y);
    forall p | p in o
      ensures Point(x0 + p.y - y0, y0 + p.x - x0) in o
      ensures Point(2 * x0 - p.x, p.y) in o && Point(p.x, 2 * y0 - p.y) in o
    {
      var i :| 0 <= i < 8 && o[i] == p;
      if i == 0 { assert o[4] == Point(x0 + p.y - y0, y0 + p.x - x0) && o[1] == Point(2 * x0 - p.x, p.y) && o[2] == Point(p.x, 2 * y0 - p.y); }
      else if i == 1 { assert o[6] == Point(x0 + p.y - y0, y0 + p.x - x0) && o[0] == Point(2 * x0 - p.x, p.y) && o[3] == Point(p.x, 2 * y0 - p.y); }
      else if i == 2 { assert o[5] == Point(x0 + p.y - y0, y0 + p.x - x0) && o[3] == Point(2 * x0 - p.x, p.y) && o[0] == Point(p.x, 2 * y0 - p.y); }
      else if i == 3 { assert o[7] == Point(x0 + p.y - y0, y0 + p.x - x0) && o[2] == Point(2 * x0 - p.x, p.y) && o[1] == Point(p.x, 2 * y0 - p.y); }
      else if i == 4 { assert o[0] == Point(x0 + p.y - y0, y0 + p.x - x0) && o[5] == Point(2 * x0 - p.x, p.y) && o[6] == Point(p.x, 2 * y0 - p.y); }
      else if i == 5 { assert o[2] == Point(x0 + p.y - y0, y0 + p.x - x0) && o[4] == Point(2 * x0 - p.x, p.y) && o[7] == Point(p.x, 2 * y0 - p.y); }
      else if i == 6 { assert o[1] == Point(x0 + p.y - y0, y0 + p.x - x0) && o[7] == Point(2 * x0 - p.x, p.y) && o[4] == Point(p.x, 2 * y0 - p.y); }
      else { assert o[3] == Point(x0 + p.y - y0, y0 + p.x - x0) && o[6] == Point(2 * x0 - p.x, p.y) && o[5] == Point(p.x, 2 * y0 - p.y); }
    }
  }

  lemma {:induction false} ArcSymmetric(x0: int, y0: int, s: Midpoint)
    ensures Symmetric(Arc(x0, y0, s), x0, y0)
    decreases s.y - s.x
  {
    if s.x < s.y {
      var t := Step(s);
      ArcSymmetric(x0, y0, t);
      OctantsSymmetric(x0, y0, t.x, t.y);
      SymmetricConcat(Octants(x0, y0, t.x, t.y), Arc(x0, y0, t), x0, y0);
    }
  }

  /** drawCircle's pixels have the full eight-way symmetry of a circle about its centre. */
  lemma CircleSymmetric(x0: int, y0: int, r: u8)
    ensures Symmetric(CirclePoints(x0, y0, r), x0, y0)
  {
    var axes := [Point(x0, y0 + r), Point(x0, y0 - r), Point(x0 + r, y0), Point(x0 - r, y0)];
    forall p | p in axes
      ensures Point(x0 + p.y - y0, y0 + p.x - x0) in axes
      ensures Point(2 * x0 - p.x, p.y) in axes && Point(p.x, 2 * y0 - p.y) in axes
    {
      var i :| 0 <= i < 4 && axes[i] == p;
      if i == 0 { assert axes[2] == Point(x0 + p.y - y0, y0 + p.x - x0) && axes[0] == Point(2 * x0 - p.x, p.y) && axes[1] == Point(p.x, 2 * y0 - p.y); }
      else if i == 1 { assert axes[3] == Point(x0 + p.y - y0, y0 + p.x - x0) && axes[1] == Point(2 * x0 - p.x, p.y) && axes[0] == Point(p.x, 2 * y0 - p.y); }
      else if i == 2 { assert axes[0] == Point(x0 + p.y - y0, y0 + p.x - x0) && axes[3] == Point(2 * x0 - p.x, p.y) && axes[2] == Point(p.x, 2 * y0 - p.y); }
      else { assert axes[1] == Point(x0 + p.y - y0, y0 + p.x - x0) && axes[2] == Point(2 * x0 - p.x, p.y) && axes[3] == Point(p.x, 2 * y0 - p.y); }
    }
    ArcSymmetric(x0, y0, Start(r));
    SymmetricConcat(axes, Arc(x0, y0, Start(r)), x0, y0);
  }

  function Sq(v: int): int {
    v * v
  }

  /**
    * The closed forms of the decision variables and the midpoint bracket:
    * the midpoint below the current pixel is inside the circle and the one
    * above is not, i.e. -y <= x*x + y*y - r*r < y.
    */
  ghost predicate Tracks(s: Midpoint, r: int) {
    0 <= s.x < s.y <= r && s.ddFx == 2 * s.x + 1 && s.ddFy == -2 * s.y
    && s.f == Sq(s.x + 1) + Sq(s.y) - s.y - Sq(r)
    && -s.y <= Sq(s.x) + Sq(s.y) - Sq(r) < s.y
  }

  /** A plotted offset lies within r of the circle in squared distance, inside the bounding square. */
  ghost predicate NearCircle(x: int, y: int, r: int) {
    0 <= x <= r && 0 <= y <= r && Sq(r) - r <= Sq(x) + Sq(y) <= Sq(r) + r
  }

  lemma SqStep(v: int)
    ensures Sq(v + 1) == Sq(v) + 2 * v + 1 && Sq(v - 1) == Sq(v) - 2 * v + 1
  {
  }

  lemma StepTracks(s: Midpoint, r: int)
    requires Tracks(s, r)
    ensures NearCircle(Step(s).x, Step(s).y, r)
    ensures Step(s).x < Step(s).y ==> Tracks(Step(s), r)
  {
    var t := Step(s);
    var g := Sq(s.x) + Sq(s.y) - Sq(r);
    SqStep(s.x);
    SqStep(s.y);
    SqStep(t.x);
    assert s.f == g + 2 * s.x + 1 - s.y;
    if s.f >= 0 {
      assert Sq(t.x) + Sq(t.y) - Sq(r) == s.f - s.y + 1;
    } else {
      assert Sq(t.x) + Sq(t.y) - Sq(r) == g + 2 * s.x + 1;
    }
  }

  function Abs2(v: int): int { if v < 0 then -v else v }

  /** Every point of the list is within r of the circle about (x0, y0). */
  ghost predicate AllNear(pts: seq<Point>, x0: int, y0: int, r: int) {
    forall p :: p in pts ==> NearCircle(Abs2(p.x - x0), Abs2(p.y - y0), r)
  }

  lemma SqAbs(v: int)
    ensures Sq(Abs2(v)) == Sq(v)
  {
  }

  lemma OctantsNear(x0: int, y0: int, x: int, y: int, r: int)
    requires NearCircle(x, y, r)
    ensures AllNear(Octants(x0, y0, x, y), x0, y0, r)
  {
    SqAbs(x);
    SqAbs(y);
    var o := Octants(x0, y0, x, y);
    forall p | p in o
      ensures NearCircle(Abs2(p.x - x0), Abs2(p.y - y0), r)
    {
      var i :| 0 <= i < 8 && o[i] == p;
      if i < 4 {
        assert Abs2(p.x - x0) == x && Abs2(p.y - y0) == y;
      } else {
        assert Abs2(p.x - x0) == y && Abs2(p.y - y0) == x;
      }
    }
  }

  lemma {:induction false} ArcNear(x0: int, y0: int, s: Midpoint, r: int)
    requires Tracks(s, r) || s.x >= s.y
    ensures AllNear(Arc(x0, y0, s), x0, y0, r)
    decreases s.y - s.x
  {
    if s.x < s.y {
      var t := Step(s);
      StepTracks(s, r);
      OctantsNear(x0, y0, t.x, t.y, r);
      ArcNear(x0, y0, t, r);
    }
  }

  lemma StartTracks(r: int)
    requires 0 < r < 0x100
    ensures Tracks(Start(r), r)
  {
    assert Sq(1) == 1 && Sq(0) == 0;
  }

  lemma AxesNear(x0: int, y0: int, r: nat)
    ensures AllNear([Point(x0, y0 + r), Point(x0, y0 - r), Point(x0 + r, y0), Point(x0 - r, y0)], x0, y0, r)
  {
    assert Sq(0) == 0;
    assert NearCircle(0, r, r) && NearCircle(r, 0, r);
    var axes := [Point(x0, y0 + r), Point(x0, y0 - r), Point(x0 + r, y0), Point(x0 - r, y0)];
    forall p | p in axes
      ensures NearCircle(Abs2(p.x - x0), Abs2(p.y - y0), r)
    {
      var i :| 0 <= i < 4 && axes[i] == p;
      if i < 2 {
        assert Abs2(p.x - x0) == 0 && Abs2(p.y - y0) == r;
      } else {
        assert Abs2(p.x - x0) == r && Abs2(p.y - y0) == 0;
      }
    }
  }

  lemma AllNearConcat(a: seq<Point>, b: seq<Point>, x0: int, y0: int, r: int)
    requires AllNear(a, x0, y0, r) && AllNear(b, x0, y0, r)
    ensures AllNear(a + b, x0, y0, r)
  {
    forall p | p in a + b
      ensures NearCircle(Abs2(p.x - x0), Abs2(p.y - y0), r)
    {
      if p in a {
      } else {
        assert p in b;
      }
    }
  }

  /**
    * Every pixel drawCircle(x0, y0, r) plots lies within the circle's
    * bounding square and satisfies r*r - r <= dx*dx + dy*dy <= r*r + r.
    */
  lemma CircleNearRadius(x0: int, y0: int, r: u8)
    ensures AllNear(CirclePoints(x0, y0, r), x0, y0, r)
  {
    if r > 0 {
      StartTracks(r);
    }
    ArcNear(x0, y0, Start(r), r);
    AxesNear(x0, y0, r);
    AllNearConcat([Point(x0, y0 + r), Point(x0, y0 - r), Point(x0 + r, y0), Point(x0 - r, y0)], Arc(x0, y0, Start(r)), x0, y0, r);
  }

  /** `cornername & bit` in the C source. */
  predicate Corner(cornername: u8, bit: bv8) {
    (cornername as bv8) & bit != 0
  }

  /** The pixels drawCircleHelper plots for offset (x, y): two per selected quadrant. */
  function HelperOctants(x0: int, y0: int, x: int, y: int, cornername: u8): seq<Point> {
    HelperQuad(Corner(cornername, 4), Corner(cornername, 2), Corner(cornername, 8), Corner(cornername, 1),
               x0 + x, x0 + y, x0 - x, x0 - y, y0 + y, y0 + x, y0 - y, y0 - x)
  }

  /**
    * One pass of drawCircleHelper with its coordinates worked out: the pixel
    * pairs of the lower right (4), upper right (2), lower left (8) and upper
    * left (1) quadrants, in the order the source plots them.
    */
  function HelperQuad(lr: bool, ur: bool, ll: bool, ul: bool,
                      xa: int, xb: int, xc: int, xd: int, ya: int, yb: int, yc: int, yd: int): seq<Point> {
    (if lr then [Point(xa, ya), Point(xb, yb)] else []) +
    (if ur then [Point(xa, yc), Point(xb, yd)] else []) +
    (if ll then [Point(xd, yb), Point(xc, ya)] else []) +
    (if ul then [Point(xd, yd), Point(xc, yc)] else [])
  }

  function HelperArc(x0: int, y0: int, s: Midpoint, cornername: u8): seq<Point>
    decreases s.y - s.x
  {
    if s.x < s.y then
      var t := Step(s);
      HelperOctants(x0, y0, t.x, t.y, cornername) + HelperArc(x0, y0, t, cornername)
    else []
  }

  /** The pixels drawCircleHelper(x0, y0, r, cornername, ..) plots. */
  function CornerPoints(x0: int, y0: int, r: u8, cornername: u8): seq<Point> {
    HelperArc(x0, y0, Start(r), cornername)
  }

  lemma {:induction false} HelperArcWithinArc(x0: int, y0: int, s: Midpoint, cornername: u8)
    ensures forall p :: p in HelperArc(x0, y0, s, cornername) ==> p in Arc(x0, y0, s)
    decreases s.y - s.x
  {
    if s.x < s.y {
      HelperArcWithinArc(x0, y0, Step(s), cornername);
    }
  }

  /** drawCircleHelper plots a subset of the pixels drawCircle plots for the same circle. */
  lemma CornerWithinCircle(x0: int, y0: int, r: u8, cornername: u8)
    ensures forall p :: p in CornerPoints(x0, y0, r, cornername) ==> p in CirclePoints(x0, y0, r)
  {
    HelperArcWithinArc(x0, y0, Start(r), cornername);
  }

  /**
    * Bit 0x1 selects the upper-left quadrant, 0x2 the upper-right, 0x4 the
    * lower-right and 0x8 the lower-left (y grows downwards).
    */
  ghost predicate InSelectedQuadrant(p: Point, x0: int, y0: int, cornername: u8) {
    (Corner(cornername, 1) && p.x <= x0 && p.y <= y0) ||
    (Corner(cornername, 2) && p.x >= x0 && p.y <= y0) ||
    (Corner(cornername, 4) && p.x >= x0 && p.y >= y0) ||
    (Corner(cornername, 8) && p.x <= x0 && p.y >= y0)
  }

  lemma {:induction false} HelperArcQuadrants(x0: int, y0: int, s: Midpoint, cornername: u8)
    requires 0 <= s.x && 0 <= s.y
    ensures forall p :: p in HelperArc(x0, y0, s, cornername) ==> InSelectedQuadrant(p, x0, y0, cornername)
    decreases s.y - s.x
  {
    if s.x < s.y {
      HelperArcQuadrants(x0, y0, Step(s), cornername);
    }
  }

  /** Each pixel drawCircleHelper plots lies in a quadrant its cornername selects. */
  lemma CornerQuadrants(x0: int, y0: int, r: u8, cornername: u8)
    ensures forall p :: p in CornerPoints(x0, y0, r, cornername) ==> InSelectedQuadrant(p, x0, y0, cornername)
  {
    HelperArcQuadrants(x0, y0, Start(r), cornername);
  }

  /**
    * The columns fillCircleHelper fills for offset (x, y), each
    * `drawFastVLine(.., 2 * y + 1 + delta, ..)` with its height stored into a
    * `uint8_t`.
    */
  function FillOctants(x0: int, y0: int, x: int, y: int, cornername: u8, delta: int): seq<Point> {
    FillQuad(Corner(cornername, 1), Corner(cornername, 2), x0 + x, x0 + y, x0 - x, x0 - y, y0 - y, y0 - x,
             Wrap8(2 * y + 1 + delta), Wrap8(2 * x + 1 + delta))
  }

  /**
    * One pass of fillCircleHelper with its coordinates worked out: the
    * columns at `xa` and `xb` for the right half (corner bit 1), at `xc` and
    * `xd` for the left half (corner bit 2).
    */
  function FillQuad(right: bool, left: bool, xa: int, xb: int, xc: int, xd: int, ya: int, yb: int, hy: u8, hx: u8): seq<Point> {
    (if right then VLinePoints(xa, ya, hy) + VLinePoints(xb, yb, hx) else []) +
    (if left then VLinePoints(xc, ya, hy) + VLinePoints(xd, yb, hx) else [])
  }

  function FillArc(x0: int, y0: int, s: Midpoint, cornername: u8, delta: int): seq<Point>
    decreases s.y - s.x
  {
    if s.x < s.y then
      var t := Step(s);
      FillOctants(x0, y0, t.x, t.y, cornername, delta) + FillArc(x0, y0, t, cornername, delta)
    else []
  }

  /** The pixels fillCircleHelper(x0, y0, r, cornername, delta, ..) plots. */
  function FillCornerPoints(x0: int, y0: int, r: u8, cornername: u8, delta: int): seq<Point> {
    FillArc(x0, y0, Start(r), cornername, delta)
  }

  /** The pixels fillCircle(x0, y0, r, ..) plots: the centre column, then both halves. */
  function FillCirclePoints(x0: int, y0: int, r: u8): seq<Point> {
    VLinePoints(x0, y0 - r, Wrap8(2 * r + 1)) + FillCornerPoints(x0, y0, r, 3, 0)
  }

  /**
    * The pixels of the four columns fillCircleHelper fills for offset (x, y)
    * when both halves are selected: columns x0 +- x over rows y0 - y .. y0 + y
    * and columns x0 +- y over rows y0 - x .. y0 + x.
    */
  ghost predicate InColumns(x0: int, y0: int, x: int, y: int, p: Point) {
    ((p.x == x0 + x || p.x == x0 - x) && y0 - y <= p.y <= y0 + y) ||
    ((p.x == x0 + y || p.x == x0 - y) && y0 - x <= p.y <= y0 + x)
  }

  /** With both halves selected, no delta and no wrap, a pass is exactly its four columns at their full heights. */
  lemma FillOctantsColumns(x0: int, y0: int, x: int, y: int, p: Point)
    requires 0 <= x <= 127 && 0 <= y <= 127 && OnScreen(p)
    ensures p in FillOctants(x0, y0, x, y, 3, 0) <==> InColumns(x0, y0, x, y, p)
  {
    FillOctantsFull(x0, y0, x, y, p);
  }

  /** Both halves, no delta and no wrap: the stored heights are the full 2y + 1 and 2x + 1. */
  lemma FillOctantsFull(x0: int, y0: int, x: int, y: int, p: Point)
    requires 0 <= x <= 127 && 0 <= y <= 127 && OnScreen(p)
    ensures p in FillOctants(x0, y0, x, y, 3, 0) <==> InQuad(true, true, x0 + x, x0 + y, x0 - x, x0 - y, y0 - y, y0 - x, 2 * y + 1, 2 * x + 1, p)
  {
    FillOctantsHasPoint(x0, y0, x, y, 3, 0, p);
    CornerHalves(3);
    Wrap8Congruent(2 * y + 1 + 0);
    Wrap8Congruent(2 * x + 1 + 0);
  }

  lemma OctantsInColumns(x0: int, y0: int, x: int, y: int, p: Point)
    requires 0 <= x && 0 <= y && p in Octants(x0, y0, x, y)
    ensures InColumns(x0, y0, x, y, p)
  {
    var o := Octants(x0, y0, x, y);
    var i :| 0 <= i < 8 && o[i] == p;
  }

  /** A state reachable from Start(r): both offsets within [0, r]. */
  ghost predicate InBox(s: Midpoint, r: int) {
    0 <= s.x && 0 <= s.y <= r && (s.x < s.y ==> s.x <= r)
  }

  lemma {:induction false} ArcWithinFill(x0: int, y0: int, s: Midpoint, r: u8)
    requires r <= 127 && InBox(s, r)
    ensures forall p :: OnScreen(p) && p in Arc(x0, y0, s) ==> p in FillArc(x0, y0, s, 3, 0)
    decreases s.y - s.x
  {
    if s.x < s.y {
      var t := Step(s);
      ArcWithinFill(x0, y0, t, r);
      var o := Octants(x0, y0, t.x, t.y);
      var f := FillOctants(x0, y0, t.x, t.y, 3, 0);
      assert Arc(x0, y0, s) == o + Arc(x0, y0, t);
      assert FillArc(x0, y0, s, 3, 0) == f + FillArc(x0, y0, t, 3, 0);
      forall p | OnScreen(p) && p in Arc(x0, y0, s)
        ensures p in FillArc(x0, y0, s, 3, 0)
      {
        if p in o {
          OctantsInColumns(x0, y0, t.x, t.y, p);
          FillOctantsColumns(x0, y0, t.x, t.y, p);
        } else {
          assert p in Arc(x0, y0, t);
        }
      }
    }
  }

  /** The first pass from Start(r) moves to offset (1, 0) when r == 1 and to (1, r) otherwise. */
  lemma FirstPass(x0: int, y0: int, r: u8)
    requires 1 <= r
    ensures FillCornerPoints(x0, y0, r, 3, 0) ==
      FillOctants(x0, y0, 1, if r == 1 then 0 else r, 3, 0) + FillArc(x0, y0, Step(Start(r)), 3, 0)
  {
    var s := Start(r);
    var t := Step(s);
    assert s.f == 1 - r && t.x == 1;
    if r == 1 {
      assert t.y == 0;
    } else {
      assert t.y == r;
    }
  }

  lemma SidesInFill(x0: int, y0: int, r: u8, p: Point)
    requires 1 <= r <= 127 && OnScreen(p) && p.y == y0 && (p.x == x0 + r || p.x == x0 - r)
    ensures p in FillCornerPoints(x0, y0, r, 3, 0)
  {
    var ty := if r == 1 then 0 else r;
    assert InColumns(x0, y0, 1, ty, p);
    FillOctantsColumns(x0, y0, 1, ty, p);
    FirstPass(x0, y0, r);
  }

  lemma AxisInFill(x0: int, y0: int, r: u8, p: Point)
    requires r <= 127 && OnScreen(p)
    requires p in [Point(x0, y0 + r), Point(x0, y0 - r), Point(x0 + r, y0), Point(x0 - r, y0)]
    ensures p in FillCirclePoints(x0, y0, r)
  {
    var centre := VLinePoints(x0, y0 - r, Wrap8(2 * r + 1));
    assert Wrap8(2 * r + 1) == 2 * r + 1;
    if p.x == x0 {
      VLineHas(x0, y0 - r, Wrap8(2 * r + 1), p);
    } else {
      SidesInFill(x0, y0, r, p);
    }
  }

  /**
    * For r <= 127, every on-screen pixel of drawCircle's outline is covered
    * by fillCircle for the same circle.
    */
  lemma FillCircleCoversOutline(x0: int, y0: int, r: u8)
    requires r <= 127
    ensures forall p :: OnScreen(p) && p in CirclePoints(x0, y0, r) ==> p in FillCirclePoints(x0, y0, r)
  {
    var axes := [Point(x0, y0 + r), Point(x0, y0 - r), Point(x0 + r, y0), Point(x0 - r, y0)];
    var fill := FillCornerPoints(x0, y0, r, 3, 0);
    ArcWithinFill(x0, y0, Start(r), r);
    forall p | OnScreen(p) && p in CirclePoints(x0, y0, r)
      ensures p in FillCirclePoints(x0, y0, r)
    {
      if p in axes {
        AxisInFill(x0, y0, r, p);
      } else {
        assert p in Arc(x0, y0, Start(r));
        assert p in fill;
      }
    }
  }

  /**
    * For r >= 128 the centre column's height 2 * r + 1 wraps in the
    * `uint8_t` of drawFastVLine: the column is 256 rows short and stops
    * above the outline's bottom pixel (x0, y0 + r).
    */
  lemma WideCentreColumn(x0: int, y0: int, r: u8)
    requires r >= 128
    ensures Wrap8(2 * r + 1) == 2 * r + 1 - 0x100
    ensures forall q :: OnScreen(q) ==> (q in VLinePoints(x0, y0 - r, Wrap8(2 * r + 1)) <==> q.x == x0 && y0 - r <= q.y < y0 + r - 0xFF)
  {
    VLineMembers(x0, y0 - r, Wrap8(2 * r + 1));
  }

  /** From a state with its offsets in [0, r], the halves' columns reach column x0 only at rows up to y0 + 1. */
  lemma {:induction false} FillArcOffAxis(x0: int, y0: int, s: Midpoint, r: u8, p: Point)
    requires 0 <= s.x && s.y <= r && OnScreen(p) && p.x == x0 && p in FillArc(x0, y0, s, 3, 0)
    ensures p.y <= y0 + 1
    decreases s.y - s.x
  {
    var t := Step(s);
    if p in FillOctants(x0, y0, t.x, t.y, 3, 0) {
      FillOctantsWithin(x0, y0, t.x, t.y, p);
    } else {
      FillArcOffAxis(x0, y0, t, r, p);
    }
  }

  /**
    * For r >= 128 fillCircle does not cover drawCircle's outline: the bottom
    * pixel (x0, y0 + r) is drawn by drawCircle and not by fillCircle.
    */
  lemma FillCircleMissesBottom(x0: int, y0: int, r: u8)
    requires r >= 128 && OnScreen(Point(x0, y0 + r))
    ensures Point(x0, y0 + r) in CirclePoints(x0, y0, r)
    ensures Point(x0, y0 + r) !in FillCirclePoints(x0, y0, r)
  {
    var p := Point(x0, y0 + r);
    WideCentreColumn(x0, y0, r);
    if p in FillCornerPoints(x0, y0, r, 3, 0) {
      FillArcOffAxis(x0, y0, Start(r), r, p);
    }
  }

  lemma SqMono(v: int, b: int)
    requires -b <= v <= b
    ensures Sq(v) <= Sq(b)
  {
    if v >= 0 {
      assert v * v <= b * v <= b * b;
    } else {
      assert v * v == (-v) * (-v) <= b * (-v) <= b * b;
    }
  }

  /** A column of fillCircle's sweep stays inside the radius bound. */
  lemma ColumnInDisk(x0: int, y0: int, u: int, v: int, r: int, p: Point)
    requires Sq(u) + Sq(v) <= Sq(r) + r && 0 <= v
    requires Abs2(p.x - x0) == Abs2(u) && y0 - v <= p.y <= y0 + v
    ensures Sq(p.x - x0) + Sq(p.y - y0) <= Sq(r) + r
  {
    SqMono(p.y - y0, v);
    SqAbs(p.x - x0);
    SqAbs(u);
  }

  lemma ColumnsInDisk(x0: int, y0: int, x: int, y: int, r: int, p: Point)
    requires 0 <= x && 0 <= y && Sq(x) + Sq(y) <= Sq(r) + r
    requires InColumns(x0, y0, x, y, p)
    ensures Sq(p.x - x0) + Sq(p.y - y0) <= Sq(r) + r
  {
    if (p.x == x0 + x || p.x == x0 - x) && y0 - y <= p.y <= y0 + y {
      ColumnInDisk(x0, y0, x, y, r, p);
    } else {
      ColumnInDisk(x0, y0, y, x, r, p);
    }
  }

  /**
    * The pixels of one pass lie in its four columns at their full heights,
    * whatever the `uint8_t` stores of those heights cut off.
    */
  lemma FillOctantsWithin(x0: int, y0: int, x: int, y: int, p: Point)
    requires 0 <= x && 0 <= y && OnScreen(p) && p in FillOctants(x0, y0, x, y, 3, 0)
    ensures InColumns(x0, y0, x, y, p)
  {
    FillOctantsSpan(x0, y0, x, y, 3, 0, p);
    Wrap8Below(2 * y + 1 + 0);
    Wrap8Below(2 * x + 1 + 0);
  }

  /** A pixel of a pass lies in one of its columns, within that column's stored height. */
  lemma FillOctantsSpan(x0: int, y0: int, x: int, y: int, cornername: u8, delta: int, p: Point)
    requires OnScreen(p) && p in FillOctants(x0, y0, x, y, cornername, delta)
    ensures ((p.x == x0 + x || p.x == x0 - x) && y0 - y <= p.y < y0 - y + Wrap8(2 * y + 1 + delta)) ||
            ((p.x == x0 + y || p.x == x0 - y) && y0 - x <= p.y < y0 - x + Wrap8(2 * x + 1 + delta))
  {
    FillOctantsHasPoint(x0, y0, x, y, cornername, delta, p);
  }

  /**
    * Where the pixels of one pass are: in a selected half's columns, within
    * the stored heights.
    */
  ghost predicate InQuad(right: bool, left: bool, xa: int, xb: int, xc: int, xd: int, ya: int, yb: int, hy: u8, hx: u8, p: Point) {
    (right && ((p.x == xa && ya <= p.y < ya + hy) || (p.x == xb && yb <= p.y < yb + hx))) ||
    (left && ((p.x == xc && ya <= p.y < ya + hy) || (p.x == xd && yb <= p.y < yb + hx)))
  }

  /** An on-screen pixel is in a pass exactly when InQuad says so. */
  lemma FillQuadHas(right: bool, left: bool, xa: int, xb: int, xc: int, xd: int, ya: int, yb: int, hy: u8, hx: u8, q: Point)
    requires OnScreen(q)
    ensures q in FillQuad(right, left, xa, xb, xc, xd, ya, yb, hy, hx) <==> InQuad(right, left, xa, xb, xc, xd, ya, yb, hy, hx, q)
  {
    VLineHas(xa, ya, hy, q);
    VLineHas(xb, yb, hx, q);
    VLineHas(xc, ya, hy, q);
    VLineHas(xd, yb, hx, q);
  }

  /** FillQuadHas for every pass at once. */
  lemma FillQuadMembers()
    ensures forall right, left, xa, xb, xc, xd, ya, yb, hy: u8, hx: u8, q :: OnScreen(q) ==>
      (q in FillQuad(right, left, xa, xb, xc, xd, ya, yb, hy, hx) <==> InQuad(right, left, xa, xb, xc, xd, ya, yb, hy, hx, q))
  {
    forall right, left, xa, xb, xc, xd, ya, yb, hy: u8, hx: u8, q | OnScreen(q)
      ensures q in FillQuad(right, left, xa, xb, xc, xd, ya, yb, hy, hx) <==> InQuad(right, left, xa, xb, xc, xd, ya, yb, hy, hx, q)
    {
      FillQuadHas(right, left, xa, xb, xc, xd, ya, yb, hy, hx, q);
    }
  }

  /** FillQuadHas for the pass fillCircleHelper makes at offsets (x, y). */
  lemma FillOctantsHasPoint(x0: int, y0: int, x: int, y: int, cornername: u8, delta: int, q: Point)
    requires OnScreen(q)
    ensures q in FillOctants(x0, y0, x, y, cornername, delta) <==>
            InQuad(Corner(cornername, 1), Corner(cornername, 2), x0 + x, x0 + y, x0 - x, x0 - y, y0 - y, y0 - x, Wrap8(2 * y + 1 + delta), Wrap8(2 * x + 1 + delta), q)
  {
    FillQuadMembers();
  }

  /** Every pass is FillQuad with its coordinates and stored heights worked out. */
  lemma FillOctantsQuads()
    ensures forall x0, y0, x, y, cornername: u8, delta ::
      FillOctants(x0, y0, x, y, cornername, delta) ==
        FillQuad(Corner(cornername, 1), Corner(cornername, 2), x0 + x, x0 + y, x0 - x, x0 - y, y0 - y, y0 - x, Wrap8(2 * y + 1 + delta), Wrap8(2 * x + 1 + delta))
  {
  }

  /** Corner bit 1 selects the right half, bit 2 the left half. */
  lemma CornerHalves(cornername: u8)
    requires 1 <= cornername <= 3
    ensures Corner(cornername, 1) == (cornername != 2)
    ensures Corner(cornername, 2) == (cornername != 1)
  {
    if cornername == 1 {
      assert Corner(1, 1) && !Corner(1, 2);
    } else if cornername == 2 {
      assert !Corner(2, 1) && Corner(2, 2);
    } else {
      assert Corner(3, 1) && Corner(3, 2);
    }
  }

  lemma {:induction false} FillArcInDisk(x0: int, y0: int, s: Midpoint, r: u8)
    requires Tracks(s, r) || s.x >= s.y
    ensures forall p :: OnScreen(p) && p in FillArc(x0, y0, s, 3, 0) ==> Sq(p.x - x0) + Sq(p.y - y0) <= Sq(r) + r
    decreases s.y - s.x
  {
    if s.x < s.y {
      var t := Step(s);
      StepTracks(s, r);
      FillArcInDisk(x0, y0, t, r);
      var f := FillOctants(x0, y0, t.x, t.y, 3, 0);
      assert FillArc(x0, y0, s, 3, 0) == f + FillArc(x0, y0, t, 3, 0);
      forall p | OnScreen(p) && p in FillArc(x0, y0, s, 3, 0)
        ensures Sq(p.x - x0) + Sq(p.y - y0) <= Sq(r) + r
      {
        if p in f {
          FillOctantsWithin(x0, y0, t.x, t.y, p);
          ColumnsInDisk(x0, y0, t.x, t.y, r, p);
        } else {
          assert p in FillArc(x0, y0, t, 3, 0);
        }
      }
    }
  }

  /**
    * Every on-screen pixel fillCircle(x0, y0, r) plots lies inside the disk
    * dx*dx + dy*dy <= r*r + r.  For r >= 128 the `uint8_t` column heights
    * wrap, which only shortens the columns.
    */
  lemma FillCircleInDisk(x0: int, y0: int, r: u8)
    ensures forall p :: OnScreen(p) && p in FillCirclePoints(x0, y0, r) ==> Sq(p.x - x0) + Sq(p.y - y0) <= Sq(r) + r
  {
    if r > 0 {
      StartTracks(r);
    }
    FillArcInDisk(x0, y0, Start(r), r);
    var centre := VLinePoints(x0, y0 - r, Wrap8(2 * r + 1));
    assert Wrap8(2 * r + 1) <= 2 * r + 1;
    assert Sq(0) == 0;
    forall p | OnScreen(p) && p in FillCirclePoints(x0, y0, r)
      ensures Sq(p.x - x0) + Sq(p.y - y0) <= Sq(r) + r
    {
      if p in centre {
        VLineMembers(x0, y0 - r, Wrap8(2 * r + 1));
        assert p.x == x0 && y0 - r <= p.y <= y0 + r;
        ColumnInDisk(x0, y0, 0, r, r, p);
      } else {
        assert p in FillCornerPoints(x0, y0, r, 3, 0);
      }
    }
  }

  // ---------------------------------------------------------------------
  // fillCircleHelper for one half, as fillRoundRect uses it

  /**
    * One pass with offsets in [0, r] stays in the box of half-width r
    * stretched down by delta: a wrapped column height only shortens it.
    */
  lemma FillOctantsBox(x0: int, y0: int, x: int, y: int, cornername: u8, delta: int, r: int, p: Point)
    requires 0 <= x <= r && 0 <= y <= r && 0 <= delta
    requires OnScreen(p) && p in FillOctants(x0, y0, x, y, cornername, delta)
    ensures x0 - r <= p.x <= x0 + r && y0 - r <= p.y <= y0 + r + delta
  {
    FillOctantsSpan(x0, y0, x, y, cornername, delta, p);
    Wrap8Below(2 * y + 1 + delta);
    Wrap8Below(2 * x + 1 + delta);
  }

  /** fillCircleHelper's loop from a state with offsets in [0, r] stays in the same box. */
  lemma {:induction false} FillArcBox(x0: int, y0: int, s: Midpoint, cornername: u8, delta: int, r: int, p: Point)
    requires 0 <= s.x && 0 <= s.y <= r && 0 <= delta
    requires OnScreen(p) && p in FillArc(x0, y0, s, cornername, delta)
    ensures x0 - r <= p.x <= x0 + r && y0 - r <= p.y <= y0 + r + delta
    decreases s.y - s.x
  {
    var t := Step(s);
    if p in FillOctants(x0, y0, t.x, t.y, cornername, delta) {
      FillOctantsBox(x0, y0, t.x, t.y, cornername, delta, r, p);
    } else {
      FillArcBox(x0, y0, t, cornername, delta, r, p);
    }
  }

  /** The column k offsets from x0 on the side the single-bit cornername 1 (right) or 2 (left) selects. */
  function SideColumn(x0: int, cornername: u8, k: int): int {
    if cornername == 1 then x0 + k else x0 - k
  }

  /** A pass fills rows y0 .. y0 + delta of the columns at offsets x and y on its side. */
  lemma FillOctantsHas(x0: int, y0: int, x: int, y: int, cornername: u8, delta: int, k: int, j: int)
    requires cornername == 1 || cornername == 2
    requires 0 <= x && 0 <= y && 0 <= delta && 2 * x + 1 + delta < 0x100 && 2 * y + 1 + delta < 0x100
    requires (k == x || k == y) && 0 <= j <= delta && OnScreen(Point(SideColumn(x0, cornername, k), y0 + j))
    ensures Point(SideColumn(x0, cornername, k), y0 + j) in FillOctants(x0, y0, x, y, cornername, delta)
  {
    FillOctantsHasPoint(x0, y0, x, y, cornername, delta, Point(SideColumn(x0, cornername, k), y0 + j));
    CornerHalves(cornername);
    Wrap8Congruent(2 * y + 1 + delta);
    Wrap8Congruent(2 * x + 1 + delta);
  }

  /**
    * fillCircleHelper's loop from state s fills rows y0 .. y0 + delta of
    * every column past offset s.x, up to the larger of the next pass's two
    * offsets: the offsets x and y between them reach every column.
    */
  lemma {:induction false} FillArcBand(x0: int, y0: int, s: Midpoint, cornername: u8, delta: int, k: int, j: int)
    requires cornername == 1 || cornername == 2
    requires 0 <= s.x < s.y && 0 <= delta && 2 * s.y + 1 + delta < 0x100
    requires s.x < k <= Max(Step(s).y, s.x + 1) && 0 <= j <= delta
    requires OnScreen(Point(SideColumn(x0, cornername, k), y0 + j))
    ensures Point(SideColumn(x0, cornername, k), y0 + j) in FillArc(x0, y0, s, cornername, delta)
    decreases s.y - s.x
  {
    var t := Step(s);
    assert FillArc(x0, y0, s, cornername, delta) == FillOctants(x0, y0, t.x, t.y, cornername, delta) + FillArc(x0, y0, t, cornername, delta);
    if k == t.x || k == t.y {
      FillOctantsHas(x0, y0, t.x, t.y, cornername, delta, k, j);
    } else {
      FillArcBand(x0, y0, t, cornername, delta, k, j);
    }
  }

  /** From Start(r) the band reaches every column offset 1 .. r. */
  lemma StartReach(r: u8)
    requires 1 <= r
    ensures Max(Step(Start(r)).y, Start(r).x + 1) == r
  {
    assert Start(r).f == 1 - r;
  }
}
