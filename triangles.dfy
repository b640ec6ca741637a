/**
  * `drawTriangle` (three lines) and `fillTriangle`, which sorts the vertices
  * by y and fills one horizontal span per row: rows y0 .. last between the
  * edges 0-1 and 0-2, then rows last + 1 .. y2 between the edges 1-2 and
  * 0-2, each crossing found by C's truncating division.
  */
module Triangles {
  import opened CInt
  import opened FrameBuffer
  import opened Lines

  datatype Triangle = Triangle(x0: int, y0: int, x1: int, y1: int, x2: int, y2: int)

  function Vertices(t: Triangle): multiset<Point> {
    multiset{Point(t.x0, t.y0), Point(t.x1, t.y1), Point(t.x2, t.y2)}
  }

  function Min3(a: int, b: int, c: int): int { Min(a, Min(b, c)) }
  function Max3(a: int, b: int, c: int): int { Max(a, Max(b, c)) }

  predicate SortedByY(t: Triangle) {
    t.y0 <= t.y1 <= t.y2
  }

  /**
    * The sort as written: each `if (yi > yj) swap(yi, yj); swap(xi, xj);`
    * guards only the y swap, so the x swap happens every time.
    */
  function SortAsWritten(t: Triangle): (s: Triangle)
    ensures SortedByY(s)
    ensures multiset{s.y0, s.y1, s.y2} == multiset{t.y0, t.y1, t.y2}
    ensures s.x0 == t.x2 && s.x1 == t.x1 && s.x2 == t.x0
  {
    var (y0, y1, x0, x1) := (if t.y0 > t.y1 then t.y1 else t.y0, if t.y0 > t.y1 then t.y0 else t.y1, t.x1, t.x0);
    var (y1', y2, x1', x2) := (if y1 > t.y2 then t.y2 else y1, if y1 > t.y2 then y1 else t.y2, t.x2, x1);
    var (y0', y1'', x0', x1'') := (if y0 > y1' then y1' else y0, if y0 > y1' then y0 else y1', x1', x0);
    Triangle(x0', y0', x1'', y1'', x2, y2)
  }

  /** `if (y0 > y1) { swap(y0, y1); swap(x0, x1); }`: vertices 0 and 1 exchanged whole. */
  function Order01(t: Triangle): (s: Triangle)
    ensures Vertices(s) == Vertices(t) && s.y0 <= s.y1 && s.y2 == t.y2
  {
    if t.y0 > t.y1 then Triangle(t.x1, t.y1, t.x0, t.y0, t.x2, t.y2) else t
  }

  /** `if (y1 > y2) { swap(y2, y1); swap(x2, x1); }`: vertices 1 and 2 exchanged whole. */
  function Order12(t: Triangle): (s: Triangle)
    ensures Vertices(s) == Vertices(t) && s.y1 <= s.y2 && s.x0 == t.x0 && s.y0 == t.y0
    ensures s.y1 == Min(t.y1, t.y2) && s.y2 == Max(t.y1, t.y2)
  {
    if t.y1 > t.y2 then Triangle(t.x0, t.y0, t.x2, t.y2, t.x1, t.y1) else t
  }

  /** The sort with braces: the vertices exchanged whole, giving a reordering of the triangle in y order. */
  function SortByY(t: Triangle): (s: Triangle)
    ensures SortedByY(s)
    ensures Vertices(s) == Vertices(t)
  {
    Order01(Order12(Order01(t)))
  }

  /** The sorted triangle spans the rows of the original: its first and last rows are the extreme ys. */
  lemma SortByYRange(t: Triangle)
    ensures SortByY(t).y0 == Min3(t.y0, t.y1, t.y2) && SortByY(t).y2 == Max3(t.y0, t.y1, t.y2)
  {
    var s := SortByY(t);
    assert Point(t.x0, t.y0) in Vertices(s) && Point(t.x1, t.y1) in Vertices(s) && Point(t.x2, t.y2) in Vertices(s);
    assert Point(s.x0, s.y0) in Vertices(t) && Point(s.x2, s.y2) in Vertices(t);
  }

  /** Applied to a triangle already in y order the sort as written still exchanges vertices 0 and 2's x. */
  lemma SortAsWrittenMismatch()
    ensures SortAsWritten(Triangle(0, 0, 0, 5, 10, 10)) == Triangle(10, 0, 0, 5, 0, 10)
    ensures Point(10, 0) in Vertices(SortAsWritten(Triangle(0, 0, 0, 5, 10, 10)))
    ensures Point(10, 0) !in Vertices(Triangle(0, 0, 0, 5, 10, 10))
    ensures SortByY(Triangle(0, 0, 0, 5, 10, 10)) == Triangle(0, 0, 0, 5, 10, 10)
  {
  }

  /**
    * With all three vertices on one row the x swaps only permute the
    * columns, so the fill as written and the corrected one agree: a single
    * span from the leftmost to the rightmost vertex.
    */
  lemma FlatFill(t: Triangle)
    requires t.y0 == t.y1 == t.y2
    ensures FillSpansAsWritten(t) == FillSpans(t)
    ensures FillSpans(t) == [Span(Min3(t.x0, t.x1, t.x2), t.y0, Wrap8(Max3(t.x0, t.x1, t.x2) - Min3(t.x0, t.x1, t.x2) + 1))]
  {
    assert SortByY(t) == t;
  }

  /** One call `drawFastHLine(x, y, w, color)`. */
  datatype Span = Span(x: int, y: int, w: u8)

  /** The span between crossings a and b on row y: `if (a > b) swap(a, b); drawFastHLine(a, y, b - a + 1, ..)`. */
  function SpanOf(a: int, b: int, y: int): (sp: Span)
    ensures sp.y == y && sp.x == Min(a, b)
    ensures Max(a, b) - Min(a, b) < 0xFF ==> sp.x + sp.w - 1 == Max(a, b)
  {
    var (lo, hi) := if a > b then (b, a) else (a, b);
    Span(lo, y, Wrap8(hi - lo + 1))
  }

  /** The last row of the upper part: y1 itself for a flat-bottomed triangle, else y1 - 1. */
  function Last(s: Triangle): int {
    if s.y1 == s.y2 then s.y1 else s.y1 - 1
  }

  /** `x0 + (dx * n) / d`: the crossing of an edge with a row n rows below its start. */
  function Cross(x0: int, dx: int, n: int, d: int): int
    requires d > 0
  {
    x0 + CDiv(dx * n, d)
  }

  /** Row y of the upper part: between edges 0-1 and 0-2. */
  function UpperSpan(s: Triangle, y: int): Span
    requires s.y0 < s.y1 && s.y0 < s.y2
  {
    SpanOf(Cross(s.x0, s.x1 - s.x0, y - s.y0, s.y1 - s.y0), Cross(s.x0, s.x2 - s.x0, y - s.y0, s.y2 - s.y0), y)
  }

  /** Row y of the lower part: between edges 1-2 and 0-2. */
  function LowerSpan(s: Triangle, y: int): Span
    requires s.y1 < s.y2 && s.y0 < s.y2
  {
    SpanOf(Cross(s.x1, s.x2 - s.x1, y - s.y1, s.y2 - s.y1), Cross(s.x0, s.x2 - s.x0, y - s.y0, s.y2 - s.y0), y)
  }

  /** The spans of the first loop, `for (y = y0; y <= last; y++)`: rows y0 .. last. */
  function UpperSpans(s: Triangle): (r: seq<Span>)
    requires SortedByY(s) && s.y0 < s.y2
    ensures |r| == Last(s) - s.y0 + 1
  {
    seq(Last(s) - s.y0 + 1, k requires 0 <= k < Last(s) - s.y0 + 1 => UpperSpan(s, s.y0 + k))
  }

  /** The spans of the second loop, `for (; y <= y2; y++)`: rows last + 1 .. y2. */
  function LowerSpans(s: Triangle): (r: seq<Span>)
    requires SortedByY(s) && s.y0 < s.y2
    ensures |r| == s.y2 - Last(s)
  {
    seq(s.y2 - Last(s), k requires 0 <= k < s.y2 - Last(s) => LowerSpan(s, Last(s) + 1 + k))
  }

  /** The bounds of the all-on-one-row case, as the chain of `if`/`else if` computes them. */
  function FlatBounds(x0: int, x1: int, x2: int): (r: (int, int))
    ensures r == (Min3(x0, x1, x2), Max3(x0, x1, x2))
  {
    var (a, b) := if x1 < x0 then (x1, x0) else if x1 > x0 then (x0, x1) else (x0, x0);
    if x2 < a then (x2, b) else if x2 > b then (a, x2) else (a, b)
  }

  /** The drawFastHLine calls of fillTriangle once the vertices are in y order. */
  function SortedSpans(s: Triangle): seq<Span>
    requires SortedByY(s)
  {
    if s.y0 == s.y2 then
      var (a, b) := FlatBounds(s.x0, s.x1, s.x2);
      [Span(a, s.y0, Wrap8(b - a + 1))]
    else UpperSpans(s) + LowerSpans(s)
  }

  /** fillTriangle as written, with the mismatched x swaps. */
  function FillSpansAsWritten(t: Triangle): seq<Span> {
    SortedSpans(SortAsWritten(t))
  }

  /** fillTriangle with the vertices sorted whole. */
  function FillSpans(t: Triangle): seq<Span> {
    SortedSpans(SortByY(t))
  }

  /** The first row of a fill whose top edge is not flat is the single pixel of vertex 0. */
  lemma FirstSpan(s: Triangle)
    requires SortedByY(s) && s.y0 < s.y1
    ensures SortedSpans(s)[0] == Span(s.x0, s.y0, 1)
  {
    UpperPartAt(s, 0);
    CrossAtEnd(s.x0, s.x1 - s.x0, s.y1 - s.y0);
    CrossAtEnd(s.x0, s.x2 - s.x0, s.y2 - s.y0);
  }

  /**
    * For a triangle already in y order with a pointed top, the fill as
    * written starts its first row at vertex 2's column instead of vertex
    * 0's; the corrected sort leaves the triangle as it is.
    */
  lemma FillAsWrittenFirstRow(t: Triangle)
    requires SortedByY(t) && t.y0 < t.y1
    ensures SortByY(t) == t
    ensures FillSpansAsWritten(t)[0] == Span(t.x2, t.y0, 1)
    ensures FillSpans(t)[0] == Span(t.x0, t.y0, 1)
  {
    FirstSpan(SortAsWritten(t));
    FirstSpan(t);
  }

  // ---------------------------------------------------------------------
  // Drawing the spans

  /** drawFastHLine called on each span in turn. */
  function DrawSpans(buf: Buffer, spans: seq<Span>, color: u8): Buffer
    decreases |spans|
  {
    if spans == [] then buf
    else DrawSpans(HLine(buf, spans[0].x, spans[0].y, spans[0].w, color), spans[1..], color)
  }

  /** The pixels the spans cover, span by span. */
  function SpanPixels(spans: seq<Span>): seq<Point>
    decreases |spans|
  {
    if spans == [] then [] else HLinePoints(spans[0].x, spans[0].y, spans[0].w) + SpanPixels(spans[1..])
  }

  lemma {:induction false} DrawSpansAppend(buf: Buffer, a: seq<Span>, b: seq<Span>, color: u8)
    ensures DrawSpans(buf, a + b, color) == DrawSpans(DrawSpans(buf, a, color), b, color)
    decreases |a|
  {
    if a == [] {
      assert a + b == b;
    } else {
      assert (a + b)[1..] == a[1..] + b;
      DrawSpansAppend(HLine(buf, a[0].x, a[0].y, a[0].w, color), a[1..], b, color);
    }
  }

  /** Drawing the spans from the k-th on is drawing the k-th, then those after it. */
  lemma DrawSpansPeel(buf: Buffer, spans: seq<Span>, k: int, color: u8)
    requires 0 <= k < |spans|
    ensures DrawSpans(buf, spans[k..], color) ==
            DrawSpans(HLine(buf, spans[k].x, spans[k].y, spans[k].w, color), spans[k + 1..], color)
  {
    assert spans[k..][1..] == spans[k + 1..];
  }

  /**
    * In WHITE or BLACK, drawing spans that start at or left of column
    * WIDTH is drawPixel on each of their pixels.
    */
  lemma {:induction false} DrawSpansAsPlots(buf: Buffer, spans: seq<Span>, color: u8)
    requires color == WHITE || color == BLACK
    requires forall sp :: sp in spans ==> sp.x <= WIDTH
    ensures DrawSpans(buf, spans, color) == PlotAll(buf, SpanPixels(spans), color)
    decreases |spans|
  {
    if spans != [] {
      var sp := spans[0];
      var next := HLine(buf, sp.x, sp.y, sp.w, color);
      HLineAsPlots(buf, sp.x, sp.y, sp.w, color);
      DrawSpansAsPlots(next, spans[1..], color);
      PlotAllAppend(buf, HLinePoints(sp.x, sp.y, sp.w), SpanPixels(spans[1..]), color);
    }
  }

  /** An on-screen pixel inside one of the spans is among their pixels. */
  lemma {:induction false} SpanPixelsCover(spans: seq<Span>, k: int, q: Point)
    requires 0 <= k < |spans| && OnScreen(q)
    requires q.y == spans[k].y && spans[k].x <= q.x < spans[k].x + spans[k].w
    ensures q in SpanPixels(spans)
    decreases |spans|
  {
    if k > 0 {
      SpanPixelsCover(spans[1..], k - 1, q);
    } else {
      HLineHas(spans[0].x, spans[0].y, spans[0].w, q);
    }
  }

  // ---------------------------------------------------------------------
  // One span per row

  /** Row y0 + k up to `last` comes from the first loop. */
  lemma UpperPartAt(s: Triangle, k: int)
    requires SortedByY(s) && s.y0 < s.y2 && 0 <= k && s.y0 + k <= Last(s)
    ensures s.y0 < s.y1 && k < |SortedSpans(s)| && SortedSpans(s)[k] == UpperSpan(s, s.y0 + k)
  {
    var U, L := UpperSpans(s), LowerSpans(s);
    assert (U + L)[k] == U[k];
  }

  /** Row y0 + k after `last` comes from the second loop. */
  lemma LowerPartAt(s: Triangle, k: int)
    requires SortedByY(s) && s.y0 < s.y2 && Last(s) < s.y0 + k <= s.y2
    ensures s.y1 < s.y2 && k < |SortedSpans(s)| && SortedSpans(s)[k] == LowerSpan(s, s.y0 + k)
  {
    var U, L := UpperSpans(s), LowerSpans(s);
    var j := k - |U|;
    assert Last(s) + 1 + j == s.y0 + k;
    assert (U + L)[k] == L[j];
  }

  /**
    * The crossings the first loop works out from its running sums
    * `sa == dx01 * k` and `sb == dx02 * k` are row y0 + k's span.
    */
  lemma UpperRow(s: Triangle, y: int, k: int, dx01: int, dy01: int, dx02: int, dy02: int, sa: int, sb: int, a: int, b: int)
    requires SortedByY(s) && s.y0 < s.y2 && s.y0 <= y <= Last(s) && k == y - s.y0
    requires dx01 == s.x1 - s.x0 && dy01 == s.y1 - s.y0 && dx02 == s.x2 - s.x0 && dy02 == s.y2 - s.y0
    requires sa == dx01 * k && sb == dx02 * k
    requires a == s.x0 + CDiv(sa, dy01) && b == s.x0 + CDiv(sb, dy02)
    ensures 0 <= k < |SortedSpans(s)| && SortedSpans(s)[k] == SpanOf(a, b, y)
  {
    assert a == Cross(s.x0, dx01, k, dy01) && b == Cross(s.x0, dx02, k, dy02);
    UpperPartAt(s, k);
  }

  /**
    * The crossings the second loop works out from `sa == dx12 * j` and
    * `sb == dx02 * k`, with j rows below vertex 1 and k below vertex 0,
    * are row y0 + k's span.
    */
  lemma LowerRow(s: Triangle, y: int, j: int, k: int, dx12: int, dy12: int, dx02: int, dy02: int, sa: int, sb: int, a: int, b: int)
    requires SortedByY(s) && s.y0 < s.y2 && Last(s) < y <= s.y2 && j == y - s.y1 && k == y - s.y0
    requires dx12 == s.x2 - s.x1 && dy12 == s.y2 - s.y1 && dx02 == s.x2 - s.x0 && dy02 == s.y2 - s.y0
    requires sa == dx12 * j && sb == dx02 * k
    requires a == s.x1 + CDiv(sa, dy12) && b == s.x0 + CDiv(sb, dy02)
    ensures 0 <= k < |SortedSpans(s)| && SortedSpans(s)[k] == SpanOf(a, b, y)
  {
    assert a == Cross(s.x1, dx12, j, dy12) && b == Cross(s.x0, dx02, k, dy02);
    LowerPartAt(s, k);
  }

  /** The k-th span of a fill whose rows differ is row y0 + k's. */
  lemma SortedSpanRow(s: Triangle, k: int)
    requires SortedByY(s) && s.y0 < s.y2 && 0 <= k <= s.y2 - s.y0
    ensures |SortedSpans(s)| == s.y2 - s.y0 + 1 && SortedSpans(s)[k].y == s.y0 + k
  {
    if s.y0 + k <= Last(s) {
      UpperPartAt(s, k);
    } else {
      LowerPartAt(s, k);
    }
  }

  /** Once sorted, the fill draws one span per row from y0 to y2. */
  lemma SortedSpansRows(s: Triangle)
    requires SortedByY(s)
    ensures |SortedSpans(s)| == s.y2 - s.y0 + 1
    ensures forall k :: 0 <= k < |SortedSpans(s)| ==> SortedSpans(s)[k].y == s.y0 + k
  {
    if s.y0 < s.y2 {
      forall k | 0 <= k < |SortedSpans(s)|
        ensures SortedSpans(s)[k].y == s.y0 + k
      {
        SortedSpanRow(s, k);
      }
    }
  }

  /**
    * fillTriangle draws exactly one span per row from the highest vertex to
    * the lowest, top to bottom.
    */
  lemma FillSpansRows(t: Triangle)
    ensures |FillSpans(t)| == Max3(t.y0, t.y1, t.y2) - Min3(t.y0, t.y1, t.y2) + 1
    ensures forall k :: 0 <= k < |FillSpans(t)| ==> FillSpans(t)[k].y == Min3(t.y0, t.y1, t.y2) + k
  {
    SortByYRange(t);
    SortedSpansRows(SortByY(t));
  }

  // ---------------------------------------------------------------------
  // Spans stay within the columns of the triangle

  /** A crossing on an edge running right lies between its end columns. */
  lemma CrossBetweenRight(dx: int, n: int, d: int)
    requires d > 0 && 0 <= n <= d && dx >= 0
    ensures 0 <= CDiv(dx * n, d) <= dx
  {
    var a := dx * n;
    var q := CDiv(a, d);
    MulNonneg(dx, n);
    MulNonneg(dx, d - n);
    assert dx * (d - n) == dx * d - a;
    assert (q + 1) * d == q * d + d;
    MulSign(q + 1, d);
    assert (q - dx) * d == q * d - dx * d;
    MulSign(q - dx, d);
  }

  /** A crossing on an edge running left lies between its end columns. */
  lemma CrossBetweenLeft(dx: int, n: int, d: int)
    requires d > 0 && 0 <= n <= d && dx < 0
    ensures dx <= CDiv(dx * n, d) <= 0
  {
    var a := dx * n;
    var q := CDiv(a, d);
    MulNonneg(-dx, n);
    MulNonneg(-dx, d - n);
    assert (-dx) * (d - n) == a - dx * d;
    assert (-dx) * n == -a;
    if a < 0 {
      assert (q - 1) * d == q * d - d;
      MulSign(q - 1, d);
      assert (q - dx) * d == q * d - dx * d;
      MulSign(q - dx, d);
    }
  }

  /** The truncated crossing of an edge lies between the edge's end columns. */
  lemma CrossBetween(x0: int, dx: int, n: int, d: int)
    requires d > 0 && 0 <= n <= d
    ensures Min(x0, x0 + dx) <= Cross(x0, dx, n, d) <= Max(x0, x0 + dx)
  {
    if dx >= 0 {
      CrossBetweenRight(dx, n, d);
    } else {
      CrossBetweenLeft(dx, n, d);
    }
  }

  /** At the edge's first row the crossing is the start column, at its last row the end column. */
  lemma CrossAtEnd(x0: int, dx: int, d: int)
    requires d > 0
    ensures Cross(x0, dx, d, d) == x0 + dx
    ensures Cross(x0, dx, 0, d) == x0
  {
    var q := CDiv(dx * d, d);
    assert (dx - q) * d == dx * d - q * d;
    ZeroFactor(dx - q, d);
    assert dx * 0 == 0;
  }

  /** A span whose crossings lie in [lo, hi], with hi - lo < 255, covers exactly [min, max] of them. */
  lemma SpanWithin(a: int, b: int, y: int, lo: int, hi: int)
    requires lo <= a <= hi && lo <= b <= hi && hi - lo < 0xFF
    ensures lo <= SpanOf(a, b, y).x && SpanOf(a, b, y).x + SpanOf(a, b, y).w - 1 <= hi
    ensures SpanOf(a, b, y).x + SpanOf(a, b, y).w - 1 == Max(a, b)
  {
  }

  lemma UpperSpanWithin(s: Triangle, y: int)
    requires SortedByY(s) && s.y0 < s.y1 && s.y0 <= y <= s.y1
    requires Max3(s.x0, s.x1, s.x2) - Min3(s.x0, s.x1, s.x2) < 0xFF
    ensures Min3(s.x0, s.x1, s.x2) <= UpperSpan(s, y).x
    ensures UpperSpan(s, y).x + UpperSpan(s, y).w - 1 <= Max3(s.x0, s.x1, s.x2)
  {
    CrossBetween(s.x0, s.x1 - s.x0, y - s.y0, s.y1 - s.y0);
    CrossBetween(s.x0, s.x2 - s.x0, y - s.y0, s.y2 - s.y0);
    SpanWithin(Cross(s.x0, s.x1 - s.x0, y - s.y0, s.y1 - s.y0), Cross(s.x0, s.x2 - s.x0, y - s.y0, s.y2 - s.y0), y,
      Min3(s.x0, s.x1, s.x2), Max3(s.x0, s.x1, s.x2));
  }

  lemma LowerSpanWithin(s: Triangle, y: int)
    requires SortedByY(s) && s.y1 < s.y2 && s.y1 <= y <= s.y2
    requires Max3(s.x0, s.x1, s.x2) - Min3(s.x0, s.x1, s.x2) < 0xFF
    ensures Min3(s.x0, s.x1, s.x2) <= LowerSpan(s, y).x
    ensures LowerSpan(s, y).x + LowerSpan(s, y).w - 1 <= Max3(s.x0, s.x1, s.x2)
  {
    CrossBetween(s.x1, s.x2 - s.x1, y - s.y1, s.y2 - s.y1);
    CrossBetween(s.x0, s.x2 - s.x0, y - s.y0, s.y2 - s.y0);
    SpanWithin(Cross(s.x1, s.x2 - s.x1, y - s.y1, s.y2 - s.y1), Cross(s.x0, s.x2 - s.x0, y - s.y0, s.y2 - s.y0), y,
      Min3(s.x0, s.x1, s.x2), Max3(s.x0, s.x1, s.x2));
  }

  /** Reordering the vertices keeps the column range. */
  lemma SameColumns(s: Triangle, t: Triangle)
    requires Vertices(s) == Vertices(t)
    ensures Min3(s.x0, s.x1, s.x2) == Min3(t.x0, t.x1, t.x2)
    ensures Max3(s.x0, s.x1, s.x2) == Max3(t.x0, t.x1, t.x2)
  {
    ColumnsAmong(s, t);
    ColumnsAmong(t, s);
  }

  /** The columns of s lie within those of t when s's vertices are among t's. */
  lemma ColumnsAmong(s: Triangle, t: Triangle)
    requires Vertices(s) == Vertices(t)
    ensures Min3(t.x0, t.x1, t.x2) <= Min3(s.x0, s.x1, s.x2)
    ensures Max3(s.x0, s.x1, s.x2) <= Max3(t.x0, t.x1, t.x2)
  {
    var m := multiset{Point(t.x0, t.y0), Point(t.x1, t.y1), Point(t.x2, t.y2)};
    assert Point(s.x0, s.y0) in m && Point(s.x1, s.y1) in m && Point(s.x2, s.y2) in m;
  }

  /** The column range of the triangle's vertices. */
  ghost predicate WithinColumns(sp: Span, t: Triangle) {
    Min3(t.x0, t.x1, t.x2) <= sp.x && sp.x + sp.w - 1 <= Max3(t.x0, t.x1, t.x2)
  }

  lemma UpperWithin(s: Triangle)
    requires SortedByY(s) && s.y0 < s.y2
    requires Max3(s.x0, s.x1, s.x2) - Min3(s.x0, s.x1, s.x2) < 0xFF
    ensures forall sp :: sp in UpperSpans(s) ==> WithinColumns(sp, s)
  {
    var U := UpperSpans(s);
    forall k | 0 <= k < |U|
      ensures WithinColumns(U[k], s)
    {
      UpperSpanWithin(s, s.y0 + k);
    }
  }

  lemma LowerWithin(s: Triangle)
    requires SortedByY(s) && s.y0 < s.y2
    requires Max3(s.x0, s.x1, s.x2) - Min3(s.x0, s.x1, s.x2) < 0xFF
    ensures forall sp :: sp in LowerSpans(s) ==> WithinColumns(sp, s)
  {
    var L := LowerSpans(s);
    forall k | 0 <= k < |L|
      ensures WithinColumns(L[k], s)
    {
      LowerSpanWithin(s, Last(s) + 1 + k);
    }
  }

  lemma SortedSpansWithin(s: Triangle)
    requires SortedByY(s) && s.y0 < s.y2
    requires Max3(s.x0, s.x1, s.x2) - Min3(s.x0, s.x1, s.x2) < 0xFF
    ensures forall sp :: sp in SortedSpans(s) ==> WithinColumns(sp, s)
  {
    UpperWithin(s);
    LowerWithin(s);
  }

  lemma SameWithin(sp: Span, s: Triangle, t: Triangle)
    requires Vertices(s) == Vertices(t) && WithinColumns(sp, s)
    ensures WithinColumns(sp, t)
  {
    SameColumns(s, t);
  }

  /**
    * When the triangle is less than 255 columns wide (so that no width wraps
    * in its `uint8_t`), every span of fillTriangle lies within the columns
    * of the triangle's vertices.
    */
  lemma FillSpansWithin(t: Triangle)
    requires Max3(t.x0, t.x1, t.x2) - Min3(t.x0, t.x1, t.x2) < 0xFF
    ensures forall sp :: sp in FillSpans(t) ==> WithinColumns(sp, t)
  {
    var s := SortByY(t);
    SameColumns(s, t);
    if s.y0 < s.y2 {
      SortedSpansWithin(s);
      forall sp | sp in FillSpans(t)
        ensures WithinColumns(sp, t)
      {
        SameWithin(sp, s, t);
      }
    }
  }

  // ---------------------------------------------------------------------
  // Spans stay within one pixel of the triangle

  /**
    * Column v against the point where the edge (xa, ya)-(xb, yb) crosses
    * row y, scaled by the edge's height yb - ya: negative when v lies left
    * of the crossing, positive when right of it, zero on it.
    */
  function Against(xa: int, ya: int, xb: int, yb: int, y: int, v: int): int {
    (v - xa) * (yb - ya) - (xb - xa) * (y - ya)
  }

  /** Moving the column by v' - v moves Against by (v' - v) times the edge's height. */
  lemma AgainstShift(xa: int, ya: int, xb: int, yb: int, y: int, v: int, v': int)
    ensures Against(xa, ya, xb, yb, y, v') == Against(xa, ya, xb, yb, y, v) + (v' - v) * (yb - ya)
  {
    assert (v' - xa) * (yb - ya) == (v - xa) * (yb - ya) + (v' - v) * (yb - ya);
  }

  /** The truncated crossing the fill works out lies strictly within one pixel of the true one. */
  lemma CrossNear(xa: int, ya: int, xb: int, yb: int, y: int)
    requires ya < yb
    ensures -(yb - ya) < Against(xa, ya, xb, yb, y, Cross(xa, xb - xa, y - ya, yb - ya)) < yb - ya
  {
    var q := CDiv((xb - xa) * (y - ya), yb - ya);
    assert Cross(xa, xb - xa, y - ya, yb - ya) - xa == q;
  }

  /**
    * Column c, between crossings a of edge A and b of edge B that each lie
    * within one pixel of the true crossings, is right of the leftmost true
    * crossing less one and left of the rightmost plus one.
    */
  lemma BetweenNear(xa: int, ya: int, xb: int, yb: int, xc: int, yc: int, xd: int, yd: int, y: int, a: int, b: int, c: int)
    requires ya < yb && yc < yd
    requires -(yb - ya) < Against(xa, ya, xb, yb, y, a) < yb - ya
    requires -(yd - yc) < Against(xc, yc, xd, yd, y, b) < yd - yc
    requires Min(a, b) <= c <= Max(a, b)
    ensures Against(xa, ya, xb, yb, y, c + 1) > 0 || Against(xc, yc, xd, yd, y, c + 1) > 0
    ensures Against(xa, ya, xb, yb, y, c - 1) < 0 || Against(xc, yc, xd, yd, y, c - 1) < 0
  {
    AgainstShift(xa, ya, xb, yb, y, a, c + 1);
    AgainstShift(xa, ya, xb, yb, y, a, c - 1);
    AgainstShift(xc, yc, xd, yd, y, b, c + 1);
    AgainstShift(xc, yc, xd, yd, y, b, c - 1);
    if a <= c {
      MulMono(1, c + 1 - a, yb - ya);
    } else {
      MulMono(1, c + 1 - b, yd - yc);
    }
    if c <= a {
      MulMono(c - 1 - a, -1, yb - ya);
    } else {
      MulMono(c - 1 - b, -1, yd - yc);
    }
  }

  /** The edge that bounds row y of a sorted triangle opposite edge 0-2: edge 0-1 above vertex 1, edge 1-2 below it. */
  function SideEdge(s: Triangle, y: int): (e: (int, int, int, int))
    requires SortedByY(s) && s.y0 < s.y2
    ensures e.1 < e.3
  {
    if s.y0 < s.y1 && (y < s.y1 || s.y1 == s.y2) then (s.x0, s.y0, s.x1, s.y1) else (s.x1, s.y1, s.x2, s.y2)
  }

  /**
    * Column c on row y lies within one pixel of the sorted triangle s: for
    * a triangle on one row, between its extreme columns; otherwise right of
    * the leftmost of the two edge crossings less one and left of the
    * rightmost plus one.
    */
  ghost predicate NearHull(s: Triangle, y: int, c: int)
    requires SortedByY(s)
  {
    if s.y0 == s.y2 then Min3(s.x0, s.x1, s.x2) <= c <= Max3(s.x0, s.x1, s.x2)
    else
      var (xa, ya, xb, yb) := SideEdge(s, y);
      (Against(s.x0, s.y0, s.x2, s.y2, y, c + 1) > 0 || Against(xa, ya, xb, yb, y, c + 1) > 0) &&
      (Against(s.x0, s.y0, s.x2, s.y2, y, c - 1) < 0 || Against(xa, ya, xb, yb, y, c - 1) < 0)
  }

  /** The pixels of a span lie between its two crossings, whatever its `uint8_t` width. */
  lemma SpanPixelsBetween(a: int, b: int, y: int, c: int)
    requires SpanOf(a, b, y).x <= c < SpanOf(a, b, y).x + SpanOf(a, b, y).w
    ensures Min(a, b) <= c <= Max(a, b)
  {
    var hi, lo := Max(a, b), Min(a, b);
    Wrap8Congruent(hi - lo + 1);
    assert Wrap8(hi - lo + 1) <= hi - lo + 1;
  }

  /** Every pixel of every span of a sorted triangle's fill lies within one pixel of the triangle. */
  lemma SortedSpansNearHull(s: Triangle, k: int, c: int)
    requires SortedByY(s) && 0 <= k < |SortedSpans(s)|
    requires SortedSpans(s)[k].x <= c < SortedSpans(s)[k].x + SortedSpans(s)[k].w
    ensures NearHull(s, SortedSpans(s)[k].y, c)
  {
    if s.y0 == s.y2 {
      var (a, b) := FlatBounds(s.x0, s.x1, s.x2);
      SpanPixelsBetween(a, b, s.y0, c);
    } else {
      SortedSpansRows(s);
      if s.y0 + k <= Last(s) {
        UpperNearHull(s, k, c);
      } else {
        LowerNearHull(s, k, c);
      }
    }
  }

  /** SortedSpansNearHull for a row of the first loop. */
  lemma UpperNearHull(s: Triangle, k: int, c: int)
    requires SortedByY(s) && s.y0 < s.y2 && 0 <= k && s.y0 + k <= Last(s)
    requires k < |SortedSpans(s)| && SortedSpans(s)[k].x <= c < SortedSpans(s)[k].x + SortedSpans(s)[k].w
    ensures SortedSpans(s)[k].y == s.y0 + k && NearHull(s, s.y0 + k, c)
  {
    var y := s.y0 + k;
    UpperPartAt(s, k);
    var a, b := Cross(s.x0, s.x1 - s.x0, y - s.y0, s.y1 - s.y0), Cross(s.x0, s.x2 - s.x0, y - s.y0, s.y2 - s.y0);
    SpanPixelsBetween(a, b, y, c);
    CrossNear(s.x0, s.y0, s.x1, s.y1, y);
    CrossNear(s.x0, s.y0, s.x2, s.y2, y);
    BetweenNear(s.x0, s.y0, s.x1, s.y1, s.x0, s.y0, s.x2, s.y2, y, a, b, c);
  }

  /** SortedSpansNearHull for a row of the second loop. */
  lemma LowerNearHull(s: Triangle, k: int, c: int)
    requires SortedByY(s) && s.y0 < s.y2 && Last(s) < s.y0 + k <= s.y2
    requires k < |SortedSpans(s)| && SortedSpans(s)[k].x <= c < SortedSpans(s)[k].x + SortedSpans(s)[k].w
    ensures SortedSpans(s)[k].y == s.y0 + k && NearHull(s, s.y0 + k, c)
  {
    var y := s.y0 + k;
    LowerPartAt(s, k);
    var a, b := Cross(s.x1, s.x2 - s.x1, y - s.y1, s.y2 - s.y1), Cross(s.x0, s.x2 - s.x0, y - s.y0, s.y2 - s.y0);
    SpanPixelsBetween(a, b, y, c);
    CrossNear(s.x1, s.y1, s.x2, s.y2, y);
    CrossNear(s.x0, s.y0, s.x2, s.y2, y);
    BetweenNear(s.x1, s.y1, s.x2, s.y2, s.x0, s.y0, s.x2, s.y2, y, a, b, c);
  }

  /**
    * fillTriangle never plots more than one pixel outside the triangle:
    * with the vertices sorted whole, outside the given triangle; as
    * written, outside the triangle its x swaps make.
    */
  lemma FillNearHull(t: Triangle, k: int, c: int)
    ensures 0 <= k < |FillSpans(t)| && FillSpans(t)[k].x <= c < FillSpans(t)[k].x + FillSpans(t)[k].w ==>
              NearHull(SortByY(t), FillSpans(t)[k].y, c)
    ensures 0 <= k < |FillSpansAsWritten(t)| && FillSpansAsWritten(t)[k].x <= c < FillSpansAsWritten(t)[k].x + FillSpansAsWritten(t)[k].w ==>
              NearHull(SortAsWritten(t), FillSpansAsWritten(t)[k].y, c)
  {
    if 0 <= k < |FillSpans(t)| && FillSpans(t)[k].x <= c < FillSpans(t)[k].x + FillSpans(t)[k].w {
      SortedSpansNearHull(SortByY(t), k, c);
    }
    if 0 <= k < |FillSpansAsWritten(t)| && FillSpansAsWritten(t)[k].x <= c < FillSpansAsWritten(t)[k].x + FillSpansAsWritten(t)[k].w {
      SortedSpansNearHull(SortAsWritten(t), k, c);
    }
  }

  /**
    * The one pixel is needed: for the triangle (0, 0), (3, 2), (20, 10)
    * row 1 is drawn from column 1, which lies left of both edges'
    * crossings with that row (1.5 and 2).
    */
  lemma HullOvershoot()
    ensures FillSpans(Triangle(0, 0, 3, 2, 20, 10))[1] == Span(1, 1, 2)
    ensures Against(0, 0, 3, 2, 1, 1) < 0 && Against(0, 0, 20, 10, 1, 1) < 0
  {
    var t := Triangle(0, 0, 3, 2, 20, 10);
    assert SortByY(t) == t;
    UpperPartAt(t, 1);
  }

  /** The sort as written still puts the least y first and the greatest last. */
  lemma SortAsWrittenRange(t: Triangle)
    ensures SortAsWritten(t).y0 == Min3(t.y0, t.y1, t.y2) && SortAsWritten(t).y2 == Max3(t.y0, t.y1, t.y2)
  {
    var s := SortAsWritten(t);
    var m := multiset{s.y0, s.y1, s.y2};
    assert t.y0 in m && t.y1 in m && t.y2 in m;
    assert s.y0 in multiset{t.y0, t.y1, t.y2} && s.y2 in multiset{t.y0, t.y1, t.y2};
  }

  /**
    * fillTriangle as written draws one span per row from the highest
    * vertex to the lowest, like the corrected fill.
    */
  lemma FillAsWrittenRows(t: Triangle)
    ensures |FillSpansAsWritten(t)| == Max3(t.y0, t.y1, t.y2) - Min3(t.y0, t.y1, t.y2) + 1
    ensures forall k :: 0 <= k < |FillSpansAsWritten(t)| ==> FillSpansAsWritten(t)[k].y == Min3(t.y0, t.y1, t.y2) + k
  {
    SortAsWrittenRange(t);
    SortedSpansRows(SortAsWritten(t));
  }

  /**
    * The x swaps as written only permute the columns, so when the triangle
    * is less than 255 columns wide every span of the fill as written also
    * lies within the columns of the given vertices.
    */
  lemma FillAsWrittenWithin(t: Triangle)
    requires Max3(t.x0, t.x1, t.x2) - Min3(t.x0, t.x1, t.x2) < 0xFF
    ensures forall sp :: sp in FillSpansAsWritten(t) ==> WithinColumns(sp, t)
  {
    var s := SortAsWritten(t);
    assert Min3(s.x0, s.x1, s.x2) == Min3(t.x0, t.x1, t.x2) && Max3(s.x0, s.x1, s.x2) == Max3(t.x0, t.x1, t.x2);
    if s.y0 < s.y2 {
      SortedSpansWithin(s);
    }
  }

  // ---------------------------------------------------------------------
  // The vertices are filled

  /** Some span of the list is on row q.y and covers column q.x. */
  ghost predicate Covered(spans: seq<Span>, q: Point) {
    exists k :: 0 <= k < |spans| && spans[k].y == q.y && spans[k].x <= q.x < spans[k].x + spans[k].w
  }

  lemma CoveredAt(spans: seq<Span>, k: int, q: Point)
    requires 0 <= k < |spans| && spans[k].y == q.y && spans[k].x <= q.x < spans[k].x + spans[k].w
    ensures Covered(spans, q)
  {
  }

  /** A span covers both of its crossings when they are less than 255 columns apart. */
  lemma SpanCovers(a: int, b: int, y: int, lo: int, hi: int, v: int)
    requires lo <= a <= hi && lo <= b <= hi && hi - lo < 0xFF && (v == a || v == b)
    ensures SpanOf(a, b, y).x <= v < SpanOf(a, b, y).x + SpanOf(a, b, y).w
  {
  }

  /** Row y of the upper part covers both of its crossings. */
  lemma UpperSpanCovers(s: Triangle, y: int, v: int)
    requires SortedByY(s) && s.y0 < s.y1 && s.y0 <= y <= s.y1
    requires Max3(s.x0, s.x1, s.x2) - Min3(s.x0, s.x1, s.x2) < 0xFF
    requires v == Cross(s.x0, s.x1 - s.x0, y - s.y0, s.y1 - s.y0) || v == Cross(s.x0, s.x2 - s.x0, y - s.y0, s.y2 - s.y0)
    ensures UpperSpan(s, y).x <= v < UpperSpan(s, y).x + UpperSpan(s, y).w
  {
    CrossBetween(s.x0, s.x1 - s.x0, y - s.y0, s.y1 - s.y0);
    CrossBetween(s.x0, s.x2 - s.x0, y - s.y0, s.y2 - s.y0);
    SpanCovers(Cross(s.x0, s.x1 - s.x0, y - s.y0, s.y1 - s.y0), Cross(s.x0, s.x2 - s.x0, y - s.y0, s.y2 - s.y0), y,
      Min3(s.x0, s.x1, s.x2), Max3(s.x0, s.x1, s.x2), v);
  }

  /** Row y of the lower part covers both of its crossings. */
  lemma LowerSpanCovers(s: Triangle, y: int, v: int)
    requires SortedByY(s) && s.y1 < s.y2 && s.y1 <= y <= s.y2
    requires Max3(s.x0, s.x1, s.x2) - Min3(s.x0, s.x1, s.x2) < 0xFF
    requires v == Cross(s.x1, s.x2 - s.x1, y - s.y1, s.y2 - s.y1) || v == Cross(s.x0, s.x2 - s.x0, y - s.y0, s.y2 - s.y0)
    ensures LowerSpan(s, y).x <= v < LowerSpan(s, y).x + LowerSpan(s, y).w
  {
    CrossBetween(s.x1, s.x2 - s.x1, y - s.y1, s.y2 - s.y1);
    CrossBetween(s.x0, s.x2 - s.x0, y - s.y0, s.y2 - s.y0);
    SpanCovers(Cross(s.x1, s.x2 - s.x1, y - s.y1, s.y2 - s.y1), Cross(s.x0, s.x2 - s.x0, y - s.y0, s.y2 - s.y0), y,
      Min3(s.x0, s.x1, s.x2), Max3(s.x0, s.x1, s.x2), v);
  }

  /** Vertex 0 lies on the first row of the sorted fill. */
  lemma TopVertexCovered(s: Triangle)
    requires SortedByY(s) && s.y0 < s.y2
    requires Max3(s.x0, s.x1, s.x2) - Min3(s.x0, s.x1, s.x2) < 0xFF
    ensures Covered(SortedSpans(s), Point(s.x0, s.y0))
  {
    if s.y0 < s.y1 {
      UpperPartAt(s, 0);
      CrossAtEnd(s.x0, s.x1 - s.x0, s.y1 - s.y0);
      UpperSpanCovers(s, s.y0, s.x0);
    } else {
      LowerPartAt(s, 0);
      CrossAtEnd(s.x0, s.x2 - s.x0, s.y2 - s.y0);
      LowerSpanCovers(s, s.y1, s.x0);
    }
    CoveredAt(SortedSpans(s), 0, Point(s.x0, s.y0));
  }

  /** Vertex 1 lies on row y1 of the sorted fill. */
  lemma MiddleVertexCovered(s: Triangle)
    requires SortedByY(s) && s.y0 < s.y2
    requires Max3(s.x0, s.x1, s.x2) - Min3(s.x0, s.x1, s.x2) < 0xFF
    ensures Covered(SortedSpans(s), Point(s.x1, s.y1))
  {
    var k := s.y1 - s.y0;
    if s.y1 == s.y2 {
      UpperPartAt(s, k);
      CrossAtEnd(s.x0, s.x1 - s.x0, s.y1 - s.y0);
      UpperSpanCovers(s, s.y1, s.x1);
    } else {
      LowerPartAt(s, k);
      CrossAtEnd(s.x1, s.x2 - s.x1, s.y2 - s.y1);
      LowerSpanCovers(s, s.y1, s.x1);
    }
    CoveredAt(SortedSpans(s), k, Point(s.x1, s.y1));
  }

  /** Vertex 2 lies on the last row of the sorted fill. */
  lemma BottomVertexCovered(s: Triangle)
    requires SortedByY(s) && s.y0 < s.y2
    requires Max3(s.x0, s.x1, s.x2) - Min3(s.x0, s.x1, s.x2) < 0xFF
    ensures Covered(SortedSpans(s), Point(s.x2, s.y2))
  {
    if s.y1 == s.y2 {
      BottomVertexFlat(s);
    } else {
      BottomVertexPointed(s);
    }
  }

  lemma BottomVertexFlat(s: Triangle)
    requires SortedByY(s) && s.y0 < s.y2 && s.y1 == s.y2
    requires Max3(s.x0, s.x1, s.x2) - Min3(s.x0, s.x1, s.x2) < 0xFF
    ensures Covered(SortedSpans(s), Point(s.x2, s.y2))
  {
    var k := s.y2 - s.y0;
    UpperPartAt(s, k);
    CrossAtEnd(s.x0, s.x2 - s.x0, s.y2 - s.y0);
    UpperSpanCovers(s, s.y2, s.x2);
    CoveredAt(SortedSpans(s), k, Point(s.x2, s.y2));
  }

  lemma BottomVertexPointed(s: Triangle)
    requires SortedByY(s) && s.y1 < s.y2
    requires Max3(s.x0, s.x1, s.x2) - Min3(s.x0, s.x1, s.x2) < 0xFF
    ensures Covered(SortedSpans(s), Point(s.x2, s.y2))
  {
    var k := s.y2 - s.y0;
    LowerPartAt(s, k);
    CrossAtEnd(s.x1, s.x2 - s.x1, s.y2 - s.y1);
    LowerSpanCovers(s, s.y2, s.x2);
    CoveredAt(SortedSpans(s), k, Point(s.x2, s.y2));
  }

  /**
    * When the triangle is less than 255 columns wide, each of its three
    * vertices lies on a span of fillTriangle.
    */
  lemma FillCoversVertices(t: Triangle)
    requires Max3(t.x0, t.x1, t.x2) - Min3(t.x0, t.x1, t.x2) < 0xFF
    ensures forall v :: v in Vertices(t) ==> Covered(FillSpans(t), v)
  {
    var s := SortByY(t);
    SameColumns(s, t);
    var spans := FillSpans(t);
    if s.y0 == s.y2 {
      forall v | v in Vertices(t)
        ensures Covered(spans, v)
      {
        assert v in Vertices(s);
        FlatCovered(s, v);
      }
    } else {
      TopVertexCovered(s);
      MiddleVertexCovered(s);
      BottomVertexCovered(s);
      forall v | v in Vertices(t)
        ensures Covered(spans, v)
      {
        assert v in Vertices(s);
      }
    }
  }

  /**
    * fillTriangle as written covers the vertices of the triangle it draws,
    * the one its x swaps make, when that is less than 255 columns wide.
    */
  lemma FillAsWrittenCoversItsVertices(t: Triangle)
    requires Max3(t.x0, t.x1, t.x2) - Min3(t.x0, t.x1, t.x2) < 0xFF
    ensures forall v :: v in Vertices(SortAsWritten(t)) ==> Covered(FillSpansAsWritten(t), v)
  {
    var s := SortAsWritten(t);
    assert SortByY(s) == s;
    assert Min3(s.x0, s.x1, s.x2) == Min3(t.x0, t.x1, t.x2) && Max3(s.x0, s.x1, s.x2) == Max3(t.x0, t.x1, t.x2);
    FillCoversVertices(s);
  }

  /** A triangle on one row is a single span, which covers its vertices. */
  lemma FlatCovered(s: Triangle, v: Point)
    requires SortedByY(s) && s.y0 == s.y2 && v in Vertices(s)
    requires Max3(s.x0, s.x1, s.x2) - Min3(s.x0, s.x1, s.x2) < 0xFF
    ensures Covered(SortedSpans(s), v)
  {
    CoveredAt(SortedSpans(s), 0, v);
  }

  /** Drawing spans in WHITE or BLACK never takes the colour away from a pixel that has it. */
  lemma {:induction false} DrawSpansKeepColour(buf: Buffer, spans: seq<Span>, color: u8, q: Point)
    requires (color == WHITE || color == BLACK) && OnScreen(q) && Lit(buf, q) == (color != 0)
    ensures Lit(DrawSpans(buf, spans, color), q) == (color != 0)
    decreases |spans|
  {
    if spans != [] {
      HLineKeepsColour(buf, spans[0].x, spans[0].y, spans[0].w, color, q);
      DrawSpansKeepColour(HLine(buf, spans[0].x, spans[0].y, spans[0].w, color), spans[1..], color, q);
    }
  }

  /**
    * Drawing spans in WHITE or BLACK colours every on-screen pixel one of
    * them covers, whatever the other spans do.
    */
  lemma DrawnWhereCovered(buf: Buffer, spans: seq<Span>, color: u8, v: Point)
    requires color == WHITE || color == BLACK
    requires Covered(spans, v) && OnScreen(v)
    ensures Lit(DrawSpans(buf, spans, color), v) == (color != 0)
  {
    var k :| 0 <= k < |spans| && spans[k].y == v.y && spans[k].x <= v.x < spans[k].x + spans[k].w;
    assert spans[..k] + spans[k..] == spans;
    DrawSpansAppend(buf, spans[..k], spans[k..], color);
    var mid := DrawSpans(buf, spans[..k], color);
    DrawSpansPeel(mid, spans, k, color);
    var sp := spans[k];
    HLinePixel(mid, sp.x, sp.y, sp.w, color, v);
    HLineHas(sp.x, sp.y, sp.w, v);
    DrawSpansKeepColour(HLine(mid, sp.x, sp.y, sp.w, color), spans[k + 1..], color, v);
  }

  /**
    * fillTriangle in WHITE or BLACK colours every on-screen vertex of a
    * triangle less than 255 columns wide.
    */
  lemma FillColoursVertices(buf: Buffer, t: Triangle, color: u8, v: Point)
    requires color == WHITE || color == BLACK
    requires Max3(t.x0, t.x1, t.x2) - Min3(t.x0, t.x1, t.x2) < 0xFF
    requires v in Vertices(t) && OnScreen(v)
    ensures Lit(DrawSpans(buf, FillSpans(t), color), v) == (color != 0)
  {
    FillCoversVertices(t);
    DrawnWhereCovered(buf, FillSpans(t), color, v);
  }

  /**
    * fillTriangle as written, in WHITE or BLACK, colours every on-screen
    * vertex of the triangle its x swaps make.
    */
  lemma FillAsWrittenColoursItsVertices(buf: Buffer, t: Triangle, color: u8, v: Point)
    requires color == WHITE || color == BLACK
    requires Max3(t.x0, t.x1, t.x2) - Min3(t.x0, t.x1, t.x2) < 0xFF
    requires v in Vertices(SortAsWritten(t)) && OnScreen(v)
    ensures Lit(DrawSpans(buf, FillSpansAsWritten(t), color), v) == (color != 0)
  {
    FillAsWrittenCoversItsVertices(t);
    DrawnWhereCovered(buf, FillSpansAsWritten(t), color, v);
  }

  /**
    * A triangle 256 columns wide, (0, 0), (255, 0), (0, 0), is a single run
    * whose width 256 wraps to 0 in its `uint8_t`: under either sort
    * fillTriangle draws nothing, so no vertex is covered or coloured.
    */
  lemma WideFlatDrawsNothing(buf: Buffer, color: u8)
    ensures FillSpansAsWritten(Triangle(0, 0, 255, 0, 0, 0)) == FillSpans(Triangle(0, 0, 255, 0, 0, 0))
    ensures forall v :: v in Vertices(Triangle(0, 0, 255, 0, 0, 0)) ==> !Covered(FillSpans(Triangle(0, 0, 255, 0, 0, 0)), v)
    ensures DrawSpans(buf, FillSpans(Triangle(0, 0, 255, 0, 0, 0)), color) == buf
  {
    var t := Triangle(0, 0, 255, 0, 0, 0);
    FlatFill(t);
    assert Wrap8(255 - 0 + 1) == 0;
    assert FillSpans(t) == [Span(0, 0, 0)];
    HLineEmpty(buf, 0, 0, 0, color);
  }

  // ---------------------------------------------------------------------
  // drawTriangle

  /** The pixels drawTriangle plots: the lines 0-1, 1-2 and 2-0. */
  function OutlinePoints(t: Triangle): seq<Point> {
    LinePoints(t.x0, t.y0, t.x1, t.y1) + LinePoints(t.x1, t.y1, t.x2, t.y2) + LinePoints(t.x2, t.y2, t.x0, t.y0)
  }

  /** Every vertex is among the pixels drawTriangle plots. */
  lemma OutlineVertices(t: Triangle)
    ensures forall v :: v in Vertices(t) ==> v in OutlinePoints(t)
  {
    LineEndpoints(t.x0, t.y0, t.x1, t.y1);
    LineEndpoints(t.x1, t.y1, t.x2, t.y2);
    var l := LinePoints(t.x0, t.y0, t.x1, t.y1);
    var m := LinePoints(t.x1, t.y1, t.x2, t.y2);
    assert Point(t.x0, t.y0) in l && Point(t.x1, t.y1) in l && Point(t.x2, t.y2) in m;
  }

  /**
    * drawTriangle gives the same picture whichever vertex comes first and
    * whichever way round the vertices are listed.
    */
  lemma OutlineOrderFree(buf: Buffer, t: Triangle, color: u8)
    ensures PlotAll(buf, OutlinePoints(Triangle(t.x1, t.y1, t.x2, t.y2, t.x0, t.y0)), color) == PlotAll(buf, OutlinePoints(t), color)
    ensures PlotAll(buf, OutlinePoints(Triangle(t.x0, t.y0, t.x2, t.y2, t.x1, t.y1)), color) == PlotAll(buf, OutlinePoints(t), color)
  {
    LineReversed(t.x0, t.y0, t.x1, t.y1);
    LineReversed(t.x1, t.y1, t.x2, t.y2);
    LineReversed(t.x2, t.y2, t.x0, t.y0);
    PlotAllSameSet(buf, OutlinePoints(Triangle(t.x1, t.y1, t.x2, t.y2, t.x0, t.y0)), OutlinePoints(t), color);
    PlotAllSameSet(buf, OutlinePoints(Triangle(t.x0, t.y0, t.x2, t.y2, t.x1, t.y1)), OutlinePoints(t), color);
  }
}
