# Arduboy rasteriser, frame scheduler and text cursor in Dafny

This project models the core of the Arduboy library's `src/Arduboy.cpp`:

- the 1-bit framebuffer `sBuffer` and every routine that draws into it;
- the frame scheduler that paces rendering;
- the text cursor that `write` advances.

The framebuffer is 1024 bytes for the 128 x 64 screen. Pixel (x, y) is bit `y % 8` of byte `(y / 8) * 128 + x`. The drawing routines are pixels, fast horizontal and vertical lines, Bresenham lines, midpoint circles and their corner helpers, rectangles, rounded rectangles, triangles, page-packed and row-major bitmaps, and 5 x 8 glyphs.

## Layout

- `cint.dfy` (module `CInt`): C integer behaviour the source relies on.
  - `uint8_t` and `int16_t` stores are wrap-arounds (`Wrap8`, `Wrap16`).
  - Division truncates toward zero (`CDiv`).
- `framebuffer.dfy` (module `FrameBuffer`): the pure buffer model.
  - Buffers are `seq<bv8>`.
  - `Plot` is `drawPixel`; `PlotAll` plots a list of points in order.
  - `HLine` is `drawFastHLine` as written; `HLineClip` is its corrected clipping.
- Pure descriptions of what each family of routines draws, each with its properties:
  - `lines.dfy` (`Lines`), `circles.dfy` (`Circles`), `rects.dfy` (`Rects`), `triangles.dfy` (`Triangles`);
  - `bitmaps.dfy` (`Bitmaps`) and `glyphs.dfy` (`Glyphs`).
  - Each of these modules also holds the small step lemmas that the class's loops use.
- `scheduler.dfy` (module `Scheduler`): the frame fields as a value, and each call as a step from the old fields to the new ones.
- `base.dfy` (module `Base`): class `ArduboyBase`.
  - The buffer is an `array<bv8>`, and the frame fields are the class's fields.
  - Each drawing method runs the source's loops over the array.
  - Each method's postcondition says its new buffer equals the matching pure function of the old buffer.
  - Long routines are split into helper methods, one loop each.
- `text.dfy` (module `Text`): class `Arduboy`.
  - It holds an `ArduboyBase` and the text fields `cursor_x`, `cursor_y`, `textColor`, `textBackground`, `textSize` and `textWrap`.
  - `WriteStep` and `WriteScreen` give the effect of `write`.

`drawPixel` is modelled with its `PIXEL_SAFE_MODE` guard compiled in, so an off-screen pixel is a no-op.

The class `ArduboyBase` follows the source as written, including the defects listed under "## Findings". Each of those rows also names a corrected definition and the property proved about it.

`write` decides wrapping after drawing, not before. The code (src/Arduboy.cpp:858-867) draws the character at the cursor, advances the cursor, and only then moves to the next line if the cursor is past `WIDTH - 6 * textSize`. So a character written from a column past the last whole-character position is drawn there, partly off the right edge, and only the next character goes to the next line. The model follows the code; `Text.WrapAfterDrawing` exhibits this.

`newFrame` computes the next due time at src/Arduboy.cpp:163 from `lastFrameStart`, which at that point still holds the start of the *previous* frame; line 178 only then sets it to `now`. So the next frame is due one frame length after the previous frame's start, not after this one's. Even a frame that starts exactly on time is followed by one that is already due: `Scheduler.NewFramePairs` shows frames starting at 16 ms and 17 ms. The guarantee that does hold is `Scheduler.NewFrameSpacing`: the third of three started frames is at least one frame length after the first. The class follows the code; the corrected step `Scheduler.NewFrameStepFixed` is under "## Findings".

## Model

| member | source | states |
|---|---|---|
| CInt.Wrap16 | src/Arduboy.cpp:871-875 | storing into an `int16_t` keeps the value modulo 2^16 and leaves in-range values alone |
| CInt.CDiv | src/Arduboy.cpp:654-655 | C division by a positive divisor: q * b and a differ by less than b, toward zero |
| FrameBuffer.Offset | src/Arduboy.cpp:274-278 | every on-screen pixel's byte index lies inside the 1024-byte buffer |
| FrameBuffer.OffsetParts | src/Arduboy.cpp:283-285 | the byte of pixel (x, y) is in band y / 8 at column x |
| FrameBuffer.OffsetInjective | src/Arduboy.cpp:274-278 | two on-screen pixels with the same byte and bit are the same pixel |
| FrameBuffer.BitOfSetBit | src/Arduboy.cpp:275-278 | setting or clearing bit k of a byte changes bit k only, to the colour's truth value |
| FrameBuffer.PlotPixel | src/Arduboy.cpp:267-279 | drawPixel makes pixel p lit exactly when the colour is nonzero and leaves every other pixel as it was |
| FrameBuffer.PlotSameByte | src/Arduboy.cpp:274-278 | a pixel sharing p's byte keeps its value when p is drawn |
| FrameBuffer.BufferExt | src/Arduboy.cpp:274-278 | two buffers that agree on every pixel are equal, so the pixel view is faithful |
| FrameBuffer.PixelOfBit | src/Arduboy.cpp:281-286 | every byte and bit of the buffer holds exactly one on-screen pixel, the inverse of the pixel's offset |
| FrameBuffer.PixelOfOffset | src/Arduboy.cpp:281-286 | an on-screen pixel is the pixel of its own byte and bit |
| FrameBuffer.ColumnPastEdge | src/Arduboy.cpp:283-285 | column 200 of row 0 addresses the byte and bit of pixel (72, 8) |
| FrameBuffer.Plot | src/Arduboy.cpp:267-279 | drawPixel's effect on the buffer: bit y % 8 of byte (y / 8) * 128 + x set for a nonzero colour and cleared otherwise, no change off screen; PlotPixel states its per-pixel meaning |
| FrameBuffer.PlotAllPixel | src/Arduboy.cpp:296-321 | after plotting a list of points, a pixel takes the colour if it is in the list and is unchanged otherwise |
| FrameBuffer.FilledPixel | src/Arduboy.cpp:531-566 | after fillScreen(color) every pixel is lit exactly when color is nonzero |
| FrameBuffer.HLineClipAsWritten | src/Arduboy.cpp:485-498 | the source's clipping keeps an in-range run as it is, never starts left of column 0, ends at or before the right edge when x <= 128, and for x > 128 stores 128 - x into the uint8 width |
| FrameBuffer.HLineClip | src/Arduboy.cpp:485-498 | the corrected clipping yields exactly the on-screen part of [x, x + w), and has the source's width whenever x <= 128 and x + w >= 0 |
| FrameBuffer.HLineClipOverrun | src/Arduboy.cpp:492-494 | for x = 129, w = 256 - 1 after the uint8 store, the run from row 56 passes the end of the buffer, and on row 0 the run lights pixel (1, 8) of the next band |
| FrameBuffer.HLineNegativeWrap | src/Arduboy.cpp:486-490 | for x = -1 and w = 0 the source clips to a full 128-pixel run and lights pixel (127, 0), where the corrected clipping draws nothing |
| FrameBuffer.HLine | src/Arduboy.cpp:479-521 | an off-screen row, or any colour other than WHITE and BLACK, leaves the buffer unchanged |
| FrameBuffer.RunClamp | src/Arduboy.cpp:506-520 | bytes of a run at or past the end of the buffer change nothing, so the run can be cut at byte 1024 |
| FrameBuffer.HLineEmpty | src/Arduboy.cpp:496-498 | a run whose clipped width, as written, is 0 draws nothing |
| FrameBuffer.HLineIsRun | src/Arduboy.cpp:500-520 | drawFastHLine sets or clears bit y % 8 in consecutive bytes from the clipped start, count bytes long |
| FrameBuffer.HLineRun | src/Arduboy.cpp:500-520 | the only bytes drawFastHLine changes are inside that run of its row's band |
| FrameBuffer.HLineMembers | src/Arduboy.cpp:479-498 | when x + w >= 0, the run's on-screen pixels are exactly those of row y with x <= q.x < x + w |
| FrameBuffer.HLineWrapMembers | src/Arduboy.cpp:486-490 | when x + w < 0, the run's on-screen pixels are those of row y left of the wrapped width (w + x) mod 256 |
| FrameBuffer.HLinePixel | src/Arduboy.cpp:479-521 | for x <= 128, per pixel, drawFastHLine colours exactly the pixels of its run |
| FrameBuffer.HLineKeepsColour | src/Arduboy.cpp:500-520 | in WHITE or BLACK, drawFastHLine never takes the colour away from a pixel that has it |
| FrameBuffer.HLineAsPlots | src/Arduboy.cpp:479-521 | for x <= 128, drawFastHLine equals drawing its pixels one at a time |
| FrameBuffer.VLineMembers | src/Arduboy.cpp:472-477 | drawFastVLine's pixels are exactly the on-screen pixels of column x with y <= q.y < y + h |
| Lines.Setup | src/Arduboy.cpp:422-433 | steep iff the y extent exceeds the x extent; after the swaps x0 <= x1, the major extent is max(dx, dy), and the endpoints are the original two |
| Lines.SetupReversed | src/Arduboy.cpp:422-433 | both directions of a segment normalise to the same set-up |
| Lines.LinePoints | src/Arduboy.cpp:418-461 | the pixels drawLine plots, in order: the set-up followed by Bresenham's loop; LineReversed, LineLength and LineEndpoints state its properties |
| Lines.LineReversed | src/Arduboy.cpp:418-461 | drawLine plots the same pixels in the same order for both directions |
| Lines.BresenhamSteps | src/Arduboy.cpp:447-460 | the loop plots one pixel per major-axis coordinate, from x0 to x1 |
| Lines.LineLength | src/Arduboy.cpp:418-461 | a line has max(abs dx, abs dy) + 1 pixels whose major coordinates are consecutive |
| Lines.ErrorStep | src/Arduboy.cpp:454-459 | each error update keeps the closed form err = dx / 2 + n * dy - r * dx within [0, dx) |
| Lines.BresenhamReachesEnd | src/Arduboy.cpp:447-460 | the last plotted pixel is the far endpoint |
| Lines.LineEndpoints | src/Arduboy.cpp:418-461 | the first and last pixels of drawLine are its two endpoints |
| Circles.StartTracks | src/Arduboy.cpp:290-294 | the initial decision variables satisfy the midpoint invariant |
| Circles.StepTracks | src/Arduboy.cpp:303-312 | one loop turn keeps the invariant: f, ddF_x and ddF_y keep their closed forms, and the midpoint brackets the circle |
| Circles.CirclePoints | src/Arduboy.cpp:288-323 | the pixels drawCircle plots, in order: the four axis pixels, then eight per loop turn; CircleSymmetric and CircleNearRadius state its properties |
| Circles.OctantsSymmetric | src/Arduboy.cpp:314-321 | the eight pixels of one step are closed under the octant reflections about the centre |
| Circles.ArcSymmetric | src/Arduboy.cpp:301-322 | the pixels of the whole loop are symmetric under the octant reflections |
| Circles.CircleSymmetric | src/Arduboy.cpp:288-323 | drawCircle's pixel set is symmetric under all eight octant reflections |
| Circles.CircleNearRadius | src/Arduboy.cpp:288-323 | every pixel drawCircle plots is within the radius tolerance of the circle: squared distance within r of r * r |
| Circles.CornerWithinCircle | src/Arduboy.cpp:325-368 | drawCircleHelper plots only pixels of the full circle |
| Circles.CornerQuadrants | src/Arduboy.cpp:347-366 | each plotted pixel lies in a quadrant that cornername selects (bits 1, 2, 4, 8) |
| Circles.FirstPass | src/Arduboy.cpp:391-402 | the fill loop's first pass uses offset (1, r), or (1, 0) for r = 1, then continues from the stepped state |
| Circles.FillOctantsColumns | src/Arduboy.cpp:404-414 | one pass of fillCircleHelper with both halves fills exactly the four column runs about the centre |
| Circles.FillOctantsHasPoint | src/Arduboy.cpp:404-414 | an on-screen pixel is in one pass exactly when it lies in a column run of a half cornername selects, with the run heights 2y + 1 + delta and 2x + 1 + delta stored into uint8 |
| Circles.FillArcBox | src/Arduboy.cpp:391-415 | for delta >= 0, the loop from offsets within [0, r] only draws inside the box of half-width r about the centre, stretched down by delta |
| Circles.HalfCover | src/Arduboy.cpp:376-416 | when no height wraps, one half fills the rows y0 .. y0 + delta of every column 1 .. r away from x0 on its side |
| Circles.FillCircleCoversOutline | src/Arduboy.cpp:370-374 | for r <= 127, every on-screen pixel of drawCircle is also drawn by fillCircle |
| Circles.WideCentreColumn | src/Arduboy.cpp:372 | for r >= 128 the centre column's height 2r + 1 wraps to 2r + 1 - 256, and the column covers exactly the rows y0 - r up to y0 + r - 256 |
| Circles.FillCircleMissesBottom | src/Arduboy.cpp:370-374 | for r >= 128 the outline's bottom pixel (x0, y0 + r), when on screen, is drawn by drawCircle and not by fillCircle |
| Circles.FillCircleInDisk | src/Arduboy.cpp:370-416 | for every radius, including those whose uint8 column heights wrap, every on-screen pixel fillCircle draws is within the disk: squared distance at most r * r + r |
| Rects.RectOutline | src/Arduboy.cpp:463-470 | for w, h >= 1, x <= 128 and x + w >= 0, drawRect colours exactly the pixels on the rectangle's border and leaves the rest |
| Rects.RectDegenerate | src/Arduboy.cpp:463-470 | for w = 0 or h = 0, 0 <= x <= 128 and WHITE or BLACK, drawRect still colours its edge pixels, columns x and x - 1 over [y, y + h) or rows y and y - 1 over [x, x + w), and leaves the rest |
| Rects.EdgesPixel | src/Arduboy.cpp:463-470 | for 0 <= x <= 128, in WHITE or BLACK, the four edge calls colour exactly the pixels of rows y and y + h - 1 over [x, x + w) and columns x and x + w - 1 over [y, y + h), whatever w and h are |
| Rects.RectWrapsLeft | src/Arduboy.cpp:463-470 | drawRect(-20, 10, 10, 10), wholly left of the screen, lights all of rows 10 and 19 |
| Rects.WrappedRuns | src/Arduboy.cpp:466-467 | the top and bottom edges of that rectangle each light their whole row |
| Rects.FillRectPixel | src/Arduboy.cpp:523-529 | fillRect colours exactly the pixels with x <= q.x < x + w and y <= q.y < y + h |
| Rects.RoundRectZeroRadius | src/Arduboy.cpp:569-582 | drawRoundRect with radius 0 is drawRect |
| Rects.CornersEmpty | src/Arduboy.cpp:578-581 | with radius 0 the four corner arcs plot nothing, wherever their centres are |
| Rects.CornerBox | src/Arduboy.cpp:578-581 | each corner arc stays in its own r x r quadrant of its centre |
| Rects.RoundCornersInside | src/Arduboy.cpp:569-582 | when 2r < w and 2r < h, the corner arcs stay inside the rectangle, and a corner pixel between the straight parts of the top and bottom edges lies within r rows of the top or bottom |
| Rects.FillRoundRectZeroRadius | src/Arduboy.cpp:584-593 | fillRoundRect with radius 0 is fillRect |
| Rects.FillRoundRectPixel | src/Arduboy.cpp:584-593 | for 2r < w and 2r < h, fillRoundRect leaves every pixel outside the rectangle and colours its central cross: the columns x + r .. x + w - r - 1 over every row and the rows y + r .. y + h - r - 1 over every column |
| Triangles.SortAsWritten | src/Arduboy.cpp:609-614 | the source's sort orders the ys and keeps their multiset, but its unguarded x swaps always exchange x0 and x2 |
| Triangles.SortAsWrittenRange | src/Arduboy.cpp:609-614 | the sort as written still puts the least y first and the greatest last |
| Triangles.Order01 | src/Arduboy.cpp:609-610 | the first compare-and-swap, with braces, orders y0 <= y1 and permutes the vertices |
| Triangles.Order12 | src/Arduboy.cpp:611-612 | the second compare-and-swap orders y1 <= y2 and permutes the vertices |
| Triangles.SortByY | src/Arduboy.cpp:608-614 | the corrected sort yields y0 <= y1 <= y2 and the same multiset of vertices |
| Triangles.SortByYRange | src/Arduboy.cpp:608-614 | after sorting, y0 is the least and y2 the greatest of the three ys |
| Triangles.SortAsWrittenMismatch | src/Arduboy.cpp:609-614 | for vertices (0,0), (0,5), (10,10) the source's sort invents the vertex (10,0); the corrected sort keeps the triangle |
| Triangles.FillAsWrittenFirstRow | src/Arduboy.cpp:609-663 | for an already sorted triangle the source's first row is a pixel at x2 and not at the top vertex x0 |
| Triangles.FlatFill | src/Arduboy.cpp:616-629 | a triangle on one row is one run from the least to the greatest x, the same with either sort |
| Triangles.FlatBounds | src/Arduboy.cpp:618-626 | the if-chain finds the least and the greatest of the three xs |
| Triangles.SpanOf | src/Arduboy.cpp:659-662 | a row from a to b starts at min(a, b) and ends at max(a, b) |
| Triangles.FirstSpan | src/Arduboy.cpp:652-663 | the first row of a sorted triangle with a pointed top is one pixel at the top vertex |
| Triangles.UpperRow | src/Arduboy.cpp:652-663 | with sa = dx01 * k and sb = dx02 * k, the upper loop's row y is the row the span list gives |
| Triangles.LowerRow | src/Arduboy.cpp:667-681 | with sa = dx12 * (y - y1) and sb = dx02 * (y - y0), the lower loop's row y is the row the span list gives |
| Triangles.SortedSpansRows | src/Arduboy.cpp:646-681 | the two loops draw one row for each y from y0 to y2, in order |
| Triangles.FillSpansRows | src/Arduboy.cpp:603-682 | fillTriangle draws one row per y from the least to the greatest vertex y |
| Triangles.FillAsWrittenRows | src/Arduboy.cpp:603-682 | the fill as written also draws one row per y from the least to the greatest vertex y |
| Triangles.CrossBetween | src/Arduboy.cpp:654-655 | each edge crossing lies between the edge's two end columns |
| Triangles.FillSpansWithin | src/Arduboy.cpp:603-682 | every row stays within the least and greatest vertex x, when that range is under 255 |
| Triangles.FillAsWrittenWithin | src/Arduboy.cpp:603-682 | so does every row of the fill as written, since its swaps only permute the xs |
| Triangles.AgainstShift | src/Arduboy.cpp:654-655 | moving a column by d moves its scaled signed distance from an edge by d times the edge's height |
| Triangles.CrossNear | src/Arduboy.cpp:654-655 | each truncated edge crossing is strictly within one pixel of the true crossing |
| Triangles.BetweenNear | src/Arduboy.cpp:659-662 | a column between two such crossings is within one pixel of the true crossings |
| Triangles.SideEdge | src/Arduboy.cpp:646-681 | the edge opposite edge 0-2 on a row is edge 0-1 above vertex 1 and edge 1-2 below, and spans at least one row |
| Triangles.SpanPixelsBetween | src/Arduboy.cpp:659-662 | the pixels of a row lie between its two crossings, whatever its uint8 width |
| Triangles.SortedSpansNearHull | src/Arduboy.cpp:616-681 | every pixel of a sorted triangle's rows is within one pixel of the triangle |
| Triangles.UpperNearHull | src/Arduboy.cpp:646-663 | the same for a row of the first loop |
| Triangles.LowerNearHull | src/Arduboy.cpp:667-681 | the same for a row of the second loop |
| Triangles.FillNearHull | src/Arduboy.cpp:603-682 | fillTriangle never draws a pixel more than one pixel outside the triangle: the given one with the corrected sort, the one its x swaps make as written |
| Triangles.HullOvershoot | src/Arduboy.cpp:652-663 | the one pixel is needed: triangle (0, 0), (3, 2), (20, 10) draws row 1 from column 1, left of both edges |
| Triangles.FillCoversVertices | src/Arduboy.cpp:603-682 | when the x range is under 255, every vertex lies in one of the drawn rows |
| Triangles.FillAsWrittenCoversItsVertices | src/Arduboy.cpp:603-682 | when the x range is under 255, as written, every vertex of the triangle its swaps make lies in a drawn row |
| Triangles.DrawSpansAsPlots | src/Arduboy.cpp:662 | drawing rows that start at or left of the right edge equals plotting their pixels |
| Triangles.DrawSpansKeepColour | src/Arduboy.cpp:662 | drawing rows in WHITE or BLACK never takes the colour away from a pixel |
| Triangles.DrawnWhereCovered | src/Arduboy.cpp:662 | drawing rows in WHITE or BLACK colours every on-screen pixel one of them covers |
| Triangles.FillColoursVertices | src/Arduboy.cpp:603-682 | when the x range is under 255, after the corrected fill in WHITE or BLACK every on-screen vertex has the colour |
| Triangles.FillAsWrittenColoursItsVertices | src/Arduboy.cpp:603-682 | when the x range is under 255, after the fill as written, every on-screen vertex of the triangle its swaps make has the colour |
| Triangles.WideFlatDrawsNothing | src/Arduboy.cpp:616-629 | the flat triangle (0, 0), (255, 0), (0, 0), 256 columns wide, has its run width wrap to 0: under either sort no vertex is covered and the buffer is unchanged |
| Triangles.OutlineVertices | src/Arduboy.cpp:595-601 | drawTriangle plots all three vertices |
| Triangles.OutlineOrderFree | src/Arduboy.cpp:595-601 | rotating or reflecting the vertex order does not change the drawn buffer |
| Bitmaps.Rows | src/Arduboy.cpp:698-699 | the band count is h / 8 rounded up |
| Bitmaps.YOffset | src/Arduboy.cpp:691-696 | the bit offset is in [0, 8) for y >= 0 and in [1, 8] for y < 0 |
| Bitmaps.Placement | src/Arduboy.cpp:691-696 | the start band and the offset place the image's top row exactly at y: y == 8 * sRow + yOffset |
| Bitmaps.LoBits | src/Arduboy.cpp:714-715 | the byte shifted left by the offset carries image bit k - off into bit k |
| Bitmaps.HiBits | src/Arduboy.cpp:732-733 | the byte shifted right by 8 - off carries image bit k + 8 - off into bit k < off |
| Bitmaps.BlendBits | src/Arduboy.cpp:712-726 | the or, and-not and xor forms act bit by bit as set, clear and invert |
| Bitmaps.RowsPast | src/Arduboy.cpp:702 | the break below the screen skips only bands that change nothing |
| Bitmaps.RowAbove | src/Arduboy.cpp:703 | a band two or more above the screen changes nothing |
| Bitmaps.ColumnsPast | src/Arduboy.cpp:707 | the break at the right edge skips only columns that change nothing |
| Bitmaps.SkipColumn | src/Arduboy.cpp:708 | a column left of the screen changes nothing |
| Bitmaps.ImageByteStep | src/Arduboy.cpp:705-747 | one image byte blended into the band it starts in and the band below gives the next partial result |
| Bitmaps.BitmapPixel | src/Arduboy.cpp:684-750 | per pixel, drawBitmap sets, clears or inverts exactly the pixels whose image bit is set and leaves all others |
| Bitmaps.BitmapInvertTwice | src/Arduboy.cpp:722-726 | with an inverting colour, drawing the same bitmap twice restores the buffer |
| Bitmaps.ByteWidth | src/Arduboy.cpp:760 | bytes per image row are w / 8 rounded up |
| Bitmaps.SlowRowStep | src/Arduboy.cpp:763-767 | one inner-loop turn plots pixel (x + xi, y + yi) exactly when bit 7 - xi % 8 of its byte is set |
| Bitmaps.SlowRowsMembers | src/Arduboy.cpp:761-768 | the plotted pixels are exactly the image positions with a set bit |
| Bitmaps.SlowBitmapPixel | src/Arduboy.cpp:753-769 | per pixel, drawSlowXYBitmap colours exactly the set image bits of a bitmap that is not off screen |
| Glyphs.ShiftedBit | src/Arduboy.cpp:792-803 | after j shifts of `line >>= 1` the low bit is font bit j |
| Glyphs.CellColor | src/Arduboy.cpp:793 | a cell is drawn in the text colour when its font bit is set, otherwise in the background colour |
| Glyphs.CellStep | src/Arduboy.cpp:793-802 | one cell is a size x size block in draw_color, drawn when draw_color is nonzero or the background shows |
| Glyphs.SpacerIsBackground | src/Arduboy.cpp:786-787 | the sixth column is blank: background coloured, drawn only when the background shows |
| Glyphs.InGridBox | src/Arduboy.cpp:783-805 | the glyph's cells cover exactly the 6 size x 8 size rectangle at (x, y) |
| Glyphs.CharPixel | src/Arduboy.cpp:772-806 | per pixel, drawChar gives a pixel of the glyph rectangle its cell's colour when the cell is drawn, and leaves all other pixels |
| Glyphs.CharPixelOutside | src/Arduboy.cpp:783-805 | pixels outside the glyph rectangle keep their value |
| Scheduler.SetFrameRate | src/Arduboy.cpp:125-129 | the frame length is 1000 / rate rounded down, at least 3 ms, and nothing else changes |
| Scheduler.Initial | src/Arduboy.cpp:13-22 | the constructor sets 60 fps and a 16 ms frame, no frames counted, first frame due at 0, nothing pending |
| Scheduler.NewFrameStep | src/Arduboy.cpp:136-182 | newFrame as a step from the old frame fields and the clock to the new fields and the answer; NewFrameFinalises, NewFrameWaits and NewFrameStarts state what it does |
| Scheduler.NextFrameStep | src/Arduboy.cpp:187-209 | nextFrame as the same kind of step; NextFrameSchedule states what it does |
| Scheduler.CpuLoad | src/Arduboy.cpp:211-214 | the load is the last frame's duration times 100 divided by the frame length, truncated |
| Scheduler.NewFrameFinalises | src/Arduboy.cpp:141-147 | a pending frame is finalised once: count + 1, duration = now - lastFrameStart; otherwise neither changes |
| Scheduler.NewFrameWaits | src/Arduboy.cpp:149-158 | before nextFrameStart the call returns false and keeps both start times |
| Scheduler.NewFrameStarts | src/Arduboy.cpp:160-181 | once due it returns true, starts the frame at now and schedules the next at max(lastFrameStart + frame length, now) |
| Scheduler.NoCatchUp | src/Arduboy.cpp:162-176 | the next frame is never scheduled in the past, nor more than one frame length ahead |
| Scheduler.NewFrameValid | src/Arduboy.cpp:136-209 | both frame calls keep the frame length tied to the frame rate |
| Scheduler.NewFrameSpacing | src/Arduboy.cpp:136-182 | of three frames started by consecutive calls, the third starts at least one frame length after the first |
| Scheduler.NewFramePairs | src/Arduboy.cpp:163-178 | after a frame started on time at 16 ms, another starts at 17 ms |
| Scheduler.NewFrameBurst | src/Arduboy.cpp:163-178 | calls every 10 ms at 60 fps start frames at 0, 20, 30, 40 and 50 ms: the fifth before four frame lengths |
| Scheduler.NewFrameStepFixed | src/Arduboy.cpp:160-181 | the corrected step starts a frame iff it is due, and schedules the next at max(due time + frame length, now) |
| Scheduler.FixedFramesSpaced | src/Arduboy.cpp:160-181 | under the corrected step the k-th started frame starts at least k frame lengths after the first due time |
| Scheduler.FixedNoCatchUp | src/Arduboy.cpp:164-176 | the corrected step still schedules the next frame no earlier than now and at most one frame length ahead |
| Scheduler.FixedNoBurst | src/Arduboy.cpp:160-181 | the calls of NewFrameBurst start frames at 0, 20, 40 and 50 ms under the corrected step |
| Scheduler.NextFrameSchedule | src/Arduboy.cpp:187-209 | nextFrame returns true iff now >= nextFrameStart, then schedules the next frame exactly one frame length after now |
| Scheduler.NextFrameSpacing | src/Arduboy.cpp:187-209 | two frames started by consecutive nextFrame calls are at least one frame length apart |
| Scheduler.WaitingKeepsSchedule | src/Arduboy.cpp:198-203 | any number of calls made before the due time keep the schedule |
| Scheduler.CpuLoadScale | src/Arduboy.cpp:211-214 | a frame that took exactly its length is a load of 100, and a shorter one is below 100 |
| Scheduler.EveryXFramesPeriodic | src/Arduboy.cpp:131-134 | everyXFrames(n) repeats every n frames, and everyXFrames(1) always holds |
| Base.ArduboyBase.constructor | src/Arduboy.cpp:13-22 | a zeroed buffer and the initial frame fields |
| Base.ArduboyBase.SetFrameRate | src/Arduboy.cpp:125-129 | the fields take the Scheduler.SetFrameRate step |
| Base.ArduboyBase.EveryXFrames | src/Arduboy.cpp:131-134 | agrees with Scheduler.EveryXFrames on the fields |
| Base.ArduboyBase.NewFrame | src/Arduboy.cpp:136-182 | the fields and the answer are the Scheduler.NewFrameStep of the old fields at the clock value |
| Base.ArduboyBase.NextFrame | src/Arduboy.cpp:187-209 | the fields and the answer are the Scheduler.NextFrameStep of the old fields |
| Base.ArduboyBase.CpuLoad | src/Arduboy.cpp:211-214 | agrees with Scheduler.CpuLoad on the fields |
| Base.ArduboyBase.DrawPixel | src/Arduboy.cpp:267-279 | the buffer becomes Plot of the old buffer |
| Base.ArduboyBase.GetPixel | src/Arduboy.cpp:281-286 | returns the bit that byte (y / 8) * 128 + x holds for row y % 8, as 0 or 1: for an on-screen pixel whether it is lit, and for a column past the right edge whether a pixel of a later band is lit |
| Base.ArduboyBase.FillScreen | src/Arduboy.cpp:531-566 | every byte becomes 0xFF for a nonzero colour and 0 otherwise |
| Base.ArduboyBase.Clear | src/Arduboy.cpp:239-242 | the buffer is all black |
| Base.ArduboyBase.Draw | src/Arduboy.cpp:249-265 | takes the newFrame step; returns 1 and keeps the buffer when not due, otherwise clears it and returns 0 |
| Base.ArduboyBase.DrawFastVLine | src/Arduboy.cpp:472-477 | the buffer becomes the old one with the clipped column plotted |
| Base.ArduboyBase.DrawFastHLine | src/Arduboy.cpp:479-521 | the buffer becomes HLine of the old one, with the source's clipping and its uint8 wraps |
| Base.ArduboyBase.ByteRun | src/Arduboy.cpp:506-520 | the pointer loop sets or clears one bit in count consecutive bytes |
| Base.ArduboyBase.DrawLine | src/Arduboy.cpp:418-461 | the buffer becomes the old one with LinePoints plotted |
| Base.ArduboyBase.DrawPoints | src/Arduboy.cpp:296-299 | a run of drawPixel calls in order plots exactly that list of points |
| Base.ArduboyBase.DrawSteps | src/Arduboy.cpp:447-460 | Bresenham's loop plots the Bresenham point list |
| Base.ArduboyBase.DrawCircle | src/Arduboy.cpp:288-323 | the buffer becomes the old one with CirclePoints plotted |
| Base.ArduboyBase.DrawCircleHelper | src/Arduboy.cpp:325-368 | the buffer becomes the old one with the selected corner arcs plotted |
| Base.ArduboyBase.HelperPass | src/Arduboy.cpp:347-366 | one turn of drawCircleHelper's loop plots the pixel pairs of the quadrants cornername selects |
| Base.ArduboyBase.HelperQuadrants | src/Arduboy.cpp:347-366 | the four guarded pairs of drawPixel calls plot the selected pairs in the source's order |
| Base.ArduboyBase.FillCircle | src/Arduboy.cpp:370-374 | the buffer becomes the old one with FillCirclePoints plotted |
| Base.ArduboyBase.FillCircleHelper | src/Arduboy.cpp:376-416 | the buffer becomes the old one with the selected halves' columns plotted |
| Base.ArduboyBase.FillPass | src/Arduboy.cpp:404-414 | one turn of fillCircleHelper's loop draws the column runs of the selected halves, with uint8 heights |
| Base.ArduboyBase.FillQuadrants | src/Arduboy.cpp:404-414 | the right pair of drawFastVLine calls if selected, then the left pair |
| Base.ArduboyBase.DrawRect | src/Arduboy.cpp:463-470 | the buffer becomes RectBuffer of the old one, whose edges are drawFastHLine as written |
| Base.ArduboyBase.DrawEdges | src/Arduboy.cpp:463-470 | the two drawFastHLine and two drawFastVLine calls of drawRect and drawRoundRect give the Edges buffer |
| Base.ArduboyBase.FillRect | src/Arduboy.cpp:523-529 | the buffer becomes the old one with the rectangle's columns plotted |
| Base.ArduboyBase.DrawRoundRect | src/Arduboy.cpp:569-582 | the buffer becomes RoundRectBuffer of the old one, whose edges are drawFastHLine as written |
| Base.ArduboyBase.DrawCorners | src/Arduboy.cpp:578-581 | the four drawCircleHelper calls plot the four corner arcs |
| Base.ArduboyBase.FillRoundRect | src/Arduboy.cpp:584-593 | the buffer becomes FillRoundRectBuffer of the old one |
| Base.ArduboyBase.DrawTriangle | src/Arduboy.cpp:595-601 | the buffer becomes the old one with the three edges' pixels plotted |
| Base.ArduboyBase.FillTriangle | src/Arduboy.cpp:603-682 | the buffer becomes the old one with the rows of the triangle drawn, sorted as written with the unguarded x swaps |
| Base.ArduboyBase.FillSorted | src/Arduboy.cpp:616-681 | a y-sorted triangle's rows are drawn by drawFastHLine as written, by the flat case or the two loops |
| Base.ArduboyBase.FillFlat | src/Arduboy.cpp:616-629 | a triangle on one row is drawn as the single run the span list gives |
| Base.ArduboyBase.FillRow | src/Arduboy.cpp:659-662 | one row of either loop, ordered with swap(a, b), draws the next span of the list |
| Base.ArduboyBase.FillUpper | src/Arduboy.cpp:646-663 | the upper loop draws the rows from y0 to last and stops at last + 1 |
| Base.ArduboyBase.FillLower | src/Arduboy.cpp:667-681 | the lower loop draws the remaining rows up to y2 |
| Base.ArduboyBase.BlendByte | src/Arduboy.cpp:712-726 | exactly byte i changes, to the blend of its old value with the mask |
| Base.ArduboyBase.DrawBitmap | src/Arduboy.cpp:684-750 | the buffer becomes BitmapBuffer of the old one |
| Base.ArduboyBase.DrawBitmapBands | src/Arduboy.cpp:700-749 | the outer loop draws the image's bands in order until the bottom of the screen, giving BitmapBuffer's partial result |
| Base.ArduboyBase.DrawBitmapRow | src/Arduboy.cpp:705-747 | one band's inner loop blends its bytes up to the right edge, extending the partial result by one band |
| Base.ArduboyBase.BitmapLayout | src/Arduboy.cpp:691-699 | the offset, start band and band count are YOffset, SRow and Rows |
| Base.ArduboyBase.DrawSlowXYBitmap | src/Arduboy.cpp:753-769 | the buffer becomes SlowBitmapBuffer of the old one |
| Base.ArduboyBase.DrawSlowRow | src/Arduboy.cpp:763-767 | one image row plots the pixels whose image bit is set, left to right |
| Base.ArduboyBase.DrawChar | src/Arduboy.cpp:772-806 | the buffer becomes CharBuffer of the old one |
| Base.ArduboyBase.DrawGlyphColumn | src/Arduboy.cpp:785-804 | one glyph column draws its eight cells top to bottom, shifting the column byte after each |
| Base.ArduboyBase.DrawBlock | src/Arduboy.cpp:797-801 | the two innermost loops plot the size x size block |
| Base.ArduboyBase.DrawBlockColumn | src/Arduboy.cpp:799-800 | the innermost loop plots size pixels of one column, one drawPixel per row |
| Text.InitialState | src/Arduboy.cpp:840-848 | cursor at the origin, colour 1 on 0, size 1, no wrapping |
| Text.WriteStep | src/Arduboy.cpp:850-869 | write's effect on the text fields; ControlCharacters and PrintableCharacter state what it does |
| Text.WriteScreen | src/Arduboy.cpp:850-869 | write's effect on the buffer: nothing for newline and carriage return, otherwise drawChar at the old cursor |
| Text.Newline | src/Arduboy.cpp:852-856 | column 0, row moved down by 8 * textSize with 16-bit wrap, all else kept |
| Text.WithTextSize | src/Arduboy.cpp:897-901 | the size is s when s >= 1 and 1 when s is 0, all else kept |
| Text.AsU16 | src/Arduboy.cpp:877-885 | the uint16 reading of an int16 field: in [0, 65536), and storing it back gives the field |
| Text.ControlCharacters | src/Arduboy.cpp:852-858 | newline resets the column and moves down 8 * textSize; carriage return changes nothing; neither draws |
| Text.PrintableCharacter | src/Arduboy.cpp:859-868 | any other character is drawn at the old cursor; the cursor advances by 6 * textSize, or goes to the next line when wrapping and past WIDTH - 6 * textSize |
| Text.WrapKeepsCursorInside | src/Arduboy.cpp:859-868 | with wrapping on, a cursor in [0, WIDTH - 6 * size] stays there, so every character drawn from it fits the width |
| Text.AdvanceIsGlyphWidth | src/Arduboy.cpp:859-862 | the advance equals the glyph width: consecutive characters neither overlap nor leave a gap |
| Text.WrapAfterDrawing | src/Arduboy.cpp:859-867 | from column 125 with wrapping on, the character is drawn at 125 and then the cursor wraps |
| Text.RunAdvances | src/Arduboy.cpp:859-861 | without wrapping, n printable characters move the cursor n * 6 * textSize right, modulo 2^16 |
| Text.NewlineThenChar | src/Arduboy.cpp:850-869 | after a newline the next character sits at the left edge of the next line |
| Text.Arduboy.constructor | src/Arduboy.cpp:840-848 | the base's initial state and the initial text fields |
| Text.Arduboy.Write | src/Arduboy.cpp:850-869 | the text fields take the WriteStep step and the buffer the WriteScreen step |
| Text.Arduboy.SetCursor | src/Arduboy.cpp:871-875 | sets the cursor, all else kept |
| Text.Arduboy.GetCursorX | src/Arduboy.cpp:877-880 | the column as an unsigned 16-bit value |
| Text.Arduboy.GetCursorY | src/Arduboy.cpp:882-885 | the row as an unsigned 16-bit value |
| Text.Arduboy.SetTextColor | src/Arduboy.cpp:887-890 | sets the text colour, all else kept |
| Text.Arduboy.SetTextBackground | src/Arduboy.cpp:892-895 | sets the background colour, all else kept |
| Text.Arduboy.SetTextSize | src/Arduboy.cpp:897-901 | the size becomes max(1, s) |
| Text.Arduboy.SetTextWrap | src/Arduboy.cpp:903-906 | sets the wrap flag, all else kept |
| Text.Arduboy.Clear | src/Arduboy.cpp:908-912 | clears the buffer and puts the cursor at the origin |

## Left out

- Integer widths:
  - Coordinates and derived values are unbounded integers. The source's `int16_t` arguments and sums (for example `x0 + r`, `y + h - 1`, the triangle accumulators `sa` and `sb`) would wrap on overflow; the model does not capture that.
  - Values stored into a `uint8_t` are modelled with their wrap-around: `w - 2 * r`, `2 * r + 1`, `b - a + 1`.
  - The cursor fields are modelled as `int16_t`.
- Base.ArduboyBase.GetPixel: requires the byte it reads, (y / 8) * 128 + x, to lie inside the buffer. That byte is past the buffer for y >= 64, and for y >= 56 with a large x; the source then reads outside the buffer, which is not modelled. Columns x >= 128 whose byte is inside the buffer are modelled: they read a pixel of a later band (`FrameBuffer.ColumnPastEdge`).
- Base.ArduboyBase.DrawFastHLine: for x > 128 the source's run can pass byte 1023 (see "## Findings"). The model drops the bytes past the end of the buffer; the source writes past it.
- Rects.RectOutline: is stated only for w, h >= 1, x <= 128 and x + w >= 0. For x < 0 with x + w < 0 drawFastHLine's width wraps, and `Rects.RectWrapsLeft` shows the whole rows the source then lights. For w = 0 or h = 0 the outline is empty, yet the source still draws the columns x and x - 1, or the rows y and y - 1 (`Rects.RectDegenerate`).
- Circles.FillCircleCoversOutline: is stated only for r <= 127. For larger r the centre column's height 2r + 1 wraps in its `uint8_t`, so the column stops 256 rows short and the outline's bottom pixel (x0, y0 + r) is not filled (`Circles.WideCentreColumn`, `Circles.FillCircleMissesBottom`).
- Triangles.FillCoversVertices: is stated only for an x range under 255. For a wider triangle a run's width b - a + 1 wraps in drawFastHLine's `uint8_t`, and a run can cover less than its span or nothing: (0, 0), (255, 0), (0, 0) draws nothing (`Triangles.WideFlatDrawsNothing`).
- Triangles.FillAsWrittenCoversItsVertices: is stated only for an x range under 255, for the same wrap of the run width.
- Triangles.FillColoursVertices: is stated only for an x range under 255, for the same wrap; the wide flat triangle above leaves its vertices uncoloured.
- Triangles.FillAsWrittenColoursItsVertices: is stated only for an x range under 255, for the same wrap.
- Triangles.DrawSpansAsPlots: is stated only for rows that start at or left of the right edge, for the same reason.
- Scheduler:
  - The constructor (src/Arduboy.cpp:13-22) does not set `lastFrameStart` or `lastFrameDurationMs`; they are taken as 0, as for a statically allocated object.
  - The frame fields are unbounded integers. Their C widths are declared in `Arduboy.h`, which is not part of this model, so the wrap-around of the frame counter and of `millis()` is not modelled.
  - Scheduler.SetFrameRate and Scheduler.EveryXFrames: require a nonzero argument. With 0 the source divides by zero.
- Text.Arduboy.Write: returns nothing. The source declares a `size_t` result but has no `return`, so its value is undefined.
- Text.NewlineThenChar: is stated only for text sizes of at most 10, where two characters fit on a line. Larger sizes wrap again straight after the newline.
- Hardware and timing:
  - `millis()` is the parameter `now` of the scheduler methods.
  - `idle()` only sleeps, and is left out.
  - `display()`, `getBuffer()`, the button queries `pressed` and `notPressed`, boot, the logo, LEDs, audio, the EEPROM and the random seed are not part of this model.
  - Base.ArduboyBase.Draw: the caller's drawing function and `display()` are left out, so `draw` is modelled as `newFrame` followed by `clear`.
- The font table (`glcdfont.c`) is not part of this model. It is a parameter of `DrawChar` and `Write`, of at least 5 * 256 bytes.
- Bitmaps are passed as byte sequences of at least the size that the routine reads; `pgm_read_byte` is a plain read.
- `drawPixel` without `PIXEL_SAFE_MODE` (no bounds check) is not modelled. Off-screen coordinates would write outside the buffer.
- `fillScreen` is an assembly loop; only its effect is modelled, through the C version in its comment.
- `Print`'s string functions, which call `write` once per character, are outside this file. `Text.WriteAll` gives the cursor after a sequence of writes.
- The pointer form of `drawFastHLine`'s loop is modelled with byte indices.

## Findings

| source | as written | input that shows it | evidently intended | confidence | as-written member | corrected member |
|---|---|---|---|---|---|---|
| src/Arduboy.cpp:492-494 | `w = WIDTH - x` runs for any x with x + w > WIDTH, so for x > WIDTH the negative result is stored into the `uint8_t` w | drawFastHLine(129, 56, 0, WHITE): w becomes 255 and the run starts at byte 1025, past the 1024-byte buffer; on row 0 the run lights pixel (1, 8) | nothing drawn once the clipped start is at or right of the edge | high, not executed | FrameBuffer.HLineClipOverrun | FrameBuffer.HLineClip, FrameBuffer.HLineMembers |
| src/Arduboy.cpp:486-490 | `w += x` for negative x is stored into the `uint8_t` w, so a run that ends left of the screen wraps to a large width | drawFastHLine(-1, y, 0, WHITE) clips to a full 128-pixel row; drawRect(-20, 10, 10, 10, WHITE) lights all of rows 10 and 19 | nothing drawn when x + w <= 0 | high, not executed | FrameBuffer.HLineNegativeWrap, Rects.RectWrapsLeft | FrameBuffer.HLineClip, Rects.RectOutline |
| src/Arduboy.cpp:609-614 | `if (y0 > y1) swap(y0, y1); swap(x0, x1);` guards only the y swap, so each x swap happens unconditionally | fillTriangle(0, 0, 0, 5, 10, 10, WHITE) fills the triangle (10,0), (0,5), (0,10) | swap the whole vertex only when the ys are out of order | high, not executed | Triangles.SortAsWrittenMismatch, Triangles.FillAsWrittenFirstRow | Triangles.SortByY, Triangles.FillCoversVertices, Triangles.FillColoursVertices |
| src/Arduboy.cpp:163-178 | `nextFrameStart = lastFrameStart + eachFrameMillis` reads `lastFrameStart` before line 178 sets it to `now`, so the next frame is due one frame length after the previous frame's start | at 60 fps, newFrame called every 10 ms from time 0 starts frames at 0, 20, 30, 40 and 50 ms: five frames in 50 ms, where four frame lengths are 64 ms | no cumulative catch-up, which the comment at lines 164-174 warns against: the k-th frame starts at least k frame lengths after the first due time | high, not executed | Scheduler.NewFramePairs, Scheduler.NewFrameBurst | Scheduler.NewFrameStepFixed, Scheduler.FixedFramesSpaced |
