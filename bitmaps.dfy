/**
  * The two bitmap blitters.  `drawBitmap` takes an image stored like the
  * screen itself (one byte per column of each eight-pixel band, least
  * significant bit on top) and combines it with the buffer a byte at a time,
  * shifting each image byte across the two bands it straddles.
  * `drawSlowXYBitmap` takes an image stored row by row, eight pixels per byte
  * with the most significant bit on the left, and plots it pixel by pixel.
  */
module Bitmaps {
  import opened CInt
  import opened FrameBuffer

  /** The arguments of one blit call besides the image bytes. */
  datatype Blit = Blit(x: int, y: int, w: u8, h: u8, color: u8)

  /** The early return both blitters share: the w x h box lies off the screen. */
  predicate OffScreen(p: Blit) {
    p.x + p.w < 0 || p.x > WIDTH - 1 || p.y + p.h < 0 || p.y > HEIGHT - 1
  }

  /** Bands of image bytes: h / 8 rounded up. */
  function Rows(h: u8): (r: int)
    ensures 8 * r - 8 < h <= 8 * r && 0 <= r <= 32
  {
    h / 8 + (if h % 8 != 0 then 1 else 0)
  }

  /** How far down its band the image's top row falls; 8 rather than 0 for y a negative multiple of 8. */
  function YOffset(y: int): (r: int)
    ensures y >= 0 ==> 0 <= r < 8
    ensures y < 0 ==> 1 <= r <= 8
  {
    if y < 0 then 8 - Abs(y) % 8 else Abs(y) % 8
  }

  /** The band holding the image's first byte row, with C's truncating division. */
  function SRow(y: int): int {
    if y < 0 then CDiv(y, 8) - 1 else CDiv(y, 8)
  }

  /** The band and the offset together place the image's top row exactly at y. */
  lemma Placement(y: int)
    ensures y == 8 * SRow(y) + YOffset(y)
  {
    var q := CDiv(y, 8);
    if y < 0 {
      assert q * 8 - 8 < y <= q * 8;
      assert Abs(y) == -y;
      assert -y == 8 * (-q) + (-y - 8 * (-q));
      assert 0 <= -y - 8 * (-q) < 8;
      assert Abs(y) % 8 == -y + 8 * q;
    }
  }

  /** The low part of a shifted image byte: `b << off` stored into a byte. */
  function LoMask(b: bv8, off: int): bv8
    requires 0 <= off <= 8
  {
    if off == 0 then b else if off == 1 then b << 1 else if off == 2 then b << 2
    else if off == 3 then b << 3 else if off == 4 then b << 4 else if off == 5 then b << 5
    else if off == 6 then b << 6 else if off == 7 then b << 7 else 0
  }

  /** The high part that spills into the next band: `b >> (8 - off)`. */
  function HiMask(b: bv8, off: int): bv8
    requires 1 <= off <= 8
  {
    if off == 1 then b >> 7 else if off == 2 then b >> 6 else if off == 3 then b >> 5
    else if off == 4 then b >> 4 else if off == 5 then b >> 3 else if off == 6 then b >> 2
    else if off == 7 then b >> 1 else b
  }

  /** WHITE ors the mask in, BLACK clears it, any other colour inverts it. */
  function Blend(prev: bv8, m: bv8, color: u8): bv8 {
    if color == WHITE then prev | m
    else if color == BLACK then prev & !m
    else prev ^ m
  }

  /** The same rule for a single pixel. */
  predicate BlendBit(prev: bool, bit: bool, color: u8) {
    if color == WHITE then prev || bit
    else if color == BLACK then prev && !bit
    else prev != bit
  }

  /** Byte `dx` of image band `a`. */
  function Cell(bitmap: seq<bv8>, p: Blit, a: int, dx: int): bv8
    requires |bitmap| >= Rows(p.h) * p.w
    requires 0 <= a < Rows(p.h) && 0 <= dx < p.w
  {
    IndexBound(a, dx, p.w, Rows(p.h));
    bitmap[a * p.w + dx]
  }

  /** Entry (a, c) of a rows x n table stored row by row lies inside it. */
  lemma IndexBound(a: int, c: int, n: int, rows: int)
    requires 0 <= a < rows && 0 <= c < n
    ensures 0 <= a * n + c < rows * n
  {
    assert (a + 1) * n == a * n + n;
    MulMono(a + 1, rows, n);
  }

  /** Image pixel (dx, dy) is set: bit dy % 8 of byte dx in band dy / 8. */
  predicate ImageBit(bitmap: seq<bv8>, p: Blit, dx: int, dy: int)
    requires |bitmap| >= Rows(p.h) * p.w
    requires 0 <= dy < 8 * Rows(p.h) && 0 <= dx < p.w
  {
    Bit(Cell(bitmap, p, dy / 8, dx), dy % 8)
  }

  /** Loop progress: image byte (a, dx) is done once row A, column C is reached. */
  predicate Done(a: int, dx: int, A: int, C: int) {
    a < A || (a == A && dx < C)
  }

  /** The spill of image row `row` into the band below it, once the loop has written it. */
  function HiPart(prev: bv8, off: int, row: int, dx: int, bitmap: seq<bv8>, p: Blit, A: int, C: int): bv8
    requires |bitmap| >= Rows(p.h) * p.w && 0 <= off <= 8 && 0 <= dx < p.w
  {
    if off != 0 && 0 <= row < Rows(p.h) && Done(row, dx, A, C)
    then Blend(prev, HiMask(Cell(bitmap, p, row, dx), off), p.color) else prev
  }

  /** Image row `row` shifted down by `off` into its own band, once the loop has written it. */
  function LoPart(prev: bv8, off: int, row: int, dx: int, bitmap: seq<bv8>, p: Blit, A: int, C: int): bv8
    requires |bitmap| >= Rows(p.h) * p.w && 0 <= off <= 8 && 0 <= dx < p.w
  {
    if 0 <= row < Rows(p.h) && Done(row, dx, A, C)
    then Blend(prev, LoMask(Cell(bitmap, p, row, dx), off), p.color) else prev
  }

  /**
    * Buffer byte (band, col) once the image bytes before (A, C) have been
    * written: first the spill of the image band above, then the image band
    * itself, as the loop order writes them.
    */
  function PartialByte(prev: bv8, band: int, col: int, bitmap: seq<bv8>, p: Blit, A: int, C: int): bv8
    requires |bitmap| >= Rows(p.h) * p.w
  {
    var dx, off, row := col - p.x, YOffset(p.y), band - SRow(p.y);
    if !(0 <= dx < p.w) then prev
    else LoPart(HiPart(prev, off, row - 1, dx, bitmap, p, A, C), off, row, dx, bitmap, p, A, C)
  }

  function BitmapPartial(buf: Buffer, bitmap: seq<bv8>, p: Blit, A: int, C: int): Buffer
    requires |bitmap| >= Rows(p.h) * p.w
  {
    seq(BUFFER_SIZE, i requires 0 <= i < BUFFER_SIZE => PartialByte(buf[i], i / WIDTH, i % WIDTH, bitmap, p, A, C))
  }

  /** The effect of `drawBitmap`. */
  function BitmapBuffer(buf: Buffer, bitmap: seq<bv8>, p: Blit): Buffer
    requires |bitmap| >= Rows(p.h) * p.w
  {
    if OffScreen(p) then buf else BitmapPartial(buf, bitmap, p, Rows(p.h), 0)
  }

  /** The single-bit bytes spelled out, so that bit lemmas need no symbolic shift. */
  function BitValue(k: int): bv8 {
    if k == 0 then 1 else if k == 1 then 2 else if k == 2 then 4 else if k == 3 then 8
    else if k == 4 then 16 else if k == 5 then 32 else if k == 6 then 64 else 128
  }

  lemma MaskValue(k: int)
    requires 0 <= k < 8
    ensures Mask(k) == BitValue(k)
  {
  }

  lemma LoBits(b: bv8, off: int, k: int)
    requires 0 <= off <= 8 && 0 <= k < 8
    ensures Bit(LoMask(b, off), k) <==> off <= k && Bit(b, k - off)
  {
    if k == 0 {} else if k == 1 {} else if k == 2 {} else if k == 3 {}
    else if k == 4 {} else if k == 5 {} else if k == 6 {} else {}
  }

  lemma HiBits(b: bv8, off: int, k: int)
    requires 1 <= off <= 8 && 0 <= k < 8
    ensures Bit(HiMask(b, off), k) <==> k < off && Bit(b, k + 8 - off)
  {
    if k == 0 {} else if k == 1 {} else if k == 2 {} else if k == 3 {}
    else if k == 4 {} else if k == 5 {} else if k == 6 {} else {}
  }

  lemma BlendBits(prev: bv8, m: bv8, color: u8, k: int)
    requires 0 <= k < 8
    ensures Bit(Blend(prev, m, color), k) <==> BlendBit(Bit(prev, k), Bit(m, k), color)
  {
    var v := BitValue(k);
    assert v == 1 || v == 2 || v == 4 || v == 8 || v == 16 || v == 32 || v == 64 || v == 128;
  }

  /** Blending an empty mask leaves the byte as it was. */
  lemma BlendNothing(prev: bv8, color: u8)
    ensures Blend(prev, 0, color) == prev
  {
  }

  /** Pixel q lies in the blitted box: w columns and whole image bands down from (x, y). */
  predicate InImage(p: Blit, q: Point) {
    0 <= q.x - p.x < p.w && 0 <= q.y - p.y < 8 * Rows(p.h)
  }

  /** A band-relative position: row `row` of the image, bit `b`, lands at offset dy. */
  lemma ImagePosition(dy: int, row: int, b: int)
    requires dy == 8 * row + b && 0 <= b < 8
    ensures dy / 8 == row && dy % 8 == b
  {
  }

  /** Bit k of byte b is set. */
  predicate Bit(b: bv8, k: int) {
    b & BitValue(k) != 0
  }

  /** Bit k after blending in the spill of image byte c. */
  lemma BlendHi(prev: bv8, c: bv8, off: int, color: u8, k: int)
    requires 1 <= off <= 8 && 0 <= k < 8
    ensures Bit(Blend(prev, HiMask(c, off), color), k) ==
            if k < off then BlendBit(Bit(prev, k), Bit(c, k + 8 - off), color) else Bit(prev, k)
  {
    BlendBits(prev, HiMask(c, off), color, k);
    HiBits(c, off, k);
  }

  /** Bit k after blending in the shifted image byte c. */
  lemma BlendLo(prev: bv8, c: bv8, off: int, color: u8, k: int)
    requires 0 <= off <= 8 && 0 <= k < 8
    ensures Bit(Blend(prev, LoMask(c, off), color), k) ==
            if off <= k then BlendBit(Bit(prev, k), Bit(c, k - off), color) else Bit(prev, k)
  {
    BlendBits(prev, LoMask(c, off), color, k);
    LoBits(c, off, k);
  }

  lemma HiPartBit(prev: bv8, off: int, row: int, dx: int, bitmap: seq<bv8>, p: Blit, k: int)
    requires |bitmap| >= Rows(p.h) * p.w && 0 <= off <= 8 && 0 <= dx < p.w && 0 <= k < 8
    ensures Bit(HiPart(prev, off, row, dx, bitmap, p, Rows(p.h), 0), k) ==
            if k < off && 0 <= row < Rows(p.h)
            then BlendBit(Bit(prev, k), Bit(Cell(bitmap, p, row, dx), k + 8 - off), p.color)
            else Bit(prev, k)
  {
    if off != 0 && 0 <= row < Rows(p.h) {
      BlendHi(prev, Cell(bitmap, p, row, dx), off, p.color, k);
    }
  }

  lemma LoPartBit(prev: bv8, off: int, row: int, dx: int, bitmap: seq<bv8>, p: Blit, k: int)
    requires |bitmap| >= Rows(p.h) * p.w && 0 <= off <= 8 && 0 <= dx < p.w && 0 <= k < 8
    ensures Bit(LoPart(prev, off, row, dx, bitmap, p, Rows(p.h), 0), k) ==
            if off <= k && 0 <= row < Rows(p.h)
            then BlendBit(Bit(prev, k), Bit(Cell(bitmap, p, row, dx), k - off), p.color)
            else Bit(prev, k)
  {
    if 0 <= row < Rows(p.h) {
      BlendLo(prev, Cell(bitmap, p, row, dx), off, p.color, k);
    }
  }

  /** A bit at or below the offset is a row of the band's own image row. */
  lemma BandRowOwn(y: int, band: int, k: int, rows: int)
    requires 0 <= YOffset(y) <= k < 8
    ensures var row, dy := band - SRow(y), 8 * band + k - y;
            (0 <= dy < 8 * rows <==> 0 <= row < rows) && (0 <= dy ==> dy / 8 == row && dy % 8 == k - YOffset(y))
  {
    Placement(y);
    ImagePosition(8 * band + k - y, band - SRow(y), k - YOffset(y));
  }

  /** A bit above the offset is a row of the image row above. */
  lemma BandRowAbove(y: int, band: int, k: int, rows: int)
    requires 0 <= k < YOffset(y) <= 8
    ensures var row, dy := band - SRow(y), 8 * band + k - y;
            (0 <= dy < 8 * rows <==> 0 <= row - 1 < rows) && (0 <= dy ==> dy / 8 == row - 1 && dy % 8 == k + 8 - YOffset(y))
  {
    Placement(y);
    ImagePosition(8 * band + k - y, band - SRow(y) - 1, k + 8 - YOffset(y));
  }

  /** Bit k of a finished byte in terms of the image pixel that lands on it. */
  lemma ByteBit(prev: bv8, band: int, col: int, bitmap: seq<bv8>, p: Blit, k: int)
    requires |bitmap| >= Rows(p.h) * p.w && 0 <= col - p.x < p.w && 0 <= k < 8
    ensures var dy := 8 * band + k - p.y;
            Bit(PartialByte(prev, band, col, bitmap, p, Rows(p.h), 0), k) ==
            if 0 <= dy < 8 * Rows(p.h) then BlendBit(Bit(prev, k), ImageBit(bitmap, p, col - p.x, dy), p.color)
            else Bit(prev, k)
  {
    var dx, off, row := col - p.x, YOffset(p.y), band - SRow(p.y);
    var v := HiPart(prev, off, row - 1, dx, bitmap, p, Rows(p.h), 0);
    assert PartialByte(prev, band, col, bitmap, p, Rows(p.h), 0) == LoPart(v, off, row, dx, bitmap, p, Rows(p.h), 0);
    if off <= k {
      BandRowOwn(p.y, band, k, Rows(p.h));
      ByteBitOwnRow(prev, off, row, dx, bitmap, p, k, 8 * band + k - p.y);
    } else {
      BandRowAbove(p.y, band, k, Rows(p.h));
      ByteBitRowAbove(prev, off, row, dx, bitmap, p, k, 8 * band + k - p.y);
    }
  }

  /** A bit at or below the offset comes from the band's own image row. */
  lemma ByteBitOwnRow(prev: bv8, off: int, row: int, dx: int, bitmap: seq<bv8>, p: Blit, k: int, dy: int)
    requires |bitmap| >= Rows(p.h) * p.w && 0 <= off <= k < 8 && 0 <= dx < p.w
    requires 0 <= dy < 8 * Rows(p.h) <==> 0 <= row < Rows(p.h)
    requires 0 <= dy ==> dy / 8 == row && dy % 8 == k - off
    ensures var v := HiPart(prev, off, row - 1, dx, bitmap, p, Rows(p.h), 0);
            Bit(LoPart(v, off, row, dx, bitmap, p, Rows(p.h), 0), k) ==
            if 0 <= dy < 8 * Rows(p.h) then BlendBit(Bit(prev, k), ImageBit(bitmap, p, dx, dy), p.color)
            else Bit(prev, k)
  {
    var v := HiPart(prev, off, row - 1, dx, bitmap, p, Rows(p.h), 0);
    HiPartBit(prev, off, row - 1, dx, bitmap, p, k);
    LoPartBit(v, off, row, dx, bitmap, p, k);
  }

  /** A bit above the offset is the spill of the image row above. */
  lemma ByteBitRowAbove(prev: bv8, off: int, row: int, dx: int, bitmap: seq<bv8>, p: Blit, k: int, dy: int)
    requires |bitmap| >= Rows(p.h) * p.w && 0 <= k < off <= 8 && 0 <= dx < p.w
    requires 0 <= dy < 8 * Rows(p.h) <==> 0 <= row - 1 < Rows(p.h)
    requires 0 <= dy ==> dy / 8 == row - 1 && dy % 8 == k + 8 - off
    ensures var v := HiPart(prev, off, row - 1, dx, bitmap, p, Rows(p.h), 0);
            Bit(LoPart(v, off, row, dx, bitmap, p, Rows(p.h), 0), k) ==
            if 0 <= dy < 8 * Rows(p.h) then BlendBit(Bit(prev, k), ImageBit(bitmap, p, dx, dy), p.color)
            else Bit(prev, k)
  {
    var v := HiPart(prev, off, row - 1, dx, bitmap, p, Rows(p.h), 0);
    HiPartBit(prev, off, row - 1, dx, bitmap, p, k);
    LoPartBit(v, off, row, dx, bitmap, p, k);
  }

  /** A pixel read through the spelled-out bit table. */
  lemma LitBit(buf: Buffer, q: Point)
    requires OnScreen(q)
    ensures Lit(buf, q) == Bit(buf[Offset(q)], q.y % 8)
    ensures q.y == 8 * (q.y / 8) + q.y % 8
  {
    MaskValue(q.y % 8);
  }

  /**
    * drawBitmap, pixel by pixel: inside the box, each screen pixel is combined
    * with the image pixel at the same place (OR for WHITE, clear for BLACK,
    * invert otherwise); outside it nothing changes.  The box is whole image
    * bands tall, so the padding bits below h in the last band are drawn too.
    */
  lemma BitmapPixel(buf: Buffer, bitmap: seq<bv8>, p: Blit, q: Point)
    requires |bitmap| >= Rows(p.h) * p.w && !OffScreen(p) && OnScreen(q)
    ensures Lit(BitmapBuffer(buf, bitmap, p), q) ==
            if InImage(p, q) then BlendBit(Lit(buf, q), ImageBit(bitmap, p, q.x - p.x, q.y - p.y), p.color)
            else Lit(buf, q)
  {
    var i := Offset(q);
    OffsetParts(q);
    var band, k := q.y / 8, q.y % 8;
    var r := BitmapBuffer(buf, bitmap, p);
    assert r[i] == PartialByte(buf[i], band, q.x, bitmap, p, Rows(p.h), 0);
    LitBit(r, q);
    LitBit(buf, q);
    if 0 <= q.x - p.x < p.w {
      ByteBit(buf[i], band, q.x, bitmap, p, k);
    }
  }

  /** Blitting the same image twice in an inverting colour restores the screen. */
  lemma BitmapInvertTwice(buf: Buffer, bitmap: seq<bv8>, p: Blit)
    requires |bitmap| >= Rows(p.h) * p.w
    requires p.color != WHITE && p.color != BLACK
    ensures BitmapBuffer(BitmapBuffer(buf, bitmap, p), bitmap, p) == buf
  {
    if !OffScreen(p) {
      var once := BitmapBuffer(buf, bitmap, p);
      forall q | OnScreen(q)
        ensures Lit(BitmapBuffer(once, bitmap, p), q) <==> Lit(buf, q)
      {
        BitmapPixel(buf, bitmap, p, q);
        BitmapPixel(once, bitmap, p, q);
      }
      BufferExt(BitmapBuffer(once, bitmap, p), buf);
    }
  }

  // ---------------------------------------------------------------------
  // drawBitmap's loops, one image byte at a time

  /** A buffer byte is the same at two points of the loop that agree on both image bytes it takes. */
  lemma ByteSame(prev: bv8, band: int, col: int, bitmap: seq<bv8>, p: Blit, A: int, C: int, A': int, C': int)
    requires |bitmap| >= Rows(p.h) * p.w
    requires var dx, row := col - p.x, band - SRow(p.y);
             0 <= dx < p.w ==> Done(row, dx, A, C) == Done(row, dx, A', C') &&
                               (YOffset(p.y) != 0 ==> Done(row - 1, dx, A, C) == Done(row - 1, dx, A', C'))
    ensures PartialByte(prev, band, col, bitmap, p, A, C) == PartialByte(prev, band, col, bitmap, p, A', C')
  {
  }

  /** An image byte left of the screen is skipped without effect. */
  lemma SkipColumn(buf: Buffer, bitmap: seq<bv8>, p: Blit, A: int, C: int, C': int)
    requires |bitmap| >= Rows(p.h) * p.w && 0 <= C < p.w && p.x + C < 0 && C' == C + 1
    ensures BitmapPartial(buf, bitmap, p, A, C) == BitmapPartial(buf, bitmap, p, A, C')
  {
    forall j | 0 <= j < BUFFER_SIZE
      ensures BitmapPartial(buf, bitmap, p, A, C)[j] == BitmapPartial(buf, bitmap, p, A, C')[j]
    {
      ByteSame(buf[j], j / WIDTH, j % WIDTH, bitmap, p, A, C, A, C');
    }
  }

  /** Past the last byte of an image band the loop goes on at the start of the next. */
  lemma RowEnd(buf: Buffer, bitmap: seq<bv8>, p: Blit, A: int)
    requires |bitmap| >= Rows(p.h) * p.w
    ensures BitmapPartial(buf, bitmap, p, A, p.w) == BitmapPartial(buf, bitmap, p, A + 1, 0)
  {
    forall j | 0 <= j < BUFFER_SIZE
      ensures BitmapPartial(buf, bitmap, p, A, p.w)[j] == BitmapPartial(buf, bitmap, p, A + 1, 0)[j]
    {
      ByteSame(buf[j], j / WIDTH, j % WIDTH, bitmap, p, A, p.w, A + 1, 0);
    }
  }

  /** Leaving an image band at the right edge of the screen loses nothing. */
  lemma ColumnsPast(buf: Buffer, bitmap: seq<bv8>, p: Blit, A: int, C: int)
    requires |bitmap| >= Rows(p.h) * p.w && p.x + C > WIDTH - 1
    ensures BitmapPartial(buf, bitmap, p, A, C) == BitmapPartial(buf, bitmap, p, A + 1, 0)
  {
    forall j | 0 <= j < BUFFER_SIZE
      ensures BitmapPartial(buf, bitmap, p, A, C)[j] == BitmapPartial(buf, bitmap, p, A + 1, 0)[j]
    {
      ByteSame(buf[j], j / WIDTH, j % WIDTH, bitmap, p, A, C, A + 1, 0);
    }
  }

  /** An image band two or more bands above the screen is skipped without effect. */
  lemma RowAbove(buf: Buffer, bitmap: seq<bv8>, p: Blit, A: int)
    requires |bitmap| >= Rows(p.h) * p.w && SRow(p.y) + A <= -2
    ensures BitmapPartial(buf, bitmap, p, A, 0) == BitmapPartial(buf, bitmap, p, A + 1, 0)
  {
    forall j | 0 <= j < BUFFER_SIZE
      ensures BitmapPartial(buf, bitmap, p, A, 0)[j] == BitmapPartial(buf, bitmap, p, A + 1, 0)[j]
    {
      ByteSame(buf[j], j / WIDTH, j % WIDTH, bitmap, p, A, 0, A + 1, 0);
    }
  }

  /** Stopping at the first image band below the screen loses nothing. */
  lemma RowsPast(buf: Buffer, bitmap: seq<bv8>, p: Blit, A: int)
    requires |bitmap| >= Rows(p.h) * p.w && SRow(p.y) + A > HEIGHT / 8 - 1 && A <= Rows(p.h)
    ensures BitmapPartial(buf, bitmap, p, A, 0) == BitmapPartial(buf, bitmap, p, Rows(p.h), 0)
  {
    forall j | 0 <= j < BUFFER_SIZE
      ensures BitmapPartial(buf, bitmap, p, A, 0)[j] == BitmapPartial(buf, bitmap, p, Rows(p.h), 0)[j]
    {
      ByteSame(buf[j], j / WIDTH, j % WIDTH, bitmap, p, A, 0, Rows(p.h), 0);
    }
  }

  /** The buffer byte under image byte (A, C) takes that byte, shifted down by the offset, when the loop reaches it. */
  lemma LoByte(prev: bv8, band: int, col: int, bitmap: seq<bv8>, p: Blit, A: int, C: int)
    requires |bitmap| >= Rows(p.h) * p.w && 0 <= A < Rows(p.h) && 0 <= C < p.w
    requires band == SRow(p.y) + A && col == p.x + C
    ensures PartialByte(prev, band, col, bitmap, p, A, C + 1) ==
            Blend(PartialByte(prev, band, col, bitmap, p, A, C), LoMask(Cell(bitmap, p, A, C), YOffset(p.y)), p.color)
  {
  }

  /** The buffer byte below takes the spill of image byte (A, C) at the same step. */
  lemma HiByte(prev: bv8, band: int, col: int, bitmap: seq<bv8>, p: Blit, A: int, C: int)
    requires |bitmap| >= Rows(p.h) * p.w && 0 <= A < Rows(p.h) && 0 <= C < p.w && YOffset(p.y) != 0
    requires band == SRow(p.y) + A + 1 && col == p.x + C
    ensures PartialByte(prev, band, col, bitmap, p, A, C + 1) ==
            Blend(PartialByte(prev, band, col, bitmap, p, A, C), HiMask(Cell(bitmap, p, A, C), YOffset(p.y)), p.color)
  {
  }

  /** Byte j of the buffer lies in band j / WIDTH and column j % WIDTH. */
  lemma BandColumn(j: int, band: int, col: int)
    requires j == band * WIDTH + col && 0 <= col < WIDTH
    ensures j / WIDTH == band && j % WIDTH == col
  {
  }

  /** Every other buffer byte is the same before and after image byte (A, C). */
  lemma OthersSame(orig: Buffer, bitmap: seq<bv8>, p: Blit, A: int, C: int, bRow: int, col: int, i: int, i2: int,
                   lo: bool, hi: bool)
    requires |bitmap| >= Rows(p.h) * p.w
    requires bRow == SRow(p.y) + A && col == p.x + C && 0 <= col < WIDTH && i == bRow * WIDTH + col && i2 == i + WIDTH
    requires lo == (bRow >= 0) && hi == (YOffset(p.y) != 0 && bRow < HEIGHT / 8 - 1)
    ensures forall j | 0 <= j < BUFFER_SIZE && !(lo && j == i) && !(hi && j == i2) ::
              BitmapPartial(orig, bitmap, p, A, C)[j] == BitmapPartial(orig, bitmap, p, A, C + 1)[j]
  {
    forall j | 0 <= j < BUFFER_SIZE && !(lo && j == i) && !(hi && j == i2)
      ensures BitmapPartial(orig, bitmap, p, A, C)[j] == BitmapPartial(orig, bitmap, p, A, C + 1)[j]
    {
      var band, c := j / WIDTH, j % WIDTH;
      assert band * WIDTH + c == j && 0 <= band;
      assert band == bRow ==> c != col;
      assert band == bRow + 1 && YOffset(p.y) != 0 ==> c != col;
      ByteSame(orig[j], band, c, bitmap, p, A, C, A, C + 1);
    }
  }

  /**
    * Two buffers that agree away from bytes i and i2, where the second holds
    * the values the (optional) updates write, are the updated first one.
    */
  lemma TwoUpdates(s: Buffer, t: Buffer, i: int, i2: int, lo: bool, hi: bool, v: bv8, v2: bv8, s1: Buffer, s2: Buffer)
    requires |s| == |t| && i < i2 && (lo ==> 0 <= i < |s|) && (hi ==> 0 <= i2 < |s|)
    requires forall j | 0 <= j < |s| && !(lo && j == i) && !(hi && j == i2) :: s[j] == t[j]
    requires lo ==> t[i] == v
    requires hi ==> t[i2] == v2
    requires s1 == if lo then s[i := v] else s
    requires s2 == if hi then s1[i2 := v2] else s1
    ensures s2 == t
  {
    assert forall j | 0 <= j < |s| :: s2[j] == t[j];
  }

  /**
    * One image byte b = (A, C) on the screen: blended, shifted down by the
    * offset, into band bRow when that band exists (buffer byte i), and its
    * spill blended into band bRow + 1 when there is a spill and that band
    * exists (buffer byte i2).
    */
  lemma ImageByteStep(orig: Buffer, bitmap: seq<bv8>, p: Blit, A: int, C: int, C': int, bRow: int, col: int, b: bv8,
                      i: int, i2: int, buf: Buffer, buf1: Buffer, buf2: Buffer)
    requires |bitmap| >= Rows(p.h) * p.w && 0 <= A < Rows(p.h) && 0 <= C < p.w && C' == C + 1
    requires bRow == SRow(p.y) + A && -2 < bRow <= HEIGHT / 8 - 1
    requires col == p.x + C && 0 <= col < WIDTH && i == bRow * WIDTH + col && i2 == i + WIDTH
    requires b == Cell(bitmap, p, A, C)
    requires buf == BitmapPartial(orig, bitmap, p, A, C)
    requires buf1 == if bRow >= 0 then buf[i := Blend(buf[i], LoMask(b, YOffset(p.y)), p.color)] else buf
    requires buf2 == if YOffset(p.y) != 0 && bRow < HEIGHT / 8 - 1
                     then buf1[i2 := Blend(buf1[i2], HiMask(b, YOffset(p.y)), p.color)] else buf1
    ensures buf2 == BitmapPartial(orig, bitmap, p, A, C')
  {
    var next := BitmapPartial(orig, bitmap, p, A, C');
    var lo := bRow >= 0;
    var hi := YOffset(p.y) != 0 && bRow < HEIGHT / 8 - 1;
    var v := if lo then Blend(buf[i], LoMask(b, YOffset(p.y)), p.color) else 0;
    var v2 := if hi then Blend(buf1[i2], HiMask(b, YOffset(p.y)), p.color) else 0;
    if lo {
      BandColumn(i, bRow, col);
      LoByte(orig[i], bRow, col, bitmap, p, A, C);
    }
    if hi {
      BandColumn(i2, bRow + 1, col);
      HiByte(orig[i2], bRow + 1, col, bitmap, p, A, C);
      assert buf1[i2] == buf[i2];
    }
    OthersSame(orig, bitmap, p, A, C, bRow, col, i, i2, lo, hi);
    TwoUpdates(buf, next, i, i2, lo, hi, v, v2, buf1, buf2);
  }

  /** Bytes per image row of a row-major bitmap: w / 8 rounded up. */
  function ByteWidth(w: u8): (r: int)
    ensures 8 * r - 8 < w <= 8 * r && 0 <= r <= 32
  {
    (w + 7) / 8
  }

  /** Pixel (xi, yi) of a row-major image, most significant bit leftmost. */
  predicate SlowBit(bitmap: seq<bv8>, p: Blit, xi: int, yi: int)
    requires |bitmap| >= p.h * ByteWidth(p.w)
    requires 0 <= xi < p.w && 0 <= yi < p.h
  {
    assert xi / 8 < ByteWidth(p.w);
    IndexBound(yi, xi / 8, ByteWidth(p.w), p.h);
    bitmap[yi * ByteWidth(p.w) + xi / 8] & ((128 as bv8) >> (xi % 8)) != 0
  }

  /** The pixels drawSlowXYBitmap plots in image row yi from column xi on, left to right. */
  function SlowRow(bitmap: seq<bv8>, p: Blit, yi: int, xi: nat): seq<Point>
    requires |bitmap| >= p.h * ByteWidth(p.w) && 0 <= yi < p.h
    decreases p.w - xi
  {
    if xi >= p.w then []
    else (if SlowBit(bitmap, p, xi, yi) then [Point(p.x + xi, p.y + yi)] else []) + SlowRow(bitmap, p, yi, xi + 1)
  }

  /** One turn of drawSlowXYBitmap's inner loop: pixel q is plotted when its image bit is set, then the row goes on. */
  lemma SlowRowStep(buf: Buffer, bitmap: seq<bv8>, p: Blit, yi: int, xi: nat, xi': nat, q: Point, lit: bool)
    requires |bitmap| >= p.h * ByteWidth(p.w) && 0 <= yi < p.h && xi < p.w && xi' == xi + 1
    requires q == Point(p.x + xi, p.y + yi) && lit == SlowBit(bitmap, p, xi, yi)
    ensures PlotAll(buf, SlowRow(bitmap, p, yi, xi), p.color) ==
            PlotAll(if lit then Plot(buf, q, p.color) else buf, SlowRow(bitmap, p, yi, xi'), p.color)
  {
    var rest := SlowRow(bitmap, p, yi, xi');
    if lit {
      assert SlowRow(bitmap, p, yi, xi) == [q] + rest;
      assert ([q] + rest)[0] == q && ([q] + rest)[1..] == rest;
    } else {
      assert SlowRow(bitmap, p, yi, xi) == [] + rest == rest;
    }
  }

  /** The pixels plotted from image row yi on, top to bottom. */
  function SlowRows(bitmap: seq<bv8>, p: Blit, yi: nat): seq<Point>
    requires |bitmap| >= p.h * ByteWidth(p.w)
    decreases p.h - yi
  {
    if yi >= p.h then [] else SlowRow(bitmap, p, yi, 0) + SlowRows(bitmap, p, yi + 1)
  }

  /** The effect of `drawSlowXYBitmap`: each set image pixel drawn with drawPixel. */
  function SlowBitmapBuffer(buf: Buffer, bitmap: seq<bv8>, p: Blit): Buffer
    requires |bitmap| >= p.h * ByteWidth(p.w)
  {
    if OffScreen(p) then buf else PlotAll(buf, SlowRows(bitmap, p, 0), p.color)
  }

  lemma {:induction false} SlowRowMembers(bitmap: seq<bv8>, p: Blit, yi: int, xi: nat, q: Point)
    requires |bitmap| >= p.h * ByteWidth(p.w) && 0 <= yi < p.h
    ensures q in SlowRow(bitmap, p, yi, xi) <==>
            q.y == p.y + yi && xi <= q.x - p.x < p.w && SlowBit(bitmap, p, q.x - p.x, yi)
    decreases p.w - xi
  {
    if xi < p.w {
      SlowRowMembers(bitmap, p, yi, xi + 1, q);
    }
  }

  lemma {:induction false} SlowRowsMembers(bitmap: seq<bv8>, p: Blit, yi: nat, q: Point)
    requires |bitmap| >= p.h * ByteWidth(p.w)
    ensures q in SlowRows(bitmap, p, yi) <==>
            yi <= q.y - p.y < p.h && 0 <= q.x - p.x < p.w && SlowBit(bitmap, p, q.x - p.x, q.y - p.y)
    decreases p.h - yi
  {
    if yi < p.h {
      SlowRowMembers(bitmap, p, yi, 0, q);
      SlowRowsMembers(bitmap, p, yi + 1, q);
    }
  }

  /**
    * drawSlowXYBitmap, pixel by pixel: unless the box is off the screen, a
    * pixel under a set image bit takes the colour (set for nonzero, cleared
    * for zero) and every other pixel keeps its value.
    */
  lemma SlowBitmapPixel(buf: Buffer, bitmap: seq<bv8>, p: Blit, q: Point)
    requires |bitmap| >= p.h * ByteWidth(p.w) && OnScreen(q)
    ensures Lit(SlowBitmapBuffer(buf, bitmap, p), q) ==
            if !OffScreen(p) && 0 <= q.x - p.x < p.w && 0 <= q.y - p.y < p.h && SlowBit(bitmap, p, q.x - p.x, q.y - p.y)
            then p.color != 0 else Lit(buf, q)
  {
    if !OffScreen(p) {
      PlotAllPixel(buf, SlowRows(bitmap, p, 0), p.color, q);
      SlowRowsMembers(bitmap, p, 0, q);
    }
  }
}
