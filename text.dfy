/**
  * `Arduboy`: the text layer over `ArduboyBase`.  It keeps a cursor and the
  * text attributes, and `write` draws one character at the cursor with
  * `drawChar` and moves the cursor on.  The cursor coordinates are
  * `int16_t` fields, so every update wraps around as two's complement.
  * The font table is a parameter of `Write`.
  */
module Text {
  import opened CInt
  import opened FrameBuffer
  import opened Glyphs
  import Base

  const NEWLINE: u8 := 10
  const CARRIAGE_RETURN: u8 := 13

  /** The text fields of `Arduboy`. */
  datatype TextState = TextState(
    cursorX: i16,
    cursorY: i16,
    textColor: u8,
    textBackground: u8,
    textSize: u8,
    textWrap: bool)

  /** The constructor's values: cursor at the origin, white on black, size 1, no wrapping. */
  function InitialState(): (r: TextState)
    ensures r.cursorX == 0 && r.cursorY == 0
    ensures r.textColor == WHITE && r.textBackground == BLACK
    ensures r.textSize == 1 && !r.textWrap
  {
    TextState(0, 0, 1, 0, 1, false)
  }

  /** The horizontal advance of one character: six font columns of `textSize` pixels each. */
  function Advance(t: TextState): int {
    t.textSize * 6
  }

  /** `write('\n')`: back to the left edge, one line of eight `textSize` pixel rows down. */
  function Newline(t: TextState): (r: TextState)
    ensures r.cursorX == 0 && r.cursorY == Wrap16(t.cursorY + t.textSize * 8)
    ensures r.(cursorX := t.cursorX, cursorY := t.cursorY) == t
  {
    t.(cursorY := Wrap16(t.cursorY + t.textSize * 8), cursorX := 0)
  }

  /**
    * The cursor after `write(c)`.  A newline starts a new line, a carriage
    * return changes nothing, and any other character moves the cursor one
    * advance to the right; with wrapping on, a cursor that has then passed
    * the last position where a whole character fits starts a new line.
    */
  function WriteStep(t: TextState, c: u8): TextState {
    if c == NEWLINE then Newline(t)
    else if c == CARRIAGE_RETURN then t
    else
      var moved := t.(cursorX := Wrap16(t.cursorX + Advance(t)));
      if t.textWrap && moved.cursorX > WIDTH - Advance(t) then Newline(moved) else moved
  }

  /** The drawChar call that `write(c)` makes for a printable character. */
  function CharAt(t: TextState, c: u8): Glyph {
    Glyph(t.cursorX, t.cursorY, c, t.textColor, t.textBackground, t.textSize)
  }

  /** The buffer after `write(c)`: only characters other than newline and carriage return are drawn. */
  function WriteScreen(buf: Buffer, font: seq<bv8>, t: TextState, c: u8): Buffer
    requires |font| >= FONT_SIZE
  {
    if c == NEWLINE || c == CARRIAGE_RETURN then buf else CharBuffer(buf, font, CharAt(t, c))
  }

  /** `setTextSize(s)`: the size is at least 1. */
  function WithTextSize(t: TextState, s: u8): (r: TextState)
    ensures r.textSize >= 1 && (s >= 1 ==> r.textSize == s) && (s == 0 ==> r.textSize == 1)
    ensures r.(textSize := t.textSize) == t
  {
    t.(textSize := Max(1, s))
  }

  /** `getCursorX()` and `getCursorY()` return the `int16_t` field as a `uint16_t`. */
  function AsU16(v: i16): (r: int)
    ensures 0 <= r < 0x1_0000 && Wrap16(r) == v
    ensures v >= 0 ==> r == v
    ensures v < 0 ==> r == v + 0x1_0000
  {
    if v < 0 then v + 0x1_0000 else v
  }

  /** The cursor after each of `cs` in turn. */
  function WriteAll(t: TextState, cs: seq<u8>): TextState
    decreases |cs|
  {
    if cs == [] then t else WriteAll(WriteStep(t, cs[0]), cs[1..])
  }

  // ---------------------------------------------------------------------
  // Properties of write

  /** A newline resets the column and moves down by 8 * textSize; a carriage return is a no-op. */
  lemma ControlCharacters(t: TextState, font: seq<bv8>, buf: Buffer)
    requires |font| >= FONT_SIZE
    ensures WriteStep(t, NEWLINE).cursorX == 0
    ensures WriteStep(t, NEWLINE).cursorY == Wrap16(t.cursorY + 8 * t.textSize)
    ensures WriteStep(t, CARRIAGE_RETURN) == t
    ensures WriteScreen(buf, font, t, NEWLINE) == buf && WriteScreen(buf, font, t, CARRIAGE_RETURN) == buf
  {
  }

  /**
    * Any other character is drawn at the cursor as it was before the call,
    * and the cursor advances by 6 * textSize; it returns to the left edge
    * of the next line exactly when wrapping is on and the advanced cursor
    * lies past WIDTH - 6 * textSize.  The text attributes never change.
    */
  lemma PrintableCharacter(t: TextState, c: u8, font: seq<bv8>, buf: Buffer)
    requires |font| >= FONT_SIZE && c != NEWLINE && c != CARRIAGE_RETURN
    ensures WriteScreen(buf, font, t, c) == CharBuffer(buf, font, Glyph(t.cursorX, t.cursorY, c, t.textColor, t.textBackground, t.textSize))
    ensures var r, x := WriteStep(t, c), Wrap16(t.cursorX + 6 * t.textSize);
            if t.textWrap && x > WIDTH - 6 * t.textSize
            then r.cursorX == 0 && r.cursorY == Wrap16(t.cursorY + 8 * t.textSize)
            else r.cursorX == x && r.cursorY == t.cursorY
    ensures WriteStep(t, c).(cursorX := t.cursorX, cursorY := t.cursorY) == t
  {
  }

  /**
    * With wrapping on, a cursor in the band where a whole character fits
    * stays in that band after any write, so every character drawn from it
    * lies inside the screen's width.
    */
  lemma WrapKeepsCursorInside(t: TextState, c: u8)
    requires t.textWrap && t.textSize >= 1 && 6 * t.textSize <= WIDTH
    requires 0 <= t.cursorX <= WIDTH - 6 * t.textSize
    ensures var r := WriteStep(t, c);
            0 <= r.cursorX <= WIDTH - 6 * r.textSize && r.textWrap && r.textSize == t.textSize
  {
  }

  /** The glyph drawn at the cursor ends just left of the advanced cursor: consecutive characters neither overlap nor leave a gap. */
  lemma AdvanceIsGlyphWidth(t: TextState, c: u8, q: Point)
    requires -0x8000 <= t.cursorX + 6 * t.textSize < 0x8000
    requires c != NEWLINE && c != CARRIAGE_RETURN && !t.textWrap
    ensures InGrid(CharAt(t, c), q) ==> t.cursorX <= q.x < WriteStep(t, c).cursorX
    ensures q.x == WriteStep(t, c).cursorX && t.textSize > 0 && 0 <= q.y - t.cursorY < 8 * t.textSize ==>
              InGrid(CharAt(WriteStep(t, c), c), q) && !InGrid(CharAt(t, c), q)
  {
    InGridBox(CharAt(t, c), q);
    InGridBox(CharAt(WriteStep(t, c), c), q);
  }

  /**
    * The wrap is decided after the character is drawn: from a cursor past
    * the last whole-character position the character is drawn there,
    * partly off the right edge, and only the cursor moves to the next line.
    */
  lemma WrapAfterDrawing()
    ensures var t := InitialState().(cursorX := 125, textWrap := true);
            var r := WriteStep(t, 65);
            CharAt(t, 65).x == 125 && !Clipped(CharAt(t, 65)) && r.cursorX == 0 && r.cursorY == 8
  {
  }

  /**
    * Without wrapping, a run of printable characters moves the cursor right
    * by 6 * textSize per character, modulo the 16-bit field.
    */
  lemma {:induction false} RunAdvances(t: TextState, cs: seq<u8>)
    requires !t.textWrap
    requires forall k :: 0 <= k < |cs| ==> cs[k] != NEWLINE && cs[k] != CARRIAGE_RETURN
    ensures var r := WriteAll(t, cs);
            r.cursorX == Wrap16(t.cursorX + |cs| * (6 * t.textSize)) && r.(cursorX := t.cursorX) == t
    decreases |cs|
  {
    if cs != [] {
      var t1 := WriteStep(t, cs[0]);
      RunAdvances(t1, cs[1..]);
      WrapTwice(t.cursorX + 6 * t.textSize, (|cs| - 1) * (6 * t.textSize));
    }
  }

  /** Wrapping an intermediate sum to 16 bits does not change the wrapped total. */
  lemma WrapTwice(a: int, b: int)
    ensures Wrap16(Wrap16(a) + b) == Wrap16(a + b)
  {
    var k := (a - Wrap16(a)) / 0x1_0000;
    assert Wrap16(a) + b == (a + b) - k * 0x1_0000;
    ModShift(a + b + 0x8000, k);
  }

  /** Subtracting a multiple of 0x10000 leaves the remainder alone. */
  lemma ModShift(n: int, k: int)
    ensures (n - k * 0x1_0000) % 0x1_0000 == n % 0x1_0000
  {
    ModUnique(n - k * 0x1_0000, 0x1_0000, n / 0x1_0000 - k, n % 0x1_0000);
  }

  /** After a newline the next character is drawn at the left edge, one line down (for sizes where two characters fit a line). */
  lemma NewlineThenChar(t: TextState, c: u8)
    requires c != NEWLINE && c != CARRIAGE_RETURN && 12 * t.textSize <= WIDTH
    ensures var r := WriteAll(t, [NEWLINE, c]);
            r.cursorY == Wrap16(t.cursorY + 8 * t.textSize) && r.cursorX == 6 * t.textSize
  {
    var t1 := WriteStep(t, NEWLINE);
    var t2 := WriteStep(t1, c);
    assert t2.cursorX == 6 * t.textSize && t2.cursorY == t1.cursorY;
    assert [NEWLINE, c][1..] == [c];
    assert WriteAll(t1, [c]) == WriteAll(t2, []) by { assert [c][1..] == []; }
  }

  // ---------------------------------------------------------------------
  // The class

  /** `Arduboy`: an `ArduboyBase` together with the text cursor and attributes. */
  class Arduboy {
    const base: Base.ArduboyBase

    var cursorX: i16
    var cursorY: i16
    var textColor: u8
    var textBackground: u8
    var textSize: u8
    var textWrap: bool

    /** The text fields as one value. */
    function State(): TextState
      reads this
    {
      TextState(cursorX, cursorY, textColor, textBackground, textSize, textWrap)
    }

    /** The constructor: the base class's set-up, then the text defaults. */
    constructor()
      ensures base.Valid() && fresh(base) && fresh(base.sBuffer)
      ensures State() == InitialState()
      ensures base.Screen() == Filled(BLACK)
    {
      base := new Base.ArduboyBase();
      cursorX := 0;
      cursorY := 0;
      textColor := 1;
      textBackground := 0;
      textSize := 1;
      textWrap := false;
    }

    /**
      * `write(c)`: draws the character at the cursor and advances the
      * cursor; a line break, including the one wrapping forces, is a
      * recursive `write('\n')`.
      */
    method Write(c: u8, font: seq<bv8>)
      requires base.Drawable() && |font| >= FONT_SIZE
      modifies this, base.sBuffer
      ensures State() == WriteStep(old(State()), c)
      ensures base.Screen() == WriteScreen(old(base.Screen()), font, old(State()), c)
      decreases if c == NEWLINE then 0 else 1
    {
      if c == NEWLINE {
        cursorY := Wrap16(cursorY + textSize * 8);
        cursorX := 0;
      } else if c == CARRIAGE_RETURN {
      } else {
        base.DrawChar(cursorX, cursorY, c, textColor, textBackground, textSize, font);
        cursorX := Wrap16(cursorX + textSize * 6);
        if textWrap && cursorX > WIDTH - textSize * 6 {
          Write(NEWLINE, font);
        }
      }
    }

    /** `setCursor(x, y)`. */
    method SetCursor(x: i16, y: i16)
      modifies this
      ensures State() == old(State()).(cursorX := x, cursorY := y)
    {
      cursorX := x;
      cursorY := y;
    }

    /** `getCursorX()`: the column as an unsigned 16-bit value. */
    method GetCursorX() returns (r: int)
      ensures 0 <= r < 0x1_0000 && Wrap16(r) == cursorX
      ensures r == AsU16(cursorX)
    {
      r := if cursorX < 0 then cursorX + 0x1_0000 else cursorX;
    }

    /** `getCursorY()`: the row as an unsigned 16-bit value. */
    method GetCursorY() returns (r: int)
      ensures 0 <= r < 0x1_0000 && Wrap16(r) == cursorY
      ensures r == AsU16(cursorY)
    {
      r := if cursorY < 0 then cursorY + 0x1_0000 else cursorY;
    }

    /** `setTextColor(color)`. */
    method SetTextColor(color: u8)
      modifies this
      ensures State() == old(State()).(textColor := color)
    {
      textColor := color;
    }

    /** `setTextBackground(bg)`. */
    method SetTextBackground(bg: u8)
      modifies this
      ensures State() == old(State()).(textBackground := bg)
    {
      textBackground := bg;
    }

    /** `setTextSize(s)`: never below 1. */
    method SetTextSize(s: u8)
      modifies this
      ensures State() == WithTextSize(old(State()), s)
    {
      textSize := Max(1, s);
    }

    /** `setTextWrap(w)`. */
    method SetTextWrap(w: bool)
      modifies this
      ensures State() == old(State()).(textWrap := w)
    {
      textWrap := w;
    }

    /** `clear()`: clears the screen buffer and puts the cursor back at the origin. */
    method Clear()
      requires base.Drawable()
      modifies this, base.sBuffer
      ensures base.Screen() == Filled(BLACK)
      ensures State() == old(State()).(cursorX := 0, cursorY := 0)
    {
      base.Clear();
      cursorX := 0;
      cursorY := 0;
    }
  }
}
