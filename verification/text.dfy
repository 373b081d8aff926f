/** The HUD text renderer: `drawChar` finds a character in the font's
    character map and plots its glyph pixel by pixel; `drawText` lays a
    string out left to right on an `uint8_t` cursor. */
module Text {
  import opened Bits
  import opened Arith
  import opened Framebuffer

  /** The external font: `charMap` is `CHAR_MAP`, `glyphs` the flash bytes
      from `bmp_font` on, `stride` is `bmp_font_width` (bytes per glyph row;
      each byte holds two glyphs side by side), `width` and `height` are
      `CHAR_WIDTH` and `CHAR_HEIGHT`. */
  datatype Font = Font(charMap: seq<char>, glyphs: seq<bv8>, stride: nat, width: nat, height: nat) {
    /** The map is terminated by a `'\0'` that an `uint8_t` scan reaches, the
        glyph rows reach the terminator's glyph, a glyph is at most a nibble
        wide, and the `uint8_t` row counter can pass the last row. */
    predicate Valid() {
      var nul := Stop(charMap, '\0', 0);
      nul < |charMap| && nul < 0x100 && nul / 2 < stride
      && height * stride <= |glyphs| && width <= 4 && height < 0x100
    }
  }

  /** Where a scan of `m` from index `c` stops: the first entry equal to `ch`
      or to `'\0'`, or `|m|` when there is none. */
  function Stop(m: seq<char>, ch: char, c: nat): (r: nat)
    requires c <= |m|
    ensures c <= r <= |m|
    ensures r < |m| ==> m[r] == ch || m[r] == '\0'
    ensures forall k | c <= k < r :: m[k] != ch && m[k] != '\0'
    decreases |m| - c
  {
    if c == |m| || m[c] == ch || m[c] == '\0' then c else Stop(m, ch, c + 1)
  }

  /** No scan runs past the terminator. */
  lemma StopAtTerminator(m: seq<char>, ch: char)
    requires Stop(m, '\0', 0) < |m|
    ensures Stop(m, ch, 0) <= Stop(m, '\0', 0)
  {
    var nul := Stop(m, '\0', 0);
    assert m[nul] == '\0';
  }

  /** The glyph `drawChar` uses for `ch`: the first map entry equal to `ch`,
      or the terminator's glyph when `ch` is not in the map. */
  function GlyphIndex(font: Font, ch: char): (c: nat)
    requires font.Valid()
    ensures c < |font.charMap| && c < 0x100 && c / 2 < font.stride
    ensures font.charMap[c] == ch || font.charMap[c] == '\0'
    ensures forall k | 0 <= k < c :: font.charMap[k] != ch && font.charMap[k] != '\0'
  {
    StopAtTerminator(font.charMap, ch);
    Stop(font.charMap, ch, 0)
  }

  /** The `uint8_t` scan at the start of `drawChar`. */
  method FindGlyph(font: Font, ch: char) returns (c: u8)
    requires font.Valid()
    ensures c == GlyphIndex(font, ch)
  {
    var g := GlyphIndex(font, ch);
    c := 0;
    while font.charMap[c] != ch && font.charMap[c] != '\0'
      invariant c <= g
      decreases g - c
    {
      c := c + 1;
    }
  }

  lemma GlyphRowInBounds(font: Font, c: nat, line: nat)
    requires font.Valid() && c / 2 < font.stride && line < font.height
    ensures line * font.stride + c / 2 < |font.glyphs|
  {
    MulMonotone(font.stride, line, font.height - 1);
    assert (font.height - 1) * font.stride + font.stride == font.height * font.stride;
  }

  /** The byte holding row `line` of glyph `c` (and of its neighbour). */
  function GlyphByte(font: Font, c: nat, line: nat): bv8
    requires font.Valid() && c / 2 < font.stride && line < font.height
  {
    GlyphRowInBounds(font, c, line);
    font.glyphs[line * font.stride + c / 2]
  }

  /** Pixel `n` of row `line` of glyph `c`, read MSB-first from the high
      nibble for an even `c` and from the low nibble for an odd one. */
  predicate GlyphBit(font: Font, c: nat, line: nat, n: nat)
    requires font.Valid() && c / 2 < font.stride && line < font.height && n < font.width
  {
    MsbBit(GlyphByte(font, c, line), (if c % 2 == 0 then 0 else 4) + n)
  }

  /** Even glyphs are bits 7..4 of their byte, odd glyphs bits 3..0, left to right. */
  lemma GlyphNibbles(font: Font, c: nat, line: nat, n: nat)
    requires font.Valid() && c / 2 < font.stride && line < font.height && n < font.width
    ensures c % 2 == 0 ==> GlyphBit(font, c, line, n) == LsbBit(GlyphByte(font, c, line), 7 - n)
    ensures c % 2 == 1 ==> GlyphBit(font, c, line, n) == LsbBit(GlyphByte(font, c, line), 3 - n)
  {
    MsbIsMirroredLsb(GlyphByte(font, c, line), (if c % 2 == 0 then 0 else 4) + n);
  }

  // ---------------------------------------------------------------- drawChar

  /** The call for pixel `n` of row `line`: white, full-screen mode, at
      coordinates converted back to `int8_t`. */
  function CharPlot(x: i8, y: i8, n: int, line: int): Plot {
    Plot(ToInt8(x + n), ToInt8(y + line), true, false)
  }

  /** The calls for the first `k` pixels of row `line` of glyph `c`. */
  function CharLine(font: Font, x: i8, y: i8, c: nat, line: nat, k: nat): seq<Plot>
    requires font.Valid() && c / 2 < font.stride && line < font.height && k <= font.width
  {
    if k == 0 then []
    else CharLine(font, x, y, c, line, k - 1) + (if GlyphBit(font, c, line, k - 1) then [CharPlot(x, y, k - 1, line)] else [])
  }

  /** The calls for the first `m` rows of glyph `c`. */
  function CharLines(font: Font, x: i8, y: i8, c: nat, m: nat): seq<Plot>
    requires font.Valid() && c / 2 < font.stride && m <= font.height
  {
    if m == 0 then [] else CharLines(font, x, y, c, m - 1) + CharLine(font, x, y, c, m - 1, font.width)
  }

  /** All calls of glyph `c` drawn at (x, y), row by row. */
  function CharPlots(font: Font, x: i8, y: i8, c: nat): seq<Plot>
    requires font.Valid() && c / 2 < font.stride
  {
    CharLines(font, x, y, c, font.height)
  }

  /** One pass of the inner loop: pixel `n` of row `line` is drawn when bit
      `n` of the glyph's nibble in byte `b` is set. */
  method DrawCharPixelStep(r0: Buffer, r: Buffer, font: Font, x: i8, y: i8, c: nat, line: nat, b: bv8, n: u8)
    returns (r': Buffer)
    requires font.Valid() && c / 2 < font.stride && line < font.height && n < font.width
    requires b == GlyphByte(font, c, line)
    requires r == Apply(r0, CharLine(font, x, y, c, line, n))
    ensures r' == Apply(r0, CharLine(font, x, y, c, line, n + 1))
  {
    var before := CharLine(font, x, y, c, line, n);
    if MsbBit(b, (if c % 2 == 0 then 0 else 4) + n) {
      assert CharLine(font, x, y, c, line, n + 1) == before + [CharPlot(x, y, n, line)];
      ApplySnoc(r0, before, CharPlot(x, y, n, line));
      r' := DrawPixel(r, ToInt8(x + n), ToInt8(y + line), true, false);
    } else {
      assert CharLine(font, x, y, c, line, n + 1) == before + [];
      assert before + [] == before;
      r' := r;
    }
  }

  /** The inner `for (n ...)` loop of `drawChar` on row `line`. */
  method DrawCharLine(r0: Buffer, font: Font, x: i8, y: i8, c: nat, line: nat) returns (r: Buffer)
    requires font.Valid() && c / 2 < font.stride && line < font.height
    ensures r == Apply(r0, CharLine(font, x, y, c, line, font.width))
  {
    GlyphRowInBounds(font, c, line);
    var b := font.glyphs[line * font.stride + c / 2];
    r := r0;
    var n: u8 := 0;
    while n < font.width
      invariant n <= font.width
      invariant r == Apply(r0, CharLine(font, x, y, c, line, n))
    {
      r := DrawCharPixelStep(r0, r, font, x, y, c, line, b, n);
      n := n + 1;
    }
  }

  /** `drawChar(x, y, ch)`. */
  method DrawChar(buf: Buffer, font: Font, x: i8, y: i8, ch: char) returns (r: Buffer)
    requires font.Valid()
    ensures r == Apply(buf, CharPlots(font, x, y, GlyphIndex(font, ch)))
  {
    var c := FindGlyph(font, ch);
    r := buf;
    var line: u8 := 0;
    while line < font.height
      invariant line <= font.height
      invariant r == Apply(buf, CharLines(font, x, y, c, line))
    {
      ApplyAppend(buf, CharLines(font, x, y, c, line), CharLine(font, x, y, c, line, font.width));
      r := DrawCharLine(r, font, x, y, c, line);
      line := line + 1;
    }
  }

  /** The call for pixel (n, line) is made exactly when its glyph bit is set. */
  predicate CharDrawn(font: Font, x: i8, y: i8, c: nat, p: Plot, n: int, line: int)
    requires font.Valid() && c / 2 < font.stride
  {
    0 <= n < font.width && 0 <= line < font.height && GlyphBit(font, c, line, n) && p == CharPlot(x, y, n, line)
  }

  lemma {:induction false} CharLineOrigin(font: Font, x: i8, y: i8, c: nat, line: nat, k: nat, p: Plot)
    returns (n: int)
    requires font.Valid() && c / 2 < font.stride && line < font.height && k <= font.width
    requires p in CharLine(font, x, y, c, line, k)
    ensures n < k && CharDrawn(font, x, y, c, p, n, line)
  {
    if k > 0 {
      var init := CharLine(font, x, y, c, line, k - 1);
      var last := if GlyphBit(font, c, line, k - 1) then [CharPlot(x, y, k - 1, line)] else [];
      InEither(init, last, p);
      if p in init {
        n := CharLineOrigin(font, x, y, c, line, k - 1, p);
      } else {
        n := k - 1;
      }
    }
  }

  lemma {:induction false} CharLineComplete(font: Font, x: i8, y: i8, c: nat, line: nat, k: nat, n: int, p: Plot)
    requires font.Valid() && c / 2 < font.stride && line < font.height && k <= font.width
    requires n < k && CharDrawn(font, x, y, c, p, n, line)
    ensures p in CharLine(font, x, y, c, line, k)
  {
    var init := CharLine(font, x, y, c, line, k - 1);
    var last := if GlyphBit(font, c, line, k - 1) then [CharPlot(x, y, k - 1, line)] else [];
    if n < k - 1 {
      CharLineComplete(font, x, y, c, line, k - 1, n, p);
      InLeft(init, last, p);
    } else {
      InRight(init, last, p);
    }
  }

  lemma {:induction false} CharLinesOrigin(font: Font, x: i8, y: i8, c: nat, m: nat, p: Plot)
    returns (n: int, line: int)
    requires font.Valid() && c / 2 < font.stride && m <= font.height
    requires p in CharLines(font, x, y, c, m)
    ensures line < m && CharDrawn(font, x, y, c, p, n, line)
  {
    if m > 0 {
      var rows := CharLines(font, x, y, c, m - 1);
      var row := CharLine(font, x, y, c, m - 1, font.width);
      InEither(rows, row, p);
      if p in rows {
        n, line := CharLinesOrigin(font, x, y, c, m - 1, p);
      } else {
        line := m - 1;
        n := CharLineOrigin(font, x, y, c, line, font.width, p);
      }
    }
  }

  lemma {:induction false} CharLinesComplete(font: Font, x: i8, y: i8, c: nat, m: nat, n: int, line: int, p: Plot)
    requires font.Valid() && c / 2 < font.stride && m <= font.height
    requires line < m && CharDrawn(font, x, y, c, p, n, line)
    ensures p in CharLines(font, x, y, c, m)
  {
    var rows := CharLines(font, x, y, c, m - 1);
    var row := CharLine(font, x, y, c, m - 1, font.width);
    if line < m - 1 {
      CharLinesComplete(font, x, y, c, m - 1, n, line, p);
      InLeft(rows, row, p);
    } else {
      CharLineComplete(font, x, y, c, line, font.width, n, p);
      InRight(rows, row, p);
    }
  }

  /** Every call of a glyph sets a pixel, in full-screen mode. */
  lemma CharPlotsSet(font: Font, x: i8, y: i8, c: nat)
    requires font.Valid() && c / 2 < font.stride
    ensures forall p | p in CharPlots(font, x, y, c) :: p.color && !p.viewport
  {
    forall p | p in CharPlots(font, x, y, c)
      ensures p.color && !p.viewport
    {
      var n, line := CharLinesOrigin(font, x, y, c, font.height, p);
    }
  }

  /** The calls of glyph `c` that land on the on-screen pixel (px, py) are
      those of its set bit at (px - x, py - y). */
  lemma CharHits(font: Font, x: i8, y: i8, c: nat, px: int, py: int)
    requires font.Valid() && c / 2 < font.stride && font.height <= 0x80 && OnScreen(px, py)
    ensures (exists p :: p in CharPlots(font, x, y, c) && Hits(p, px, py))
        <==> (x <= px < x + font.width && y <= py < y + font.height && GlyphBit(font, c, py - y, px - x))
  {
    if exists p :: p in CharPlots(font, x, y, c) && Hits(p, px, py) {
      var p :| p in CharPlots(font, x, y, c) && Hits(p, px, py);
      CharHitInBox(font, x, y, c, px, py, p);
    }
    if x <= px < x + font.width && y <= py < y + font.height && GlyphBit(font, c, py - y, px - x) {
      CharBoxHit(font, x, y, c, px, py);
    }
  }

  /** A call of glyph `c` landing on (px, py) comes from its set bit there. */
  lemma CharHitInBox(font: Font, x: i8, y: i8, c: nat, px: int, py: int, p: Plot)
    requires font.Valid() && c / 2 < font.stride && font.height <= 0x80 && OnScreen(px, py)
    requires p in CharPlots(font, x, y, c) && Hits(p, px, py)
    ensures x <= px < x + font.width && y <= py < y + font.height && GlyphBit(font, c, py - y, px - x)
  {
    var n, line := CharLinesOrigin(font, x, y, c, font.height, p);
    WrapInjective(x + n, px);
    WrapInjective(y + line, py);
  }

  /** A set bit of glyph `c` over (px, py) yields a call landing there. */
  lemma CharBoxHit(font: Font, x: i8, y: i8, c: nat, px: int, py: int)
    requires font.Valid() && c / 2 < font.stride && OnScreen(px, py)
    requires x <= px < x + font.width && y <= py < y + font.height && GlyphBit(font, c, py - y, px - x)
    ensures CharPlot(x, y, px - x, py - y) in CharPlots(font, x, y, c) && Hits(CharPlot(x, y, px - x, py - y), px, py)
  {
    CharLinesComplete(font, x, y, c, font.height, px - x, py - y, CharPlot(x, y, px - x, py - y));
  }

  /** `drawChar` only sets pixels, and only inside its `width` by `height`
      box: an on-screen pixel ends lit exactly when it was lit or it lies in
      the box over a set bit of the glyph. */
  lemma DrawCharPixel(buf: Buffer, font: Font, x: i8, y: i8, ch: char, px: int, py: int)
    requires font.Valid() && font.height <= 0x80 && OnScreen(px, py)
    ensures var c := GlyphIndex(font, ch);
      GetPixel(Apply(buf, CharPlots(font, x, y, c)), px, py)
        == (GetPixel(buf, px, py)
            || (x <= px < x + font.width && y <= py < y + font.height && GlyphBit(font, c, py - y, px - x)))
  {
    var c := GlyphIndex(font, ch);
    CharPlotsSet(font, x, y, c);
    ApplyOnlySets(buf, CharPlots(font, x, y, c), px, py);
    CharHits(font, x, y, c, px, py);
  }

  // ---------------------------------------------------------------- drawText

  /** The length of the C string `txt`: the index of its first `'\0'`. */
  function Length(txt: seq<char>): nat
  {
    Stop(txt, '\0', 0)
  }

  /** `txt` is terminated within the reach of the `uint8_t` index. */
  predicate CString(txt: seq<char>) {
    Length(txt) < |txt| && Length(txt) < 0x100
  }

  /** The cursor before character `k`: `x` converted to `uint8_t` and
      advanced `k` times by `advance`, modulo 256. */
  function Cursor(x: i8, advance: int, k: nat): u8 {
    Wrap8(x + k * advance)
  }

  /** The cursor step `CHAR_WIDTH + space`. */
  function Advance(font: Font, space: u8): nat {
    font.width + space
  }

  /** One advance of the `uint8_t` cursor. */
  lemma CursorStep(x: i8, advance: int, k: nat)
    ensures Wrap8(Cursor(x, advance, k) + advance) == Cursor(x, advance, k + 1)
  {
    var a := x + k * advance;
    var q := (a + advance) / 0x100;
    assert Cursor(x, advance, k) + advance == (q - a / 0x100) * 0x100 + (a + advance) % 0x100;
    DivModUnique(Cursor(x, advance, k) + advance, 0x100, q - a / 0x100, (a + advance) % 0x100);
    assert x + (k + 1) * advance == a + advance;
  }

  /** How many characters the RAM `drawText` draws from index `k` on: it
      stops at the terminator, or right after drawing a character whose
      advance takes the cursor past column 128. */
  function RamCount(txt: seq<char>, x: i8, advance: int, k: nat): (n: nat)
    requires k <= Length(txt) <= |txt|
    ensures k <= n <= Length(txt)
    ensures n == Length(txt) || (n > k && Cursor(x, advance, n) > SCREEN_WIDTH)
    ensures forall j | k < j < n :: Cursor(x, advance, j) <= SCREEN_WIDTH
    decreases Length(txt) - k
  {
    if k == Length(txt) then k
    else if Cursor(x, advance, k + 1) > SCREEN_WIDTH then k + 1
    else RamCount(txt, x, advance, k + 1)
  }

  /** How many characters the flash `drawText` draws from index `k` on: it
      checks the cursor is left of column 128 before each character. */
  function FlashCount(txt: seq<char>, x: i8, advance: int, k: nat): (n: nat)
    requires k <= Length(txt) <= |txt|
    ensures k <= n <= Length(txt)
    ensures n == Length(txt) || Cursor(x, advance, n) >= SCREEN_WIDTH
    ensures forall j | k <= j < n :: Cursor(x, advance, j) < SCREEN_WIDTH
    decreases Length(txt) - k
  {
    if k == Length(txt) || Cursor(x, advance, k) >= SCREEN_WIDTH then k
    else FlashCount(txt, x, advance, k + 1)
  }

  /** One `drawChar` call of `drawText`: the character and the cursor it is drawn at. */
  datatype Placement = Placement(ch: char, pos: u8)

  /** The first `n` calls: character `k` at cursor `k`. */
  function Placements(txt: seq<char>, x: i8, advance: int, n: nat): (calls: seq<Placement>)
    requires n <= |txt|
    ensures |calls| == n
    ensures forall k | 0 <= k < n :: calls[k] == Placement(txt[k], Cursor(x, advance, k))
  {
    seq(n, k requires 0 <= k < n => Placement(txt[k], Cursor(x, advance, k)))
  }

  /** The pixel calls of a run of `drawChar` calls on row `y`, the cursor
      converted back to `int8_t`. */
  function TextPlots(font: Font, y: i8, calls: seq<Placement>): seq<Plot>
    requires font.Valid()
  {
    if |calls| == 0 then []
    else
      var last := calls[|calls| - 1];
      TextPlots(font, y, calls[..|calls| - 1]) + CharPlots(font, ToInt8(last.pos), y, GlyphIndex(font, last.ch))
  }

  /** Appending one `drawChar` call. */
  lemma TextPlotsSnoc(buf: Buffer, font: Font, y: i8, calls: seq<Placement>, c: Placement)
    requires font.Valid()
    ensures Apply(buf, TextPlots(font, y, calls + [c]))
         == Apply(Apply(buf, TextPlots(font, y, calls)), CharPlots(font, ToInt8(c.pos), y, GlyphIndex(font, c.ch)))
  {
    assert (calls + [c])[..|calls|] == calls;
    ApplyAppend(buf, TextPlots(font, y, calls), CharPlots(font, ToInt8(c.pos), y, GlyphIndex(font, c.ch)));
  }

  /** The first `i + 1` calls are the first `i` and character `i` at cursor `i`. */
  lemma PlacementsSnoc(txt: seq<char>, x: i8, advance: int, i: nat)
    requires i < |txt|
    ensures Placements(txt, x, advance, i + 1)
         == Placements(txt, x, advance, i) + [Placement(txt[i], Cursor(x, advance, i))]
  {
  }

  /** Drawing character `i` at cursor `i` extends the text drawn so far and
      advances the cursor to cursor `i + 1`. */
  method DrawPlacement(buf: Buffer, r: Buffer, font: Font, x: i8, y: i8, txt: seq<char>, advance: int, i: nat, pos: u8)
    returns (r': Buffer, pos': u8)
    requires font.Valid() && i < |txt| && pos == Cursor(x, advance, i)
    requires r == Apply(buf, TextPlots(font, y, Placements(txt, x, advance, i)))
    ensures r' == Apply(buf, TextPlots(font, y, Placements(txt, x, advance, i + 1)))
    ensures pos' == Cursor(x, advance, i + 1)
  {
    var c := Placement(txt[i], pos);
    PlacementsSnoc(txt, x, advance, i);
    TextPlotsSnoc(buf, font, y, Placements(txt, x, advance, i), c);
    r' := DrawChar(r, font, ToInt8(pos), y, txt[i]);
    CursorStep(x, advance, i);
    pos' := Wrap8(pos + advance);
  }

  /** A string character is the terminator only at the string's length. */
  lemma TerminatorAt(txt: seq<char>, i: nat)
    requires Length(txt) < |txt| && i <= Length(txt) && txt[i] == '\0'
    ensures i == Length(txt)
  {
  }

  /** After drawing character `i`, the RAM version stops exactly when the
      cursor has passed column 128. */
  lemma RamCountStep(txt: seq<char>, x: i8, advance: int, i: nat)
    requires Length(txt) < |txt| && i < RamCount(txt, x, advance, 0)
    ensures Cursor(x, advance, i + 1) > SCREEN_WIDTH ==> RamCount(txt, x, advance, 0) == i + 1
    ensures Cursor(x, advance, i + 1) <= SCREEN_WIDTH ==>
      i + 1 < RamCount(txt, x, advance, 0) || i + 1 == Length(txt)
  {
  }

  /** The flash version goes on while the cursor is on the screen and the
      string is not over. */
  lemma FlashCountStep(txt: seq<char>, x: i8, advance: int, i: nat)
    requires Length(txt) < |txt| && i <= FlashCount(txt, x, advance, 0)
    requires Cursor(x, advance, i) < SCREEN_WIDTH && txt[i] != '\0'
    ensures i < FlashCount(txt, x, advance, 0)
  {
    assert i != Length(txt);
  }

  /** The flash version stops at the first cursor off the screen or at the terminator. */
  lemma FlashCountAt(txt: seq<char>, x: i8, advance: int, i: nat)
    requires Length(txt) <= |txt| && i <= FlashCount(txt, x, advance, 0)
    requires i == Length(txt) || Cursor(x, advance, i) >= SCREEN_WIDTH
    ensures FlashCount(txt, x, advance, 0) == i
  {
  }

  /** `drawText(x, y, txt, space)` on a RAM string. */
  method DrawText(buf: Buffer, font: Font, x: i8, y: i8, txt: seq<char>, space: u8) returns (r: Buffer)
    requires font.Valid() && CString(txt)
    ensures r == Apply(buf, TextPlots(font, y, Placements(txt, x, Advance(font, space), RamCount(txt, x, Advance(font, space), 0))))
  {
    var advance := Advance(font, space);
    var count := RamCount(txt, x, advance, 0);
    var pos: u8 := Wrap8(x);
    var i: u8 := 0;
    r := buf;
    while txt[i] != '\0'
      invariant i <= count && (i == count ==> i == Length(txt))
      invariant count == RamCount(txt, x, advance, 0)
      invariant pos == Cursor(x, advance, i)
      invariant r == Apply(buf, TextPlots(font, y, Placements(txt, x, advance, i)))
      decreases Length(txt) - i
    {
      r, pos := DrawPlacement(buf, r, font, x, y, txt, advance, i, pos);
      RamCountStep(txt, x, advance, i);
      i := i + 1;
      if pos > SCREEN_WIDTH {
        assert i == count;
        assert r == Apply(buf, TextPlots(font, y, Placements(txt, x, advance, count)));
        return;
      }
    }
    TerminatorAt(txt, i);
    assert r == Apply(buf, TextPlots(font, y, Placements(txt, x, advance, count)));
  }

  /** `drawText(x, y, txt, space)` on a flash string. */
  method DrawTextFlash(buf: Buffer, font: Font, x: i8, y: i8, txt: seq<char>, space: u8) returns (r: Buffer)
    requires font.Valid() && CString(txt)
    ensures r == Apply(buf, TextPlots(font, y, Placements(txt, x, Advance(font, space), FlashCount(txt, x, Advance(font, space), 0))))
  {
    var advance := Advance(font, space);
    var count := FlashCount(txt, x, advance, 0);
    var pos: u8 := Wrap8(x);
    var i: u8 := 0;
    r := buf;
    while pos < SCREEN_WIDTH && txt[i] != '\0'
      invariant i <= count
      invariant pos == Cursor(x, advance, i)
      invariant r == Apply(buf, TextPlots(font, y, Placements(txt, x, advance, i)))
      decreases Length(txt) - i
    {
      FlashCountStep(txt, x, advance, i);
      r, pos := DrawPlacement(buf, r, font, x, y, txt, advance, i, pos);
      i := i + 1;
    }
    if pos < SCREEN_WIDTH {
      TerminatorAt(txt, i);
    }
    FlashCountAt(txt, x, advance, i);
  }

  /** Every call of a text sets a pixel, in full-screen mode. */
  lemma {:induction false} TextPlotsSet(font: Font, y: i8, calls: seq<Placement>)
    requires font.Valid()
    ensures forall p | p in TextPlots(font, y, calls) :: p.color && !p.viewport
    decreases |calls|
  {
    if |calls| > 0 {
      var last := calls[|calls| - 1];
      TextPlotsSet(font, y, calls[..|calls| - 1]);
      CharPlotsSet(font, ToInt8(last.pos), y, GlyphIndex(font, last.ch));
    }
  }

  /** Text never clears a pixel. */
  lemma TextOnlySets(buf: Buffer, font: Font, y: i8, calls: seq<Placement>, px: int, py: int)
    requires font.Valid() && OnScreen(px, py) && GetPixel(buf, px, py)
    ensures GetPixel(Apply(buf, TextPlots(font, y, calls)), px, py)
  {
    TextPlotsSet(font, y, calls);
    ApplyOnlySets(buf, TextPlots(font, y, calls), px, py);
  }

  /** The flash version draws a prefix of what the RAM version draws. */
  lemma FlashDrawsPrefix(txt: seq<char>, x: i8, advance: int)
    requires Length(txt) <= |txt|
    ensures FlashCount(txt, x, advance, 0) <= RamCount(txt, x, advance, 0)
  {
    var f, n := FlashCount(txt, x, advance, 0), RamCount(txt, x, advance, 0);
    assert n < f ==> Cursor(x, advance, n) < SCREEN_WIDTH;
  }

  /** Started left of the screen, the two versions part ways: at x = -3
      with 4-pixel glyphs and one pixel of spacing, the RAM version draws
      "AB" (the cursor wraps from 253 to 2), the flash version nothing. */
  lemma NegativeStartExample()
    ensures RamCount("AB\0", -3, 5, 0) == 2 && FlashCount("AB\0", -3, 5, 0) == 0
  {
    assert Length("AB\0") == 2 by {
      assert "AB\0"[0] == 'A' && "AB\0"[1] == 'B' && "AB\0"[2] == '\0';
    }
    assert Cursor(-3, 5, 0) == 253 && Cursor(-3, 5, 1) == 2;
  }
}
