/** The DOOM-style screen melt: each column waits a few frames, then slides
    down `MELT_SPEED` rows per frame while black enters from the top. */
module Melt {
  import opened Bits
  import opened Framebuffer
  import opened Arith

  const MELT_SPEED := 6

  /** Frames `meltScreen` runs. */
  const MELT_FRAMES := 30

  /** Per-column start delays, as decimal digits; only the first 64 are read. */
  const MELT_OFFSETS: string :=
    "12345432343234543434567543212343" + "21234543456543212345432123432123" + "432345676"

  /** The delay of column `x`: its offset digit minus `'0'`, as an `uint8_t`. */
  function MeltOffset(x: u8): (d: u8)
    ensures 1 <= d <= 7
  {
    OffsetDigits();
    assert '1' <= MELT_OFFSETS[x % 64] <= '7';
    Wrap8(MELT_OFFSETS[x % 64] as int - 48)
  }

  /** Every character of `s` is one of the digits 1 to 7. */
  predicate DelayDigits(s: string) {
    forall k | 0 <= k < |s| :: '1' <= s[k] <= '7'
  }

  lemma DelayDigitsConcat(a: string, b: string)
    requires DelayDigits(a) && DelayDigits(b)
    ensures DelayDigits(a + b)
  {
    forall k | 0 <= k < |a + b|
      ensures '1' <= (a + b)[k] <= '7'
    {
      if k >= |a| {
        assert (a + b)[k] == b[k - |a|];
      }
    }
  }

  /** The delay string holds only the digits 1 to 7. */
  lemma OffsetDigits()
    ensures DelayDigits(MELT_OFFSETS)
  {
    var a, b, c := "12345432343234543434567543212343", "21234543456543212345432123432123", "432345676";
    assert DelayDigits(a);
    assert DelayDigits(b);
    assert DelayDigits(c);
    DelayDigitsConcat(a, b);
    DelayDigitsConcat(a + b, c);
  }

  /** `getMeltedPixel(frame, x, y)`: pixel (x, y) of the next frame is read
      from the current buffer at row `y`, or `MELT_SPEED` rows higher once the
      column's delay has passed; a source row above the screen reads black. */
  function MeltedPixel(buf: Buffer, frame: u8, x: u8, y: u8): (lit: bool)
    requires x < SCREEN_WIDTH && y < SCREEN_HEIGHT
    ensures frame < MeltOffset(x) ==> lit == GetPixel(buf, x, y)
    ensures frame >= MeltOffset(x) ==> lit == (y >= MELT_SPEED && GetPixel(buf, x, y - MELT_SPEED))
  {
    var dy := ToInt8(if frame < MeltOffset(x) then y else y - MELT_SPEED);
    if dy < 0 then false else GetPixel(buf, x, dy)
  }

  /** The eight melted pixels of row-group `g` of column `x`, top to bottom. */
  function MeltBits(buf: Buffer, frame: u8, x: u8, g: int): seq<bool>
    requires x < SCREEN_WIDTH && 0 <= g < SCREEN_HEIGHT / 8
  {
    seq(8, k requires 0 <= k < 8 => MeltedPixel(buf, frame, x, 8 * g + k))
  }

  /** The byte stored for row-group `g` of column `x`: its eight melted pixels. */
  function MeltByte(buf: Buffer, frame: u8, x: u8, g: int): bv8
    requires x < SCREEN_WIDTH && 0 <= g < SCREEN_HEIGHT / 8
  {
    Byte8(MeltBits(buf, frame, x, g))
  }

  /** One melt frame as a function of the buffer before the frame: every
      pixel is the melted pixel of the buffer before it. */
  function MeltFrame(buf: Buffer, frame: u8): (r: Buffer)
    ensures forall x, y {:trigger GetPixel(r, x, y)} | OnScreen(x, y) :: GetPixel(r, x, y) == MeltedPixel(buf, frame, x, y)
  {
    var r: Buffer := seq(BUFFER_SIZE, i requires 0 <= i < BUFFER_SIZE => MeltByte(buf, frame, i % SCREEN_WIDTH, i / SCREEN_WIDTH));
    assert forall x, y | OnScreen(x, y) :: GetPixel(r, x, y) == MeltedPixel(buf, frame, x, y) by {
      forall x, y | OnScreen(x, y)
        ensures GetPixel(r, x, y) == MeltedPixel(buf, frame, x, y)
      {
        var p := MeltBits(buf, frame, x, y / 8);
        assert r[ByteIndex(x, y)] == Byte8(p);
        PackedPixel(r, p, x, y);
        assert 8 * (y / 8) + y % 8 == y;
      }
    }
    r
  }

  /** A column keeps its pixels until its delay has passed; afterwards each
      frame moves it down `MELT_SPEED` rows, with black entering at the top. */
  lemma MeltFrameColumn(buf: Buffer, frame: u8, x: int, y: int)
    requires OnScreen(x, y)
    ensures frame < MeltOffset(x) ==> GetPixel(MeltFrame(buf, frame), x, y) == GetPixel(buf, x, y)
    ensures frame >= MeltOffset(x) ==>
      GetPixel(MeltFrame(buf, frame), x, y) == (y >= MELT_SPEED && GetPixel(buf, x, y - MELT_SPEED))
  {
  }

  /** The byte of group `g` in column `x` reads only groups `0..g` of that column. */
  lemma MeltByteLocal(a: Buffer, b: Buffer, frame: u8, x: u8, g: int)
    requires x < SCREEN_WIDTH && 0 <= g < SCREEN_HEIGHT / 8
    requires forall h | 0 <= h <= g :: a[x + h * SCREEN_WIDTH] == b[x + h * SCREEN_WIDTH]
    ensures MeltByte(a, frame, x, g) == MeltByte(b, frame, x, g)
  {
    forall k | 0 <= k < 8
      ensures MeltBits(a, frame, x, g)[k] == MeltBits(b, frame, x, g)[k]
    {
      MeltedPixelLocal(a, b, frame, x, g, k);
    }
    assert MeltBits(a, frame, x, g) == MeltBits(b, frame, x, g);
  }

  /** Pixel `k` of group `g` reads group `g` or one above it. */
  lemma MeltedPixelLocal(a: Buffer, b: Buffer, frame: u8, x: u8, g: int, k: int)
    requires x < SCREEN_WIDTH && 0 <= g < SCREEN_HEIGHT / 8 && 0 <= k < 8
    requires forall h | 0 <= h <= g :: a[x + h * SCREEN_WIDTH] == b[x + h * SCREEN_WIDTH]
    ensures MeltedPixel(a, frame, x, 8 * g + k) == MeltedPixel(b, frame, x, 8 * g + k)
  {
    var y := 8 * g + k;
    var dy := ToInt8(if frame < MeltOffset(x) then y else y - MELT_SPEED);
    if dy >= 0 {
      assert 0 <= dy / 8 <= g;
      assert a[x + (dy / 8) * SCREEN_WIDTH] == b[x + (dy / 8) * SCREEN_WIDTH];
    }
  }

  /** Bytes of groups below `g`, and of group `g` left of column `x`, hold the
      new frame; the rest still hold the old one. */
  predicate MeltedFrom(r: Buffer, buf: Buffer, frame: u8, g: int, x: int) {
    forall i | 0 <= i < BUFFER_SIZE ::
      r[i] == if i / SCREEN_WIDTH > g || (i / SCREEN_WIDTH == g && i % SCREEN_WIDTH < x)
              then MeltFrame(buf, frame)[i] else buf[i]
  }

  /** Storing column `x` of group `g`, computed from the partly melted buffer,
      extends the melted region by one byte. */
  lemma MeltStore(r: Buffer, buf: Buffer, frame: u8, g: int, x: u8)
    requires 0 <= g < SCREEN_HEIGHT / 8 && x < SCREEN_WIDTH
    requires MeltedFrom(r, buf, frame, g, x)
    ensures MeltByte(r, frame, x, g) == MeltFrame(buf, frame)[ByteIndex(x, 8 * g)]
    ensures MeltedFrom(DrawByte(r, x, 8 * g, MeltByte(r, frame, x, g)), buf, frame, g, x + 1)
  {
    forall h | 0 <= h <= g
      ensures r[x + h * SCREEN_WIDTH] == buf[x + h * SCREEN_WIDTH]
    {
      UnmeltedAbove(r, buf, frame, g, x, h);
    }
    MeltByteLocal(r, buf, frame, x, g);
    var r' := DrawByte(r, x, 8 * g, MeltByte(r, frame, x, g));
    forall i | 0 <= i < BUFFER_SIZE
      ensures r'[i] == if i / SCREEN_WIDTH > g || (i / SCREEN_WIDTH == g && i % SCREEN_WIDTH < x + 1)
                       then MeltFrame(buf, frame)[i] else buf[i]
    {
      MeltedAfterStore(r, buf, frame, g, x, MeltByte(r, frame, x, g), i);
    }
  }

  /** Column `x` of the groups from `g` up has not been stored yet. */
  lemma UnmeltedAbove(r: Buffer, buf: Buffer, frame: u8, g: int, x: u8, h: int)
    requires 0 <= h <= g < SCREEN_HEIGHT / 8 && x < SCREEN_WIDTH
    requires MeltedFrom(r, buf, frame, g, x)
    ensures r[x + h * SCREEN_WIDTH] == buf[x + h * SCREEN_WIDTH]
  {
    var i := x + h * SCREEN_WIDTH;
    DivModUnique(i, SCREEN_WIDTH, h, x);
  }

  /** Byte `i` after storing the melted byte of column `x`, group `g`. */
  lemma MeltedAfterStore(r: Buffer, buf: Buffer, frame: u8, g: int, x: u8, v: bv8, i: int)
    requires 0 <= g < SCREEN_HEIGHT / 8 && x < SCREEN_WIDTH && 0 <= i < BUFFER_SIZE
    requires MeltedFrom(r, buf, frame, g, x)
    requires v == MeltFrame(buf, frame)[ByteIndex(x, 8 * g)]
    ensures DrawByte(r, x, 8 * g, v)[i]
         == if i / SCREEN_WIDTH > g || (i / SCREEN_WIDTH == g && i % SCREEN_WIDTH < x + 1)
            then MeltFrame(buf, frame)[i] else buf[i]
  {
    var j := ByteIndex(x, 8 * g);
    if i == j {
      assert DrawByte(r, x, 8 * g, v)[i] == v;
    } else {
      assert DrawByte(r, x, 8 * g, v)[i] == r[i];
      assert i / SCREEN_WIDTH == g ==> i % SCREEN_WIDTH != x by {
        if i / SCREEN_WIDTH == g && i % SCREEN_WIDTH == x {
          DivModUnique(i, SCREEN_WIDTH, g, x);
        }
      }
    }
  }

  /** One iteration of the `do` loop of `meltScreen`: row-groups bottom-up,
      columns left to right, each byte built from eight reads of the buffer
      being overwritten, then stored. The result is the frame computed from
      the buffer before the pass. */
  method MeltFrameInPlace(buf: Buffer, frame: u8) returns (r: Buffer)
    ensures r == MeltFrame(buf, frame)
  {
    r := buf;
    var y: int := SCREEN_HEIGHT - 8;
    while y >= 0
      invariant -8 <= y <= SCREEN_HEIGHT - 8 && y % 8 == 0
      invariant MeltedFrom(r, buf, frame, y / 8, 0)
    {
      var x := 0;
      while x < SCREEN_WIDTH
        invariant 0 <= x <= SCREEN_WIDTH
        invariant MeltedFrom(r, buf, frame, y / 8, x)
      {
        MeltStore(r, buf, frame, y / 8, x);
        r := DrawByte(r, x, y, MeltByte(r, frame, x, y / 8));
        x := x + 1;
      }
      y := y - 8;
    }
  }

  /** Frames after which column `x` has started moving, out of the first `n`. */
  function Shifts(x: u8, n: int): nat {
    if n > MeltOffset(x) then n - MeltOffset(x) else 0
  }

  /** Pixel (x, y) of the original screen once `n` frames have passed: the
      column has moved down `MELT_SPEED` rows for each frame past its delay,
      and the rows above it are black. */
  predicate ShiftedPixel(buf: Buffer, n: int, x: u8, y: int)
    requires OnScreen(x, y)
  {
    var d := MELT_SPEED * Shifts(x, n);
    y >= d && GetPixel(buf, x, y - d)
  }

  /** The eight shifted pixels of row-group `g` of column `x`, top to bottom. */
  function ShiftedBits(buf: Buffer, n: int, x: u8, g: int): seq<bool>
    requires x < SCREEN_WIDTH && 0 <= g < SCREEN_HEIGHT / 8
  {
    seq(8, k requires 0 <= k < 8 => ShiftedPixel(buf, n, x, 8 * g + k))
  }

  /** The screen after the first `n` melt frames, pixel by pixel. */
  function MeltedScreen(buf: Buffer, n: int): Buffer {
    seq(BUFFER_SIZE, i requires 0 <= i < BUFFER_SIZE =>
      Byte8(ShiftedBits(buf, n, i % SCREEN_WIDTH, i / SCREEN_WIDTH)))
  }

  lemma MeltedScreenPixels(buf: Buffer, n: int, x: int, y: int)
    requires OnScreen(x, y)
    ensures GetPixel(MeltedScreen(buf, n), x, y) == ShiftedPixel(buf, n, x, y)
  {
    var p := ShiftedBits(buf, n, x, y / 8);
    assert MeltedScreen(buf, n)[ByteIndex(x, y)] == Byte8(p);
    PackedPixel(MeltedScreen(buf, n), p, x, y);
    assert 8 * (y / 8) + y % 8 == y;
  }

  /** Before the first frame nothing has moved. */
  lemma MeltedScreenStart(buf: Buffer)
    ensures MeltedScreen(buf, 0) == buf
  {
    forall x, y | OnScreen(x, y)
      ensures GetPixel(MeltedScreen(buf, 0), x, y) == GetPixel(buf, x, y)
    {
      calc {
        GetPixel(MeltedScreen(buf, 0), x, y);
      == { MeltedScreenPixels(buf, 0, x, y); }
        ShiftedPixel(buf, 0, x, y);
      == { assert Shifts(x, 0) == 0; }
        GetPixel(buf, x, y);
      }
    }
    BufferExtensional(MeltedScreen(buf, 0), buf);
  }

  /** Frame `n` takes the screen after `n` frames to the screen after `n + 1`. */
  lemma MeltFrameAdvances(buf: Buffer, n: u8)
    ensures MeltFrame(MeltedScreen(buf, n), n) == MeltedScreen(buf, n + 1)
  {
    var m := MeltedScreen(buf, n);
    forall x, y | OnScreen(x, y)
      ensures GetPixel(MeltFrame(m, n), x, y) == GetPixel(MeltedScreen(buf, n + 1), x, y)
    {
      MeltAdvancesPixel(buf, n, x, y);
    }
    BufferExtensional(MeltFrame(m, n), MeltedScreen(buf, n + 1));
  }

  /** Frame `n` moves pixel (x, y) as `n + 1` frames of shifting would. */
  lemma MeltAdvancesPixel(buf: Buffer, n: u8, x: u8, y: int)
    requires OnScreen(x, y)
    ensures GetPixel(MeltFrame(MeltedScreen(buf, n), n), x, y) == GetPixel(MeltedScreen(buf, n + 1), x, y)
  {
    if n < MeltOffset(x) {
      MeltAdvancesWaiting(buf, n, x, y);
    } else {
      MeltAdvancesMoving(buf, n, x, y);
    }
  }

  /** A column still waiting keeps its pixel, and its shift stays zero. */
  lemma MeltAdvancesWaiting(buf: Buffer, n: u8, x: u8, y: int)
    requires OnScreen(x, y) && n < MeltOffset(x)
    ensures GetPixel(MeltFrame(MeltedScreen(buf, n), n), x, y) == GetPixel(MeltedScreen(buf, n + 1), x, y)
  {
    calc {
      GetPixel(MeltFrame(MeltedScreen(buf, n), n), x, y);
    == { MeltFrameColumn(MeltedScreen(buf, n), n, x, y); }
      GetPixel(MeltedScreen(buf, n), x, y);
    == { MeltedScreenPixels(buf, n, x, y); }
      ShiftedPixel(buf, n, x, y);
    == { assert Shifts(x, n + 1) == Shifts(x, n) == 0; }
      ShiftedPixel(buf, n + 1, x, y);
    == { MeltedScreenPixels(buf, n + 1, x, y); }
      GetPixel(MeltedScreen(buf, n + 1), x, y);
    }
  }

  /** A moving column takes the pixel `MELT_SPEED` rows up, one more shift. */
  lemma MeltAdvancesMoving(buf: Buffer, n: u8, x: u8, y: int)
    requires OnScreen(x, y) && n >= MeltOffset(x)
    ensures GetPixel(MeltFrame(MeltedScreen(buf, n), n), x, y) == GetPixel(MeltedScreen(buf, n + 1), x, y)
  {
    MovingReadsAbove(buf, n, x, y);
    ShiftedOneMore(buf, n, x, y);
    MeltedScreenPixels(buf, n + 1, x, y);
  }

  /** A moving column reads the shifted pixel `MELT_SPEED` rows up. */
  lemma MovingReadsAbove(buf: Buffer, n: u8, x: u8, y: int)
    requires OnScreen(x, y) && n >= MeltOffset(x)
    ensures GetPixel(MeltFrame(MeltedScreen(buf, n), n), x, y)
         == (y >= MELT_SPEED && ShiftedPixel(buf, n, x, y - MELT_SPEED))
  {
    if y >= MELT_SPEED {
      MeltedScreenPixels(buf, n, x, y - MELT_SPEED);
    }
    MovingReads(MeltedScreen(buf, n), buf, n, x, y);
  }

  /** A moving column of any buffer `m` reads from `MELT_SPEED` rows up. */
  lemma MovingReads(m: Buffer, buf: Buffer, n: u8, x: u8, y: int)
    requires OnScreen(x, y) && n >= MeltOffset(x)
    requires y >= MELT_SPEED ==> GetPixel(m, x, y - MELT_SPEED) == ShiftedPixel(buf, n, x, y - MELT_SPEED)
    ensures GetPixel(MeltFrame(m, n), x, y) == (y >= MELT_SPEED && ShiftedPixel(buf, n, x, y - MELT_SPEED))
  {
    MeltFrameColumn(m, n, x, y);
  }

  /** Past its delay, one more frame shifts a column by another `MELT_SPEED` rows. */
  lemma ShiftedOneMore(buf: Buffer, n: u8, x: u8, y: int)
    requires OnScreen(x, y) && n >= MeltOffset(x)
    ensures ShiftedPixel(buf, n + 1, x, y) == (y >= MELT_SPEED && ShiftedPixel(buf, n, x, y - MELT_SPEED))
  {
    var d := MELT_SPEED * Shifts(x, n);
    assert MELT_SPEED * Shifts(x, n + 1) == d + MELT_SPEED;
  }

  /** After the 30 frames every column has moved at least 23 * 6 rows, more
      than the screen height: the screen is black. */
  lemma MeltEndsBlack(buf: Buffer)
    ensures MeltedScreen(buf, MELT_FRAMES) == BLANK
  {
    forall x, y | OnScreen(x, y)
      ensures !GetPixel(MeltedScreen(buf, MELT_FRAMES), x, y)
    {
      MeltedScreenPixels(buf, MELT_FRAMES, x, y);
    }
    AllDarkIsBlank(MeltedScreen(buf, MELT_FRAMES));
  }

  /** A further frame on the black screen leaves it black. */
  lemma MeltBlankFixed(frame: u8)
    ensures MeltFrame(BLANK, frame) == BLANK
  {
    forall x, y | OnScreen(x, y)
      ensures !GetPixel(MeltFrame(BLANK, frame), x, y)
    {
      var dy := ToInt8(if frame < MeltOffset(x) then y else y - MELT_SPEED);
      if dy >= 0 {
        assert BLANK[ByteIndex(x, dy)] == 0;
      }
    }
    AllDarkIsBlank(MeltFrame(BLANK, frame));
  }

  /** `meltScreen` without its frame pacing and display refresh: 30 frames,
      counted by an `uint8_t`, each melted in place. */
  method MeltScreen(buf: Buffer) returns (r: Buffer)
    ensures r == MeltedScreen(buf, MELT_FRAMES)
    ensures r == BLANK
  {
    r := buf;
    MeltedScreenStart(buf);
    var frames: u8 := 0;
    while frames < MELT_FRAMES
      invariant 0 <= frames <= MELT_FRAMES
      invariant r == MeltedScreen(buf, frames)
    {
      MeltFrameAdvances(buf, frames);
      r := MeltFrameInPlace(r, frames);
      frames := frames + 1;
    }
    MeltEndsBlack(buf);
  }
}
