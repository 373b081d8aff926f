/** The packed 1-bit-per-pixel display buffer of the SSD1306 fast path, the
    pixel and byte writes on it, and the depth buffer's reset. */
module Framebuffer {
  import opened Bits

  const SCREEN_WIDTH := 128
  const SCREEN_HEIGHT := 64
  /** Rows the raycaster draws into; the rows below are reserved for the HUD. */
  const RENDER_HEIGHT := 56
  const BUFFER_SIZE := SCREEN_WIDTH * (SCREEN_HEIGHT / 8)

  /** Eight row-groups of 128 bytes; bit `y % 8` of byte `x + (y / 8) * 128` is pixel (x, y). */
  type Buffer = s: seq<bv8> | |s| == BUFFER_SIZE witness seq(BUFFER_SIZE, _ => 0)

  /** The all-black screen. */
  const BLANK: Buffer := seq(BUFFER_SIZE, _ => 0)

  predicate OnScreen(x: int, y: int) {
    0 <= x < SCREEN_WIDTH && 0 <= y < SCREEN_HEIGHT
  }

  /** The byte holding pixel (x, y). */
  function ByteIndex(x: int, y: int): (i: int)
    requires OnScreen(x, y)
    ensures 0 <= i < BUFFER_SIZE
    ensures i % SCREEN_WIDTH == x && i / SCREEN_WIDTH == y / 8
  {
    x + (y / 8) * SCREEN_WIDTH
  }

  predicate GetPixel(buf: Buffer, x: int, y: int)
    requires OnScreen(x, y)
  {
    LsbBit(buf[ByteIndex(x, y)], y % 8)
  }

  /** The bounds test of `drawPixel`: the full screen, or only the raycaster
      rows when `viewport` is set. */
  predicate Visible(x: int, y: int, viewport: bool) {
    0 <= x < SCREEN_WIDTH && 0 <= y < (if viewport then RENDER_HEIGHT else SCREEN_HEIGHT)
  }

  /** `drawPixel`: set (white) or clear (black) one pixel; writes outside the
      bounds are dropped. */
  function DrawPixel(buf: Buffer, x: int, y: int, color: bool, viewport: bool): (r: Buffer)
    ensures !Visible(x, y, viewport) ==> r == buf
    ensures Visible(x, y, viewport) ==> GetPixel(r, x, y) == color
  {
    if !Visible(x, y, viewport) then buf
    else
      var i := ByteIndex(x, y);
      WriteBitSpec(buf[i], y % 8, y % 8, color);
      buf[i := WriteBit(buf[i], y % 8, color)]
  }

  /** `drawPixel` changes exactly bit `y % 8` of byte `x + (y / 8) * 128`, to `color`,
      and only when the pixel passes the bounds test. */
  lemma DrawPixelSpec(buf: Buffer, x: int, y: int, color: bool, viewport: bool)
    ensures !Visible(x, y, viewport) ==> DrawPixel(buf, x, y, color, viewport) == buf
    ensures Visible(x, y, viewport) ==>
      var r := DrawPixel(buf, x, y, color, viewport);
      var i := ByteIndex(x, y);
      && (forall j | 0 <= j < BUFFER_SIZE && j != i :: r[j] == buf[j])
      && (forall k | 0 <= k < 8 :: LsbBit(r[i], k) == if k == y % 8 then color else LsbBit(buf[i], k))
  {
    if Visible(x, y, viewport) {
      var i := ByteIndex(x, y);
      forall k | 0 <= k < 8
        ensures LsbBit(DrawPixel(buf, x, y, color, viewport)[i], k)
             == if k == y % 8 then color else LsbBit(buf[i], k)
      {
        DrawPixelBit(buf, x, y, color, viewport, k);
      }
    }
  }

  /** Bit `k` of the byte `drawPixel` writes. */
  lemma DrawPixelBit(buf: Buffer, x: int, y: int, color: bool, viewport: bool, k: nat)
    requires Visible(x, y, viewport) && k < 8
    ensures var i := ByteIndex(x, y);
      LsbBit(DrawPixel(buf, x, y, color, viewport)[i], k) == if k == y % 8 then color else LsbBit(buf[i], k)
  {
    WriteBitSpec(buf[ByteIndex(x, y)], y % 8, k, color);
  }

  /** Pixel view of `DrawPixelSpec`: only pixel (x, y) can change, and it becomes `color`. */
  lemma DrawPixelEffect(buf: Buffer, x: int, y: int, color: bool, viewport: bool, px: int, py: int)
    requires OnScreen(px, py)
    ensures GetPixel(DrawPixel(buf, x, y, color, viewport), px, py)
         == if Visible(x, y, viewport) && px == x && py == y then color else GetPixel(buf, px, py)
  {
    DrawPixelSpec(buf, x, y, color, viewport);
  }

  /** A pixel whose byte is assembled from eight booleans is the boolean of its row. */
  lemma PackedPixel(buf: Buffer, p: seq<bool>, x: int, y: int)
    requires OnScreen(x, y) && |p| == 8 && buf[ByteIndex(x, y)] == Byte8(p)
    ensures GetPixel(buf, x, y) == p[y % 8]
  {
    Byte8Bits(p, y % 8);
  }

  /** A buffer with no lit pixel is the black screen. */
  lemma AllDarkIsBlank(buf: Buffer)
    requires forall x, y | OnScreen(x, y) :: !GetPixel(buf, x, y)
    ensures buf == BLANK
  {
    forall x, y | OnScreen(x, y)
      ensures GetPixel(buf, x, y) == GetPixel(BLANK, x, y)
    {
      assert BLANK[ByteIndex(x, y)] == 0;
    }
    BufferExtensional(buf, BLANK);
  }

  /** Two buffers that agree on every pixel are equal. */
  lemma BufferExtensional(a: Buffer, b: Buffer)
    requires forall x, y | OnScreen(x, y) :: GetPixel(a, x, y) == GetPixel(b, x, y)
    ensures a == b
  {
    forall i | 0 <= i < BUFFER_SIZE
      ensures a[i] == b[i]
    {
      var x, g := i % SCREEN_WIDTH, i / SCREEN_WIDTH;
      forall k | 0 <= k < 8
        ensures LsbBit(a[i], k) == LsbBit(b[i], k)
      {
        assert ByteIndex(x, 8 * g + k) == i;
        assert GetPixel(a, x, 8 * g + k) == GetPixel(b, x, 8 * g + k);
      }
      ByteExtensional(a[i], b[i]);
    }
  }

  /** `drawByte`: store eight stacked pixels of column `x` in the row-group of
      row `y`. There is no bounds test: callers keep (x, y) on screen. */
  function DrawByte(buf: Buffer, x: int, y: int, b: bv8): (r: Buffer)
    requires OnScreen(x, y)
    ensures forall py | 0 <= py < SCREEN_HEIGHT && py / 8 == y / 8 :: GetPixel(r, x, py) == LsbBit(b, py % 8)
    ensures forall px, py | OnScreen(px, py) && (px != x || py / 8 != y / 8) :: GetPixel(r, px, py) == GetPixel(buf, px, py)
  {
    buf[ByteIndex(x, y) := b]
  }

  /** `drawByte` replaces the eight pixels of column `x` in row-group `y / 8`
      by the bits of `b` (least significant bit on top) and nothing else. */
  lemma DrawByteEffect(buf: Buffer, x: int, y: int, b: bv8, px: int, py: int)
    requires OnScreen(x, y) && OnScreen(px, py)
    ensures GetPixel(DrawByte(buf, x, y, b), px, py)
         == if px == x && py / 8 == y / 8 then LsbBit(b, py % 8) else GetPixel(buf, px, py)
  {
  }

  /** One `drawPixel(x, y, color, viewport)` call, with its arguments already
      converted to the callee's parameter types. */
  datatype Plot = Plot(x: int, y: int, color: bool, viewport: bool)

  /** The plot writes pixel (px, py). */
  predicate Hits(p: Plot, px: int, py: int) {
    Visible(p.x, p.y, p.viewport) && p.x == px && p.y == py
  }

  lemma InLeft<T>(a: seq<T>, b: seq<T>, p: T)
    requires p in a
    ensures p in a + b
  {
  }

  lemma InRight<T>(a: seq<T>, b: seq<T>, p: T)
    requires p in b
    ensures p in a + b
  {
  }

  lemma InEither<T>(a: seq<T>, b: seq<T>, p: T)
    requires p in a + b
    ensures p in a || p in b
  {
  }

  /** The buffer after performing the calls in `plots` in order. */
  function Apply(buf: Buffer, plots: seq<Plot>): Buffer
    decreases |plots|
  {
    if |plots| == 0 then buf
    else
      var n := |plots| - 1;
      DrawPixel(Apply(buf, plots[..n]), plots[n].x, plots[n].y, plots[n].color, plots[n].viewport)
  }

  lemma {:induction false} ApplyAppend(buf: Buffer, a: seq<Plot>, b: seq<Plot>)
    ensures Apply(buf, a + b) == Apply(Apply(buf, a), b)
    decreases |b|
  {
    if |b| == 0 {
      assert a + b == a;
    } else {
      var n := |b| - 1;
      assert (a + b)[..|a + b| - 1] == a + b[..n];
      ApplyAppend(buf, a, b[..n]);
    }
  }

  /** One more call at the end acts on the buffer the earlier calls left. */
  lemma ApplySnoc(buf: Buffer, plots: seq<Plot>, p: Plot)
    ensures Apply(buf, plots + [p]) == DrawPixel(Apply(buf, plots), p.x, p.y, p.color, p.viewport)
  {
    assert (plots + [p])[..|plots|] == plots;
  }

  /** A pixel that no call hits keeps its value. */
  lemma {:induction false} ApplyUntouched(buf: Buffer, plots: seq<Plot>, px: int, py: int)
    requires OnScreen(px, py)
    requires forall p | p in plots :: !Hits(p, px, py)
    ensures GetPixel(Apply(buf, plots), px, py) == GetPixel(buf, px, py)
    decreases |plots|
  {
    if |plots| > 0 {
      var n := |plots| - 1;
      var p := plots[n];
      assert p in plots;
      assert forall q | q in plots[..n] :: q in plots;
      ApplyUntouched(buf, plots[..n], px, py);
      DrawPixelEffect(Apply(buf, plots[..n]), p.x, p.y, p.color, p.viewport, px, py);
    }
  }

  /** A pixel that some call hits ends with the colour those calls agree on. */
  lemma {:induction false} ApplyUniformHits(buf: Buffer, plots: seq<Plot>, px: int, py: int, c: bool)
    requires OnScreen(px, py)
    requires exists p :: p in plots && Hits(p, px, py)
    requires forall p | p in plots && Hits(p, px, py) :: p.color == c
    ensures GetPixel(Apply(buf, plots), px, py) == c
    decreases |plots|
  {
    var n := |plots| - 1;
    var p := plots[n];
    DrawPixelEffect(Apply(buf, plots[..n]), p.x, p.y, p.color, p.viewport, px, py);
    if !Hits(p, px, py) {
      var q :| q in plots && Hits(q, px, py);
      assert plots == plots[..n] + [p];
      assert q in plots[..n];
      ApplyUniformHits(buf, plots[..n], px, py, c);
    }
  }

  /** Calls that only set pixels: a pixel ends lit exactly when it was lit or some call hits it. */
  lemma ApplyOnlySets(buf: Buffer, plots: seq<Plot>, px: int, py: int)
    requires OnScreen(px, py)
    requires forall p | p in plots :: p.color
    ensures GetPixel(Apply(buf, plots), px, py)
         == (GetPixel(buf, px, py) || exists p :: p in plots && Hits(p, px, py))
  {
    if exists p :: p in plots && Hits(p, px, py) {
      ApplyUniformHits(buf, plots, px, py, true);
    } else {
      ApplyUntouched(buf, plots, px, py);
    }
  }

  /** Calls made in viewport mode leave the HUD rows alone. */
  lemma ApplyViewportOnly(buf: Buffer, plots: seq<Plot>, px: int, py: int)
    requires OnScreen(px, py) && py >= RENDER_HEIGHT
    requires forall p | p in plots :: p.viewport
    ensures GetPixel(Apply(buf, plots), px, py) == GetPixel(buf, px, py)
  {
    ApplyUntouched(buf, plots, px, py);
  }

  // ---------------------------------------------------------------- depth buffer

  const Z_RES_DIVIDER := 4
  const ZBUFFER_SIZE := SCREEN_WIDTH / Z_RES_DIVIDER

  /** The depth-buffer reset loop of `setupDisplay`, starting from the zeroed
      static array: every entry becomes 255 ("no wall"). */
  method InitZBuffer() returns (zbuffer: seq<u8>)
    ensures |zbuffer| == ZBUFFER_SIZE
    ensures forall i | 0 <= i < |zbuffer| :: zbuffer[i] == 255
  {
    zbuffer := seq(ZBUFFER_SIZE, _ => 0);
    var i := 0;
    while i < SCREEN_WIDTH / Z_RES_DIVIDER
      invariant 0 <= i <= ZBUFFER_SIZE && |zbuffer| == ZBUFFER_SIZE
      invariant forall j | 0 <= j < i :: zbuffer[j] == 255
    {
      zbuffer := zbuffer[i := 255];
      i := i + 1;
    }
  }
}
