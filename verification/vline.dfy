/** `drawVLine`: the raycaster's shaded wall column, written byte-by-byte into
    the framebuffer (the SSD1306 fast path). */
module VerticalLine {
  import opened Bits
  import opened Arith
  import opened Framebuffer
  import opened Gradient

  /** Adjacent screen columns drawn per ray. */
  const RES_DIVIDER := 2

  /** First row drawn: the smaller end, clamped to row 0. */
  function Lower(startY: i8, endY: i8): int {
    Max(Min(startY, endY), 0)
  }

  /** Last row drawn: the larger end, clamped to the last raycaster row. */
  function Higher(startY: i8, endY: i8): int {
    Min(Max(startY, endY), RENDER_HEIGHT - 1)
  }

  /** Pixel (px, r) as the line leaves it: lit when the row is inside the span
      and the shader lights it. */
  predicate SpanPixel(t: Table, px: u8, r: int, lo: int, hi: int, intensity: u8)
    requires t.Valid() && 0 <= r < 0x100
  {
    lo <= r <= hi && GradientPixel(t, px, r, intensity)
  }

  /** The byte accumulated for row-group `g` of column `px` after its first `n` rows. */
  function PackRows(t: Table, px: u8, g: nat, n: nat, lo: int, hi: int, intensity: u8): bv8
    requires t.Valid() && g < 8 && n <= 8
  {
    if n == 0 then 0
    else PackRows(t, px, g, n - 1, lo, hi, intensity)
         | BoolBit(SpanPixel(t, px, 8 * g + n - 1, lo, hi, intensity), n - 1)
  }

  /** The byte written for row-group `g` of column `px`. */
  function SpanByte(t: Table, px: u8, g: nat, lo: int, hi: int, intensity: u8): bv8
    requires t.Valid() && g < 8
  {
    PackRows(t, px, g, 8, lo, hi, intensity)
  }

  /** Bit `k` of the partial byte is row `8g + k` of the span, for the rows packed so far. */
  lemma {:induction false} PackRowsBits(t: Table, px: u8, g: nat, n: nat, lo: int, hi: int, intensity: u8, k: nat)
    requires t.Valid() && g < 8 && n <= 8 && k < 8
    ensures LsbBit(PackRows(t, px, g, n, lo, hi, intensity), k)
         == (k < n && SpanPixel(t, px, 8 * g + k, lo, hi, intensity))
  {
    if n > 0 {
      PackRowsBits(t, px, g, n - 1, lo, hi, intensity, k);
      OrBoolBitSpec(PackRows(t, px, g, n - 1, lo, hi, intensity),
                    SpanPixel(t, px, 8 * g + n - 1, lo, hi, intensity), n - 1, k);
    }
  }

  /** Rows past the end of the span add nothing to the byte. */
  lemma {:induction false} PackRowsPastSpan(t: Table, px: u8, g: nat, n: nat, lo: int, hi: int, intensity: u8)
    requires t.Valid() && g < 8 && n <= 8 && 8 * g + n > hi
    ensures SpanByte(t, px, g, lo, hi, intensity) == PackRows(t, px, g, n, lo, hi, intensity)
    decreases 8 - n
  {
    if n < 8 {
      PackRowsPastSpan(t, px, g, n + 1, lo, hi, intensity);
      assert !SpanPixel(t, px, 8 * g + n, lo, hi, intensity);
      assert PackRows(t, px, g, n + 1, lo, hi, intensity) == PackRows(t, px, g, n, lo, hi, intensity) | 0;
    }
  }

  /** Rows above the start of the span add nothing to the byte. */
  lemma {:induction false} PackRowsBeforeSpan(t: Table, px: u8, g: nat, n: nat, lo: int, hi: int, intensity: u8)
    requires t.Valid() && g < 8 && n <= 8 && 8 * g + n <= lo
    ensures PackRows(t, px, g, n, lo, hi, intensity) == 0
  {
    if n > 0 {
      PackRowsBeforeSpan(t, px, g, n - 1, lo, hi, intensity);
    }
  }

  /** One row of the packing loop: OR-ing in row `y` extends the partial byte
      of row-group `y / 8` by one row. */
  lemma PackStep(t: Table, px: u8, y: int, lo: int, hi: int, intensity: u8)
    requires t.Valid() && 0 <= lo <= y <= hi < RENDER_HEIGHT
    ensures PackRows(t, px, y / 8, y % 8, lo, hi, intensity) | BoolBit(GradientPixel(t, px, y, intensity), y % 8)
         == PackRows(t, px, y / 8, y % 8 + 1, lo, hi, intensity)
  {
    assert 8 * (y / 8) + y % 8 == y;
  }

  /** Where the loop's row counter goes next: within the group, or (after row 7)
      to an empty next group. */
  lemma NextRow(t: Table, px: u8, y: int, lo: int, hi: int, intensity: u8)
    requires t.Valid() && 0 <= lo <= y <= hi < RENDER_HEIGHT
    ensures y % 8 != 7 ==> (y + 1) / 8 == y / 8 && (y + 1) % 8 == y % 8 + 1
    ensures y % 8 == 7 ==> (y + 1) / 8 == y / 8 + 1 && PackRows(t, px, (y + 1) / 8, (y + 1) % 8, lo, hi, intensity) == 0
  {
  }

  /** Byte `i` lies in columns [x, x + c) and in a row-group that meets rows [lo, hi]. */
  predicate InBlock(i: int, x: int, c: int, lo: int, hi: int) {
    x <= i % SCREEN_WIDTH < x + c && lo / 8 <= i / SCREEN_WIDTH <= hi / 8
  }

  /** The buffer `drawVLine` leaves: every byte of the touched block replaced
      by its span byte, every other byte kept. */
  function VLineBuffer(buf: Buffer, t: Table, x: u8, lo: int, hi: int, intensity: u8): Buffer
    requires t.Valid()
  {
    seq(BUFFER_SIZE, i requires 0 <= i < BUFFER_SIZE =>
      if InBlock(i, x, RES_DIVIDER, lo, hi) then SpanByte(t, i % SCREEN_WIDTH, i / SCREEN_WIDTH, lo, hi, intensity)
      else buf[i])
  }

  /** The `drawByte` targets for one column: its row-groups from `lo / 8` to `hi / 8`, top-down. */
  function ColumnWrites(px: int, lo: int, hi: int): seq<int> {
    GroupRun(px, lo / 8, Max(hi / 8 - lo / 8 + 1, 0))
  }

  /** The bytes of column `px` in the `n` row-groups from `g0` on. */
  function GroupRun(px: int, g0: int, n: nat): seq<int> {
    seq(n, k => (g0 + k) * SCREEN_WIDTH + px)
  }

  lemma GroupRunExtend(px: int, g0: int, n: nat)
    ensures GroupRun(px, g0, n + 1) == GroupRun(px, g0, n) + [(g0 + n) * SCREEN_WIDTH + px]
  {
  }

  /** Column `px` holds its span bytes in row-groups `lo / 8 .. n - 1`; every
      other byte is as in `buf`. */
  predicate ColumnDone(r: Buffer, buf: Buffer, t: Table, px: u8, lo: int, hi: int, intensity: u8, n: int)
    requires t.Valid() && px < SCREEN_WIDTH
  {
    forall i | 0 <= i < BUFFER_SIZE ::
      r[i] == if i % SCREEN_WIDTH == px && lo / 8 <= i / SCREEN_WIDTH < n
              then SpanByte(t, px, i / SCREEN_WIDTH, lo, hi, intensity) else buf[i]
  }

  /** Storing the span byte of group `n` extends a finished prefix by one group. */
  lemma ColumnDoneStore(r: Buffer, buf: Buffer, t: Table, px: u8, lo: int, hi: int, intensity: u8, y: int)
    requires t.Valid() && px < SCREEN_WIDTH && 0 <= lo <= y < SCREEN_HEIGHT
    requires ColumnDone(r, buf, t, px, lo, hi, intensity, y / 8)
    ensures ColumnDone(DrawByte(r, px, y, SpanByte(t, px, y / 8, lo, hi, intensity)), buf, t, px, lo, hi, intensity, y / 8 + 1)
  {
  }

  /** The state of the row loop of column `px` before row `y`: the partial
      byte holds the rows of group `y / 8` above `y`, and the groups above it
      have been stored, in order. */
  predicate RowLoop(buf: Buffer, r: Buffer, b: bv8, written: seq<int>,
                    t: Table, px: u8, lo: int, hi: int, intensity: u8, y: int)
    requires t.Valid() && px < SCREEN_WIDTH
  {
    && 0 <= lo <= y <= hi + 1 && hi < RENDER_HEIGHT
    && b == PackRows(t, px, y / 8, y % 8, lo, hi, intensity)
    && ColumnDone(r, buf, t, px, lo, hi, intensity, y / 8)
    && written == GroupRun(px, lo / 8, y / 8 - lo / 8)
  }

  /** A row that does not end its row-group only extends the partial byte. */
  method PackRow(buf: Buffer, r: Buffer, b: bv8, written: seq<int>,
                 t: Table, px: u8, lo: int, hi: int, intensity: u8, y: int)
    returns (b': bv8)
    requires t.Valid() && px < SCREEN_WIDTH && y <= hi && y % 8 != 7
    requires RowLoop(buf, r, b, written, t, px, lo, hi, intensity, y)
    ensures RowLoop(buf, r, b', written, t, px, lo, hi, intensity, y + 1)
  {
    PackStep(t, px, y, lo, hi, intensity);
    NextRow(t, px, y, lo, hi, intensity);
    b' := b | BoolBit(GradientPixel(t, px, y, intensity), y % 8);
  }

  /** A row that ends its row-group completes the byte, which is stored; the
      next group starts from an empty byte. */
  method StoreRow(buf: Buffer, r: Buffer, b: bv8, written: seq<int>,
                  t: Table, px: u8, lo: int, hi: int, intensity: u8, y: int)
    returns (r': Buffer, written': seq<int>)
    requires t.Valid() && px < SCREEN_WIDTH && y <= hi && y % 8 == 7
    requires RowLoop(buf, r, b, written, t, px, lo, hi, intensity, y)
    ensures RowLoop(buf, r', 0, written', t, px, lo, hi, intensity, y + 1)
  {
    PackStep(t, px, y, lo, hi, intensity);
    NextRow(t, px, y, lo, hi, intensity);
    ColumnDoneStore(r, buf, t, px, lo, hi, intensity, y);
    GroupRunExtend(px, lo / 8, y / 8 - lo / 8);
    r' := DrawByte(r, px, y, b | BoolBit(GradientPixel(t, px, y, intensity), y % 8));
    written' := written + [ByteIndex(px, y)];
  }

  /** One pass of the row loop: pack the pixel of row `y` at bit `y % 8`,
      and store the byte when that bit is the last of its row-group. */
  method DrawRow(buf: Buffer, r: Buffer, b: bv8, written: seq<int>,
                 t: Table, px: u8, lo: int, hi: int, intensity: u8, y: int)
    returns (r': Buffer, b': bv8, written': seq<int>, bp: int)
    requires t.Valid() && px < SCREEN_WIDTH && y <= hi
    requires RowLoop(buf, r, b, written, t, px, lo, hi, intensity, y)
    ensures RowLoop(buf, r', b', written', t, px, lo, hi, intensity, y + 1)
    ensures bp == y % 8
  {
    bp := y % 8;
    if bp == 7 {
      r', written' := StoreRow(buf, r, b, written, t, px, lo, hi, intensity, y);
      b' := 0;
    } else {
      b' := PackRow(buf, r, b, written, t, px, lo, hi, intensity, y);
      r', written' := r, written;
    }
  }

  /** The "draw last byte" step: after the row loop, store the partial byte
      unless the last row ended its row-group. */
  method FlushColumn(buf: Buffer, r: Buffer, b: bv8, written: seq<int>,
                     t: Table, px: u8, lo: int, hi: int, intensity: u8, bp: int)
    returns (r': Buffer, written': seq<int>)
    requires t.Valid() && px < SCREEN_WIDTH && lo <= hi && bp == hi % 8
    requires RowLoop(buf, r, b, written, t, px, lo, hi, intensity, hi + 1)
    ensures ColumnDone(r', buf, t, px, lo, hi, intensity, hi / 8 + 1)
    ensures written' == ColumnWrites(px, lo, hi)
  {
    r', written' := r, written;
    if bp != 7 {
      assert (hi + 1) / 8 == hi / 8 && (hi + 1) % 8 == bp + 1;
      PackRowsPastSpan(t, px, hi / 8, bp + 1, lo, hi, intensity);
      ColumnDoneStore(r, buf, t, px, lo, hi, intensity, hi);
      r' := DrawByte(r, px, hi, b);
      GroupRunExtend(px, lo / 8, hi / 8 - lo / 8);
      written' := written + [ByteIndex(px, hi)];
    } else {
      assert (hi + 1) / 8 == hi / 8 + 1;
    }
  }

  /** One pass of the `for (c ...)` loop of `drawVLine`: column `px`, rows
      `lo..hi`, packed into a local byte that is stored at every row-group end
      and once more, partially, after the last row. Returns the buffer and the
      byte indices passed to `drawByte`, in order. */
  method DrawColumn(buf: Buffer, t: Table, px: u8, lo: int, hi: int, intensity: u8)
    returns (r: Buffer, written: seq<int>)
    requires t.Valid() && px < SCREEN_WIDTH && 0 <= lo <= hi < RENDER_HEIGHT
    ensures ColumnDone(r, buf, t, px, lo, hi, intensity, hi / 8 + 1)
    ensures written == ColumnWrites(px, lo, hi)
  {
    r, written := buf, [];
    var bp: int := 0;
    var y := lo;
    var b: bv8 := 0;
    PackRowsBeforeSpan(t, px, y / 8, y % 8, lo, hi, intensity);
    while y <= hi
      invariant RowLoop(buf, r, b, written, t, px, lo, hi, intensity, y)
      invariant y > lo ==> bp == (y - 1) % 8
    {
      r, b, written, bp := DrawRow(buf, r, b, written, t, px, lo, hi, intensity, y);
      y := y + 1;
    }
    r, written := FlushColumn(buf, r, b, written, t, px, lo, hi, intensity, bp);
  }

  /** `drawVLine(x, startY, endY, intensity)`: the column pass for `x` and for
      `x + 1`. Also returns the byte indices passed to `drawByte`, in order. The
      source demands a non-empty span (the final write reads `bp` otherwise
      uninitialised) and does not test `x`. */
  method DrawVLine(buf: Buffer, t: Table, x: u8, startY: i8, endY: i8, intensity: u8)
    returns (r: Buffer, written: seq<int>)
    requires t.Valid()
    requires x + RES_DIVIDER - 1 < SCREEN_WIDTH
    requires Lower(startY, endY) <= Higher(startY, endY)
    ensures r == VLineBuffer(buf, t, x, Lower(startY, endY), Higher(startY, endY), intensity)
    ensures written == ColumnWrites(x, Lower(startY, endY), Higher(startY, endY))
                     + ColumnWrites(x + 1, Lower(startY, endY), Higher(startY, endY))
  {
    var lo, hi := Lower(startY, endY), Higher(startY, endY);
    r, written := buf, [];
    var c := 0;
    while c < RES_DIVIDER
      invariant 0 <= c <= RES_DIVIDER
      invariant forall i | 0 <= i < BUFFER_SIZE ::
        r[i] == if InBlock(i, x, c, lo, hi) then SpanByte(t, i % SCREEN_WIDTH, i / SCREEN_WIDTH, lo, hi, intensity) else buf[i]
      invariant written == if c == 0 then [] else if c == 1 then ColumnWrites(x, lo, hi)
                           else ColumnWrites(x, lo, hi) + ColumnWrites(x + 1, lo, hi)
    {
      var column;
      r, column := DrawColumn(r, t, x + c, lo, hi, intensity);
      written := written + column;
      c := c + 1;
    }
  }

  /** Pixel view of the line: in the touched row-groups of columns x and x+1,
      rows inside [lo, hi] take the shader's value and rows outside are cleared;
      every other pixel is kept. */
  lemma VLinePixels(buf: Buffer, t: Table, x: u8, lo: int, hi: int, intensity: u8, px: int, py: int)
    requires t.Valid() && x + RES_DIVIDER - 1 < SCREEN_WIDTH && OnScreen(px, py)
    ensures GetPixel(VLineBuffer(buf, t, x, lo, hi, intensity), px, py)
         == if x <= px < x + RES_DIVIDER && lo / 8 <= py / 8 <= hi / 8
            then lo <= py <= hi && GradientPixel(t, px, py, intensity)
            else GetPixel(buf, px, py)
  {
    var i := ByteIndex(px, py);
    if InBlock(i, x, RES_DIVIDER, lo, hi) {
      PackRowsBits(t, px, py / 8, 8, lo, hi, intensity, py % 8);
    }
  }

  /** `drawVLine` stores each byte at most once. */
  lemma WritesDistinct(x: u8, lo: int, hi: int)
    requires x + RES_DIVIDER - 1 < SCREEN_WIDTH && 0 <= lo <= hi < RENDER_HEIGHT
    ensures var w := ColumnWrites(x, lo, hi) + ColumnWrites(x + 1, lo, hi);
      forall j, k | 0 <= j < k < |w| :: w[j] != w[k]
  {
    var a, b := ColumnWrites(x, lo, hi), ColumnWrites(x + 1, lo, hi);
    var w := a + b;
    forall j, k | 0 <= j < k < |w|
      ensures w[j] != w[k]
    {
      if k < |a| || j >= |a| {
      } else {
        assert w[j] == a[j] && w[k] == b[k - |a|];
        assert a[j] % SCREEN_WIDTH == x && b[k - |a|] % SCREEN_WIDTH == x + 1;
      }
    }
  }

  /** The bytes `drawVLine` stores are exactly the touched block. */
  lemma WritesCoverBlock(x: u8, lo: int, hi: int)
    requires x + RES_DIVIDER - 1 < SCREEN_WIDTH && 0 <= lo <= hi < RENDER_HEIGHT
    ensures var w := ColumnWrites(x, lo, hi) + ColumnWrites(x + 1, lo, hi);
      forall i | 0 <= i < BUFFER_SIZE :: i in w <==> InBlock(i, x, RES_DIVIDER, lo, hi)
  {
    var w := ColumnWrites(x, lo, hi) + ColumnWrites(x + 1, lo, hi);
    forall i | 0 <= i < BUFFER_SIZE
      ensures i in w <==> InBlock(i, x, RES_DIVIDER, lo, hi)
    {
      if i in w {
        WrittenInBlock(x, lo, hi, i);
      }
      if InBlock(i, x, RES_DIVIDER, lo, hi) {
        BlockWritten(x, lo, hi, i);
      }
    }
  }

  /** Every stored byte lies in the touched block. */
  lemma WrittenInBlock(x: u8, lo: int, hi: int, i: int)
    requires x + RES_DIVIDER - 1 < SCREEN_WIDTH && 0 <= lo <= hi < RENDER_HEIGHT
    requires i in ColumnWrites(x, lo, hi) + ColumnWrites(x + 1, lo, hi)
    ensures InBlock(i, x, RES_DIVIDER, lo, hi)
  {
    var a, b := ColumnWrites(x, lo, hi), ColumnWrites(x + 1, lo, hi);
    var px := if i in a then x as int else x + 1;
    var col := ColumnWrites(px, lo, hi);
    assert i in col;
    var k :| 0 <= k < |col| && col[k] == i;
    assert i == (lo / 8 + k) * SCREEN_WIDTH + px;
    DivModUnique(i, SCREEN_WIDTH, lo / 8 + k, px);
  }

  /** Every byte of the touched block is stored. */
  lemma BlockWritten(x: u8, lo: int, hi: int, i: int)
    requires x + RES_DIVIDER - 1 < SCREEN_WIDTH && 0 <= lo <= hi < RENDER_HEIGHT
    requires 0 <= i < BUFFER_SIZE && InBlock(i, x, RES_DIVIDER, lo, hi)
    ensures i in ColumnWrites(x, lo, hi) + ColumnWrites(x + 1, lo, hi)
  {
    var a, b := ColumnWrites(x, lo, hi), ColumnWrites(x + 1, lo, hi);
    var g := i / SCREEN_WIDTH;
    if i % SCREEN_WIDTH == x {
      assert a[g - lo / 8] == i;
      assert i in a;
    } else {
      assert b[g - lo / 8] == i;
      assert i in b;
    }
  }

  /** Shading extremes: intensity 0 paints the span black, the top level paints it white. */
  lemma VLineExtremes(buf: Buffer, t: Table, x: u8, lo: int, hi: int, intensity: u8, px: int, py: int)
    requires t.Valid() && x + RES_DIVIDER - 1 < SCREEN_WIDTH && OnScreen(px, py)
    requires x <= px < x + RES_DIVIDER && lo <= py <= hi
    ensures intensity == 0 ==> !GetPixel(VLineBuffer(buf, t, x, lo, hi, intensity), px, py)
    ensures intensity > 0 && intensity >= t.count - 1 ==> GetPixel(VLineBuffer(buf, t, x, lo, hi, intensity), px, py)
  {
    VLinePixels(buf, t, x, lo, hi, intensity, px, py);
  }

  /** The order of the two end rows does not matter. */
  lemma EndsCommute(startY: i8, endY: i8)
    ensures Lower(startY, endY) == Lower(endY, startY) && Higher(startY, endY) == Higher(endY, startY)
    ensures Lower(startY, endY) >= 0 && Higher(startY, endY) < RENDER_HEIGHT
  {
  }

  /** Worked example: a full-intensity line at column 10 over rows 0..15 fills
      bytes 10 and 138, and the replicated column 11 fills bytes 11 and 139. */
  lemma WhiteLineExample(buf: Buffer, t: Table, intensity: u8)
    requires t.Valid() && intensity > 0 && intensity >= t.count - 1
    ensures var r := VLineBuffer(buf, t, 10, 0, 15, intensity);
      r[10] == 0xFF && r[138] == 0xFF && r[11] == 0xFF && r[139] == 0xFF
  {
    var r := VLineBuffer(buf, t, 10, 0, 15, intensity);
    forall i | i in {10, 11, 138, 139}
      ensures r[i] == 0xFF
    {
      forall k | 0 <= k < 8
        ensures LsbBit(r[i], k) == LsbBit(0xFF, k)
      {
        PackRowsBits(t, i % SCREEN_WIDTH, i / SCREEN_WIDTH, 8, 0, 15, intensity, k);
        match k
        case 0 => case 1 => case 2 => case 3 =>
        case 4 => case 5 => case 6 => case 7 =>
      }
      ByteExtensional(r[i], 0xFF);
    }
  }
}
