/** `drawBitmap`: a 1-bit bitmap blit whose set bits are drawn with the
    dither shader, faking a brightness level. */
module Bitmap {
  import opened Bits
  import opened Arith
  import opened Framebuffer
  import opened Gradient

  /** The scanline length in bytes: each row is padded to whole bytes. */
  function ByteWidth(w: i16): int {
    CDiv(w + 7, 8)
  }

  /** The bitmap holds `h` scanlines of `ByteWidth(w)` bytes. */
  predicate Covers(bitmap: seq<bv8>, w: i16, h: i16) {
    w <= 0 || h <= 0 || h * ByteWidth(w) <= |bitmap|
  }

  /** The source byte holding column `i` of row `j`. */
  function SourceByte(bitmap: seq<bv8>, w: i16, h: i16, i: int, j: int): bv8
    requires Covers(bitmap, w, h) && 0 <= i < w && 0 <= j < h
  {
    assert j * ByteWidth(w) + i / 8 < |bitmap| by { ScanlineInBounds(w, h, i, j); }
    bitmap[j * ByteWidth(w) + i / 8]
  }

  /** The source bit of column `i`, row `j`, read MSB-first. */
  predicate SourceBit(bitmap: seq<bv8>, w: i16, h: i16, i: int, j: int)
    requires Covers(bitmap, w, h) && 0 <= i < w && 0 <= j < h
  {
    MsbBit(SourceByte(bitmap, w, h, i, j), i % 8)
  }

  lemma ScanlineInBounds(w: i16, h: i16, i: int, j: int)
    requires 0 <= i < w && 0 <= j < h
    ensures 0 <= j * ByteWidth(w) + i / 8 < h * ByteWidth(w)
  {
    var bw := ByteWidth(w);
    assert i / 8 < bw;
    MulMonotone(bw, j, h - 1);
    assert (h - 1) * bw + bw == h * bw;
  }

  /** The call for column `i`, row `j`: the coordinates converted to `int8_t`
      (the row by the wrapping `y++`), the shade taken with the row and
      column swapped and reduced to `uint8_t`, full-screen mode. */
  function BitmapPlot(t: Table, x: i8, y: i8, i: int, j: int, brightness: u8): Plot
    requires t.Valid()
  {
    Plot(ToInt8(x + i), ToInt8(y + j), GradientPixel(t, Wrap8(j), Wrap8(i), brightness), false)
  }

  /** The calls for the first `n` columns of row `j`. */
  function BitmapRow(t: Table, x: i8, y: i8, bitmap: seq<bv8>, w: i16, h: i16, brightness: u8, j: int, n: nat): seq<Plot>
    requires t.Valid() && Covers(bitmap, w, h) && 0 <= j < h && n <= Max(w, 0)
  {
    if n == 0 then []
    else
      BitmapRow(t, x, y, bitmap, w, h, brightness, j, n - 1)
      + (if SourceBit(bitmap, w, h, n - 1, j) then [BitmapPlot(t, x, y, n - 1, j, brightness)] else [])
  }

  /** The calls for the first `m` rows. */
  function BitmapRows(t: Table, x: i8, y: i8, bitmap: seq<bv8>, w: i16, h: i16, brightness: u8, m: nat): seq<Plot>
    requires t.Valid() && Covers(bitmap, w, h) && m <= Max(h, 0)
  {
    if m == 0 then []
    else
      BitmapRows(t, x, y, bitmap, w, h, brightness, m - 1)
      + BitmapRow(t, x, y, bitmap, w, h, brightness, m - 1, Max(w, 0))
  }

  /** All calls of the blit, row by row, each row left to right; each call
      is that of a (column, row) whose source bit is set. */
  function BitmapPlots(t: Table, x: i8, y: i8, bitmap: seq<bv8>, w: i16, h: i16, brightness: u8): (plots: seq<Plot>)
    requires t.Valid() && Covers(bitmap, w, h)
    ensures forall p | p in plots :: exists i, j :: Drawn(t, x, y, bitmap, w, h, brightness, p, i, j)
  {
    var plots := BitmapRows(t, x, y, bitmap, w, h, brightness, Max(h, 0));
    assert forall p | p in plots :: exists i, j :: Drawn(t, x, y, bitmap, w, h, brightness, p, i, j) by {
      forall p | p in plots
        ensures exists i, j :: Drawn(t, x, y, bitmap, w, h, brightness, p, i, j)
      {
        var i, j := RowsOrigin(t, x, y, bitmap, w, h, brightness, Max(h, 0), p);
      }
    }
    plots
  }

  /** The `dot` update of column `i`: a fresh byte at a multiple of eight,
      otherwise one more left shift; either way the top bit is then the
      source bit of column `i`. */
  lemma DotStep(bitmap: seq<bv8>, w: i16, h: i16, i: int, j: int, dot: bv8)
    requires Covers(bitmap, w, h) && 0 <= i < w && 0 <= j < h
    requires i > 0 ==> dot == SourceByte(bitmap, w, h, i - 1, j) << ((i - 1) % 8)
    ensures 0 <= j * ByteWidth(w) + i / 8 < |bitmap|
    ensures i % 8 != 0 ==> dot << 1 == SourceByte(bitmap, w, h, i, j) << (i % 8)
    ensures i % 8 == 0 ==> bitmap[j * ByteWidth(w) + i / 8] == SourceByte(bitmap, w, h, i, j) << (i % 8)
    ensures (SourceByte(bitmap, w, h, i, j) << (i % 8)) & 0x80 != 0 <==> SourceBit(bitmap, w, h, i, j)
  {
    ScanlineInBounds(w, h, i, j);
    if i % 8 != 0 {
      DotShift(bitmap, w, h, i, j, dot);
    }
    ShiftedTopBit(SourceByte(bitmap, w, h, i, j), i % 8);
  }

  /** Inside a byte, `dot <<= 1` brings the next column's bit to the top. */
  lemma DotShift(bitmap: seq<bv8>, w: i16, h: i16, i: int, j: int, dot: bv8)
    requires Covers(bitmap, w, h) && 0 < i < w && 0 <= j < h && i % 8 != 0
    requires dot == SourceByte(bitmap, w, h, i - 1, j) << ((i - 1) % 8)
    ensures dot << 1 == SourceByte(bitmap, w, h, i, j) << (i % 8)
  {
    var k := (i - 1) % 8;
    assert (i - 1) / 8 == i / 8 && k + 1 == i % 8;
    var b := SourceByte(bitmap, w, h, i, j);
    assert SourceByte(bitmap, w, h, i - 1, j) == b;
    ShiftStep(b, k);
  }

  /** Column `i` extends the row's calls by its call exactly when its bit is set. */
  lemma RowStep(r0: Buffer, r: Buffer, t: Table, x: i8, y: i8, bitmap: seq<bv8>, w: i16, h: i16, brightness: u8,
                j: int, i: int, lit: bool)
    requires t.Valid() && Covers(bitmap, w, h) && 0 <= j < h && 0 <= i < w
    requires r == Apply(r0, BitmapRow(t, x, y, bitmap, w, h, brightness, j, i))
    requires lit == SourceBit(bitmap, w, h, i, j)
    ensures Apply(r0, BitmapRow(t, x, y, bitmap, w, h, brightness, j, i + 1))
         == if lit then DrawPixel(r, ToInt8(x + i), ToInt8(y + j), GradientPixel(t, Wrap8(j), Wrap8(i), brightness), false)
            else r
  {
    var before := BitmapRow(t, x, y, bitmap, w, h, brightness, j, i);
    var p := BitmapPlot(t, x, y, i, j, brightness);
    if lit {
      assert BitmapRow(t, x, y, bitmap, w, h, brightness, j, i + 1) == before + [p];
      ApplySnoc(r0, before, p);
    } else {
      assert BitmapRow(t, x, y, bitmap, w, h, brightness, j, i + 1) == before + [];
      assert before + [] == before;
    }
  }

  /** Column `i` of row `j`: update `dot`, then plot the pixel when its top
      bit is set. */
  method DrawBitmapColumn(r0: Buffer, r: Buffer, t: Table, x: i8, y: i8, bitmap: seq<bv8>, w: i16, h: i16,
                          brightness: u8, j: int, row: i8, i: int, dot: bv8)
    returns (r': Buffer, dot': bv8)
    requires t.Valid() && Covers(bitmap, w, h) && 0 <= j < h && row == ToInt8(y + j) && 0 <= i < w
    requires r == Apply(r0, BitmapRow(t, x, y, bitmap, w, h, brightness, j, i))
    requires i > 0 ==> dot == SourceByte(bitmap, w, h, i - 1, j) << ((i - 1) % 8)
    ensures r' == Apply(r0, BitmapRow(t, x, y, bitmap, w, h, brightness, j, i + 1))
    ensures dot' == SourceByte(bitmap, w, h, i, j) << (i % 8)
  {
    DotStep(bitmap, w, h, i, j, dot);
    if i % 8 != 0 {
      dot' := dot << 1;
    } else {
      dot' := bitmap[j * ByteWidth(w) + i / 8];
    }
    var lit := dot' & 0x80 != 0;
    RowStep(r0, r, t, x, y, bitmap, w, h, brightness, j, i, lit);
    r' := r;
    if lit {
      r' := DrawPixel(r, ToInt8(x + i), row, GradientPixel(t, Wrap8(j), Wrap8(i), brightness), false);
    }
  }

  /** One pass of the inner `for (i ...)` loop of `drawBitmap`, on row `j`
      drawn at screen row `row`. */
  method DrawBitmapRow(r0: Buffer, t: Table, x: i8, y: i8, bitmap: seq<bv8>, w: i16, h: i16, brightness: u8,
                       j: int, row: i8, dot0: bv8)
    returns (r: Buffer, dot: bv8)
    requires t.Valid() && Covers(bitmap, w, h) && 0 <= j < h && row == ToInt8(y + j)
    ensures r == Apply(r0, BitmapRow(t, x, y, bitmap, w, h, brightness, j, Max(w, 0)))
  {
    r, dot := r0, dot0;
    var i := 0;
    while i < w
      invariant 0 <= i <= Max(w, 0)
      invariant r == Apply(r0, BitmapRow(t, x, y, bitmap, w, h, brightness, j, i))
      invariant i > 0 ==> dot == SourceByte(bitmap, w, h, i - 1, j) << ((i - 1) % 8)
    {
      r, dot := DrawBitmapColumn(r0, r, t, x, y, bitmap, w, h, brightness, j, row, i, dot);
      i := i + 1;
    }
  }

  /** `drawBitmap(x, y, bitmap, w, h, brightness)`: `dot` holds the current
      source byte, loaded at every multiple of eight columns and shifted left
      once per column in between, so that its top bit is the current source
      bit. */
  method DrawBitmap(buf: Buffer, t: Table, x: i8, y: i8, bitmap: seq<bv8>, w: i16, h: i16, brightness: u8)
    returns (r: Buffer)
    requires t.Valid() && Covers(bitmap, w, h)
    ensures r == Apply(buf, BitmapPlots(t, x, y, bitmap, w, h, brightness))
  {
    var dot: bv8 := 0;
    r := buf;
    var row: i8 := y;
    var j := 0;
    while j < h
      invariant 0 <= j <= Max(h, 0)
      invariant row == ToInt8(y + j)
      invariant r == Apply(buf, BitmapRows(t, x, y, bitmap, w, h, brightness, j))
    {
      ApplyAppend(buf, BitmapRows(t, x, y, bitmap, w, h, brightness, j),
                  BitmapRow(t, x, y, bitmap, w, h, brightness, j, Max(w, 0)));
      r, dot := DrawBitmapRow(r, t, x, y, bitmap, w, h, brightness, j, row, dot);
      j := j + 1;
      row := ToInt8(row + 1);
    }
  }

  // ---------------------------------------------------------------- footprint

  /** The call for (i, j) is made exactly when its source bit is set. */
  predicate Drawn(t: Table, x: i8, y: i8, bitmap: seq<bv8>, w: i16, h: i16, brightness: u8, p: Plot, i: int, j: int)
    requires t.Valid() && Covers(bitmap, w, h)
  {
    0 <= i < w && 0 <= j < h && SourceBit(bitmap, w, h, i, j) && p == BitmapPlot(t, x, y, i, j, brightness)
  }

  /** Every call of row `j` comes from a set bit of that row. */
  lemma {:induction false} RowOrigin(t: Table, x: i8, y: i8, bitmap: seq<bv8>, w: i16, h: i16, brightness: u8,
                                     j: int, n: nat, p: Plot)
    returns (i: int)
    requires t.Valid() && Covers(bitmap, w, h) && 0 <= j < h && n <= Max(w, 0)
    requires p in BitmapRow(t, x, y, bitmap, w, h, brightness, j, n)
    ensures 0 <= i < n && Drawn(t, x, y, bitmap, w, h, brightness, p, i, j)
  {
    if n > 0 {
      var before := BitmapRow(t, x, y, bitmap, w, h, brightness, j, n - 1);
      var last := if SourceBit(bitmap, w, h, n - 1, j) then [BitmapPlot(t, x, y, n - 1, j, brightness)] else [];
      InEither(before, last, p);
      if p in before {
        i := RowOrigin(t, x, y, bitmap, w, h, brightness, j, n - 1, p);
      } else {
        i := n - 1;
      }
    }
  }

  /** Every set bit of row `j` left of column `n` makes its call. */
  lemma {:induction false} RowComplete(t: Table, x: i8, y: i8, bitmap: seq<bv8>, w: i16, h: i16, brightness: u8,
                                       j: int, n: nat, i: int, p: Plot)
    requires t.Valid() && Covers(bitmap, w, h) && 0 <= j < h && n <= Max(w, 0)
    requires i < n && Drawn(t, x, y, bitmap, w, h, brightness, p, i, j)
    ensures p in BitmapRow(t, x, y, bitmap, w, h, brightness, j, n)
  {
    var before := BitmapRow(t, x, y, bitmap, w, h, brightness, j, n - 1);
    var last := if SourceBit(bitmap, w, h, n - 1, j) then [BitmapPlot(t, x, y, n - 1, j, brightness)] else [];
    if i < n - 1 {
      RowComplete(t, x, y, bitmap, w, h, brightness, j, n - 1, i, p);
      InLeft(before, last, p);
    } else {
      InRight(before, last, p);
    }
  }

  /** Every call of the first `m` rows comes from a set bit. */
  lemma {:induction false} RowsOrigin(t: Table, x: i8, y: i8, bitmap: seq<bv8>, w: i16, h: i16, brightness: u8,
                                      m: nat, p: Plot)
    returns (i: int, j: int)
    requires t.Valid() && Covers(bitmap, w, h) && m <= Max(h, 0)
    requires p in BitmapRows(t, x, y, bitmap, w, h, brightness, m)
    ensures 0 <= j < m && Drawn(t, x, y, bitmap, w, h, brightness, p, i, j)
  {
    if m > 0 {
      var rows := BitmapRows(t, x, y, bitmap, w, h, brightness, m - 1);
      var row := BitmapRow(t, x, y, bitmap, w, h, brightness, m - 1, Max(w, 0));
      InEither(rows, row, p);
      if p in rows {
        i, j := RowsOrigin(t, x, y, bitmap, w, h, brightness, m - 1, p);
      } else {
        j := m - 1;
        i := RowOrigin(t, x, y, bitmap, w, h, brightness, j, Max(w, 0), p);
      }
    }
  }

  /** Every set bit of the first `m` rows makes its call. */
  lemma {:induction false} RowsComplete(t: Table, x: i8, y: i8, bitmap: seq<bv8>, w: i16, h: i16, brightness: u8,
                                        m: nat, i: int, j: int, p: Plot)
    requires t.Valid() && Covers(bitmap, w, h) && m <= Max(h, 0)
    requires j < m && Drawn(t, x, y, bitmap, w, h, brightness, p, i, j)
    ensures p in BitmapRows(t, x, y, bitmap, w, h, brightness, m)
  {
    var rows := BitmapRows(t, x, y, bitmap, w, h, brightness, m - 1);
    var row := BitmapRow(t, x, y, bitmap, w, h, brightness, m - 1, Max(w, 0));
    if j < m - 1 {
      RowsComplete(t, x, y, bitmap, w, h, brightness, m - 1, i, j, p);
      InLeft(rows, row, p);
    } else {
      RowComplete(t, x, y, bitmap, w, h, brightness, j, Max(w, 0), i, p);
      InRight(rows, row, p);
    }
  }

  /** The blit draws one call per set source bit, and no other: a call is
      made exactly for the (column, row) pairs whose bit is 1, addressed with
      row stride `(w + 7) / 8`. */
  lemma BitmapPlotsExact(t: Table, x: i8, y: i8, bitmap: seq<bv8>, w: i16, h: i16, brightness: u8, p: Plot)
    requires t.Valid() && Covers(bitmap, w, h)
    ensures p in BitmapPlots(t, x, y, bitmap, w, h, brightness)
        <==> exists i, j :: Drawn(t, x, y, bitmap, w, h, brightness, p, i, j)
  {
    if p in BitmapPlots(t, x, y, bitmap, w, h, brightness) {
      var i, j := RowsOrigin(t, x, y, bitmap, w, h, brightness, Max(h, 0), p);
    }
    if exists i, j :: Drawn(t, x, y, bitmap, w, h, brightness, p, i, j) {
      var i, j :| Drawn(t, x, y, bitmap, w, h, brightness, p, i, j);
      RowsComplete(t, x, y, bitmap, w, h, brightness, Max(h, 0), i, j, p);
    }
  }

  /** Pixels onto which no set source bit maps keep their value. */
  lemma BitmapFootprint(buf: Buffer, t: Table, x: i8, y: i8, bitmap: seq<bv8>, w: i16, h: i16, brightness: u8, px: int, py: int)
    requires t.Valid() && Covers(bitmap, w, h) && OnScreen(px, py)
    requires forall i, j | 0 <= i < w && 0 <= j < h && SourceBit(bitmap, w, h, i, j) ::
               !(ToInt8(x + i) == px && ToInt8(y + j) == py)
    ensures GetPixel(Apply(buf, BitmapPlots(t, x, y, bitmap, w, h, brightness)), px, py) == GetPixel(buf, px, py)
  {
    var plots := BitmapPlots(t, x, y, bitmap, w, h, brightness);
    forall p | p in plots
      ensures !Hits(p, px, py)
    {
      BitmapPlotsExact(t, x, y, bitmap, w, h, brightness, p);
    }
    ApplyUntouched(buf, plots, px, py);
  }

  /** For a bitmap of at most 256 by 256 pixels, a set source bit that lands
      on the screen leaves its pixel in the shade of (row, column). */
  lemma BitmapPixelShade(buf: Buffer, t: Table, x: i8, y: i8, bitmap: seq<bv8>, w: i16, h: i16, brightness: u8, i: int, j: int)
    requires t.Valid() && Covers(bitmap, w, h) && w <= 0x100 && h <= 0x100
    requires 0 <= i < w && 0 <= j < h && SourceBit(bitmap, w, h, i, j)
    requires OnScreen(x + i, y + j)
    ensures GetPixel(Apply(buf, BitmapPlots(t, x, y, bitmap, w, h, brightness)), x + i, y + j)
         == GradientPixel(t, Wrap8(j), Wrap8(i), brightness)
  {
    var plots := BitmapPlots(t, x, y, bitmap, w, h, brightness);
    var c := GradientPixel(t, Wrap8(j), Wrap8(i), brightness);
    var q := BitmapPlot(t, x, y, i, j, brightness);
    RowsComplete(t, x, y, bitmap, w, h, brightness, Max(h, 0), i, j, q);
    assert q in plots && Hits(q, x + i, y + j);
    forall p | p in plots && Hits(p, x + i, y + j)
      ensures p.color == c
    {
      HitShade(t, x, y, bitmap, w, h, brightness, i, j, p);
    }
    ApplyUniformHits(buf, plots, x + i, y + j, c);
  }

  /** Every call landing on the pixel of (i, j) carries the shade of (i, j). */
  lemma HitShade(t: Table, x: i8, y: i8, bitmap: seq<bv8>, w: i16, h: i16, brightness: u8, i: int, j: int, p: Plot)
    requires t.Valid() && Covers(bitmap, w, h) && w <= 0x100 && h <= 0x100
    requires 0 <= i < w && 0 <= j < h && OnScreen(x + i, y + j)
    requires p in BitmapPlots(t, x, y, bitmap, w, h, brightness) && Hits(p, x + i, y + j)
    ensures p.color == GradientPixel(t, Wrap8(j), Wrap8(i), brightness)
  {
    var i', j' := RowsOrigin(t, x, y, bitmap, w, h, brightness, Max(h, 0), p);
    SameSource(t, x, y, bitmap, w, h, brightness, p, i, j, i', j');
  }

  /** In a bitmap of at most 256 by 256 pixels, the call landing on the
      on-screen pixel of (i, j) comes from (i, j) itself. */
  lemma SameSource(t: Table, x: i8, y: i8, bitmap: seq<bv8>, w: i16, h: i16, brightness: u8, p: Plot,
                   i: int, j: int, i': int, j': int)
    requires t.Valid() && Covers(bitmap, w, h) && w <= 0x100 && h <= 0x100
    requires 0 <= i < w && 0 <= j < h && OnScreen(x + i, y + j)
    requires Drawn(t, x, y, bitmap, w, h, brightness, p, i', j') && p.x == x + i && p.y == y + j
    ensures i' == i && j' == j && p == BitmapPlot(t, x, y, i, j, brightness)
  {
    assert ToInt8(x + i') == ToInt8(x + i) && ToInt8(y + j') == ToInt8(y + j);
    WrapInjective(x + i', x + i);
    WrapInjective(y + j', y + j);
  }
}
