/** `drawSprite`: a masked, scaled sprite blit with a single depth test, in
    raycaster-viewport mode. The floating-point scaling is abstracted: the
    on-screen size, the block size and the screen-to-source coordinate maps
    are given. */
module Sprite {
  import opened Bits
  import opened Framebuffer
  import opened Arith

  /** Distances are stored in the depth buffer multiplied by this factor. */
  const DISTANCE_MULTIPLIER := 10

  /** One sprite draw.
      `bitmap` and `mask` are the 256 flash bytes reachable from the two
      tables through an `uint8_t` offset; `w`, `h` and `index` are the sheet
      geometry and the frame drawn; `tw`, `th` (screen size), `pixelSize`
      (block side) and `sx`, `sy` (the source column and row for every value
      of the `uint8_t` screen counters) are the results of the `double`
      arithmetic on `distance`. */
  datatype Sprite = Sprite(
    bitmap: seq<bv8>, mask: seq<bv8>,
    w: i16, h: i16, index: u8,
    tw: u8, th: u8, pixelSize: u8,
    sx: seq<u8>, sy: seq<u8>)
  {
    predicate Valid() {
      && |bitmap| == 0x100 && |mask| == 0x100
      && |sx| == 0x100 && |sy| == 0x100
      && pixelSize >= 1
      && CounterEnds(tw, pixelSize) && CounterEnds(th, pixelSize)
    }
  }

  /** The `uint8_t` loop `for (t = 0; t < limit; t += step)` stops: its last
      value plus `step` does not wrap past 255. Otherwise the counter wraps
      and the loop does not terminate in the intended way. */
  predicate CounterEnds(limit: int, step: int)
    requires step >= 1
  {
    limit == 0 || ((limit - 1) / step) * step + step <= 0xFF
  }

  /** Every value the counter takes is followed by an increment that does not wrap. */
  lemma CounterNoWrap(limit: int, step: int, t: int)
    requires step >= 1 && 0 <= limit && CounterEnds(limit, step)
    requires 0 <= t < limit && t % step == 0
    ensures t + step <= 0xFF
  {
    var k := t / step;
    assert t == k * step;
    assert k <= (limit - 1) / step by {
      assert k * step <= limit - 1;
      DivLowerBound(limit - 1, step, k);
    }
    assert k * step <= ((limit - 1) / step) * step by {
      MulMonotoneRight(k, (limit - 1) / step, step);
    }
  }

  lemma MulMonotoneRight(a: int, b: int, m: int)
    requires a <= b && m >= 0
    ensures a * m <= b * m
  {
    MulNonneg(b - a, m);
  }

  // ---------------------------------------------------------------- depth test

  /** The depth-buffer entry consulted, as written: the column is clamped to
      `ZBUFFER_SIZE - 1` before the division, so only entries 0..7 can be
      reached. */
  function ZIndexAsWritten(x: i8): int {
    Min(Max(x, 0), ZBUFFER_SIZE - 1) / Z_RES_DIVIDER
  }

  /** The clamped index is in bounds, but never past entry 7, so a sprite at
      column 100 is compared with the depth of columns 28..31 (entry 7), not
      with the depth of its own columns (entry 25). */
  lemma ZIndexAsWrittenStuck(x: i8)
    ensures 0 <= ZIndexAsWritten(x) < ZBUFFER_SIZE
    ensures ZIndexAsWritten(x) <= 7
    ensures ZIndexAsWritten(100) == 7 && ZIndex(100) == 25
  {
  }

  /** The depth-buffer entry covering the sprite's column: the column is
      clamped to the screen before the division. */
  function ZIndex(x: i8): (i: int)
    ensures 0 <= i < ZBUFFER_SIZE
    ensures 0 <= x < SCREEN_WIDTH ==> i == x / Z_RES_DIVIDER
    ensures x < 0 ==> i == 0
  {
    Min(Max(x, 0), SCREEN_WIDTH - 1) / Z_RES_DIVIDER
  }

  /** The two indices agree exactly on the columns left of 32, the ones the
      clamp to `ZBUFFER_SIZE - 1` leaves alone. */
  lemma ZIndexAgree(x: i8)
    ensures ZIndexAsWritten(x) == ZIndex(x) <==> x < ZBUFFER_SIZE
  {
    if x >= ZBUFFER_SIZE {
      assert ZIndexAsWritten(x) == 7;
      assert ZIndex(x) >= 8;
    }
  }

  /** The early return as written: a nearer wall is recorded at depth entry
      `ZIndexAsWritten(x)`. */
  predicate HiddenAsWritten(zbuffer: seq<u8>, x: i8, distance: real)
    requires |zbuffer| == ZBUFFER_SIZE
  {
    (zbuffer[ZIndexAsWritten(x)] as real) < distance * DISTANCE_MULTIPLIER as real
  }

  /** The corrected early return: a nearer wall is recorded at the sprite's column. */
  predicate Hidden(zbuffer: seq<u8>, x: i8, distance: real)
    requires |zbuffer| == ZBUFFER_SIZE
  {
    (zbuffer[ZIndex(x)] as real) < distance * DISTANCE_MULTIPLIER as real
  }

  // ---------------------------------------------------------------- source bits

  /** `w / 8` as an `uint8_t`. */
  function ByteWidth(s: Sprite): u8 {
    Wrap8(CDiv(s.w, 8))
  }

  /** `byte_width * h * sprite` as an `uint16_t`. */
  function SpriteOffset(s: Sprite): u16 {
    Wrap16(ByteWidth(s) * s.h * s.index)
  }

  /** The table offset of source column `sx`, row `sy`, reduced to `uint8_t`. */
  function ByteOffset(s: Sprite, sx: u8, sy: u8): u8 {
    Wrap8(SpriteOffset(s) + sy * ByteWidth(s) + sx / 8)
  }

  /** The mask bit behind screen offset (tx, ty). */
  predicate MaskBit(s: Sprite, tx: u8, ty: u8)
    requires s.Valid()
  {
    MsbBit(s.mask[ByteOffset(s, s.sx[tx], s.sy[ty])], s.sx[tx] % 8)
  }

  /** The bitmap bit behind screen offset (tx, ty): the colour drawn. */
  predicate PixelBit(s: Sprite, tx: u8, ty: u8)
    requires s.Valid()
  {
    MsbBit(s.bitmap[ByteOffset(s, s.sx[tx], s.sy[ty])], s.sx[tx] % 8)
  }

  // ---------------------------------------------------------------- the plots

  /** The `ox`/`oy` loops: a `ps` by `ps` block at (px, py), column by column,
      every coordinate converted to `int8_t`. */
  function Block(px: int, py: int, ps: nat, color: bool): (plots: seq<Plot>)
    ensures |plots| == ps * ps
  {
    seq(ps * ps, k requires 0 <= k < ps * ps => Plot(ToInt8(px + k / ps), ToInt8(py + k % ps), color, true))
  }

  /** The body of the `tx` loop: skip off-screen columns, and draw the block
      only where the mask is set. */
  function Cell(s: Sprite, x: i8, y: i8, tx: u8, ty: u8): seq<Plot>
    requires s.Valid()
  {
    if x + tx < 0 || x + tx >= SCREEN_WIDTH then []
    else if MaskBit(s, tx, ty) then Block(x + tx, y + ty, s.pixelSize, PixelBit(s, tx, ty))
    else []
  }

  /** The `tx` loop from `tx` on. */
  function RowFrom(s: Sprite, x: i8, y: i8, ty: u8, tx: nat): seq<Plot>
    requires s.Valid()
    decreases s.tw - tx
  {
    if tx >= s.tw then []
    else Cell(s, x, y, tx, ty) + RowFrom(s, x, y, ty, tx + s.pixelSize)
  }

  /** The `ty` loop from `ty` on; rows off the raycaster viewport are skipped. */
  function RowsFrom(s: Sprite, x: i8, y: i8, ty: nat): seq<Plot>
    requires s.Valid()
    decreases s.th - ty
  {
    if ty >= s.th then []
    else
      (if y + ty < 0 || y + ty >= RENDER_HEIGHT then [] else RowFrom(s, x, y, ty, 0))
      + RowsFrom(s, x, y, ty + s.pixelSize)
  }

  // ---------------------------------------------------------------- properties

  /** Where a plot comes from: the screen offset (tx, ty) of a visible block
      whose mask bit is set, drawn in its bitmap bit, at offset (ox, oy)
      inside the block. */
  predicate Origin(s: Sprite, x: i8, y: i8, p: Plot, tx: int, ty: int)
    requires s.Valid()
  {
    && 0 <= tx < s.tw && 0 <= ty < s.th
    && 0 <= x + tx < SCREEN_WIDTH && 0 <= y + ty < RENDER_HEIGHT
    && MaskBit(s, tx, ty)
    && p.color == PixelBit(s, tx, ty) && p.viewport
    && exists k | 0 <= k < s.pixelSize * s.pixelSize ::
         p.x == ToInt8(x + tx + k / s.pixelSize) && p.y == ToInt8(y + ty + k % s.pixelSize)
  }

  lemma BlockOrigin(s: Sprite, x: i8, y: i8, tx: u8, ty: u8, p: Plot)
    requires s.Valid() && 0 <= tx < s.tw && 0 <= ty < s.th
    requires 0 <= x + tx < SCREEN_WIDTH && 0 <= y + ty < RENDER_HEIGHT
    requires p in Cell(s, x, y, tx, ty)
    ensures Origin(s, x, y, p, tx, ty)
  {
    var ps := s.pixelSize as int;
    var b := Block(x + tx, y + ty, ps, PixelBit(s, tx, ty));
    var k :| 0 <= k < |b| && b[k] == p;
    assert p.x == ToInt8(x + tx + k / ps) && p.y == ToInt8(y + ty + k % ps);
  }

  lemma {:induction false} RowOrigin(s: Sprite, x: i8, y: i8, ty: u8, tx: nat, p: Plot)
    requires s.Valid() && 0 <= ty < s.th && 0 <= y + ty < RENDER_HEIGHT
    requires p in RowFrom(s, x, y, ty, tx)
    ensures exists tx' :: Origin(s, x, y, p, tx', ty)
    decreases s.tw - tx
  {
    if tx < s.tw {
      if p in Cell(s, x, y, tx, ty) {
        BlockOrigin(s, x, y, tx, ty, p);
      } else {
        RowOrigin(s, x, y, ty, tx + s.pixelSize, p);
      }
    }
  }

  lemma {:induction false} RowsOrigin(s: Sprite, x: i8, y: i8, ty: nat, p: Plot)
    requires s.Valid()
    requires p in RowsFrom(s, x, y, ty)
    ensures exists tx, ty' :: Origin(s, x, y, p, tx, ty')
    decreases s.th - ty
  {
    if ty < s.th {
      var row := if y + ty < 0 || y + ty >= RENDER_HEIGHT then [] else RowFrom(s, x, y, ty, 0);
      var rest := RowsFrom(s, x, y, ty + s.pixelSize);
      assert RowsFrom(s, x, y, ty) == row + rest;
      if p in row {
        RowOrigin(s, x, y, ty, 0, p);
      } else {
        assert p in rest;
        RowsOrigin(s, x, y, ty + s.pixelSize, p);
      }
    }
  }

  /** Every `drawPixel` call of an unhidden sprite, in order. Each comes from a
      visible block whose mask bit is set, carries that block's bitmap bit,
      lands inside that block, and is made in viewport mode. */
  function SpritePlots(s: Sprite, x: i8, y: i8): (plots: seq<Plot>)
    requires s.Valid()
    ensures forall p | p in plots :: exists tx, ty :: Origin(s, x, y, p, tx, ty)
  {
    assert forall p | p in RowsFrom(s, x, y, 0) :: exists tx, ty :: Origin(s, x, y, p, tx, ty) by {
      forall p | p in RowsFrom(s, x, y, 0)
        ensures exists tx, ty :: Origin(s, x, y, p, tx, ty)
      {
        RowsOrigin(s, x, y, 0, p);
      }
    }
    RowsFrom(s, x, y, 0)
  }

  /** Viewport-mode calls never change the HUD rows. */
  lemma SpriteSparesHud(buf: Buffer, s: Sprite, x: i8, y: i8)
    requires s.Valid()
    ensures forall px, py | OnScreen(px, py) && py >= RENDER_HEIGHT ::
      GetPixel(Apply(buf, SpritePlots(s, x, y)), px, py) == GetPixel(buf, px, py)
  {
    var plots := SpritePlots(s, x, y);
    forall px, py | OnScreen(px, py) && py >= RENDER_HEIGHT
      ensures GetPixel(Apply(buf, plots), px, py) == GetPixel(buf, px, py)
    {
      forall p | p in plots
        ensures p.viewport
      {
        var tx, ty :| Origin(s, x, y, p, tx, ty);
      }
      ApplyViewportOnly(buf, plots, px, py);
    }
  }

  /** `drawSprite(x, y, bitmap, mask, w, h, sprite, distance)` as written: the
      depth test reads entry `ZIndexAsWritten(x)`. A sprite failing it leaves
      the buffer alone, and no sprite changes the HUD rows. */
  function DrawSprite(buf: Buffer, s: Sprite, x: i8, y: i8, zbuffer: seq<u8>, distance: real): (r: Buffer)
    requires s.Valid() && |zbuffer| == ZBUFFER_SIZE
    ensures HiddenAsWritten(zbuffer, x, distance) ==> r == buf
    ensures forall px, py | OnScreen(px, py) && py >= RENDER_HEIGHT :: GetPixel(r, px, py) == GetPixel(buf, px, py)
  {
    SpriteSparesHud(buf, s, x, y);
    if HiddenAsWritten(zbuffer, x, distance) then buf else Apply(buf, SpritePlots(s, x, y))
  }

  /** `drawSprite` with the corrected depth test, which reads the entry
      `ZIndex(x)` covering the sprite's column. */
  function DrawSpriteCorrected(buf: Buffer, s: Sprite, x: i8, y: i8, zbuffer: seq<u8>, distance: real): (r: Buffer)
    requires s.Valid() && |zbuffer| == ZBUFFER_SIZE
    ensures Hidden(zbuffer, x, distance) ==> r == buf
    ensures forall px, py | OnScreen(px, py) && py >= RENDER_HEIGHT :: GetPixel(r, px, py) == GetPixel(buf, px, py)
  {
    SpriteSparesHud(buf, s, x, y);
    if Hidden(zbuffer, x, distance) then buf else Apply(buf, SpritePlots(s, x, y))
  }

  /** Left of column 32 both depth tests read the same entry, so the program
      as written and the corrected one draw the same. */
  lemma DrawSpriteAgreesLeft(buf: Buffer, s: Sprite, x: i8, y: i8, zbuffer: seq<u8>, distance: real)
    requires s.Valid() && |zbuffer| == ZBUFFER_SIZE && x < ZBUFFER_SIZE
    ensures DrawSprite(buf, s, x, y, zbuffer, distance) == DrawSpriteCorrected(buf, s, x, y, zbuffer, distance)
  {
    ZIndexAgree(x);
  }

  /** At column 100 the two differ: when entry 7 records a wall nearer than
      the sprite and entry 25, the one covering the sprite, does not, the
      program as written draws nothing and the corrected one draws the sprite. */
  lemma DepthTestDiverges(buf: Buffer, s: Sprite, y: i8, zbuffer: seq<u8>)
    requires s.Valid() && |zbuffer| == ZBUFFER_SIZE
    requires zbuffer[7] < DISTANCE_MULTIPLIER <= zbuffer[25]
    ensures DrawSprite(buf, s, 100, y, zbuffer, 1.0) == buf
    ensures DrawSpriteCorrected(buf, s, 100, y, zbuffer, 1.0) == Apply(buf, SpritePlots(s, 100, y))
  {
    assert ZIndexAsWritten(100) == 7 && ZIndex(100) == 25;
  }

  /** A pixel outside every masked block the sprite draws keeps its value. */
  lemma PlotsFootprint(buf: Buffer, s: Sprite, x: i8, y: i8, px: int, py: int)
    requires s.Valid() && OnScreen(px, py)
    requires py >= RENDER_HEIGHT || forall p | p in SpritePlots(s, x, y) :: !Hits(p, px, py)
    ensures GetPixel(Apply(buf, SpritePlots(s, x, y)), px, py) == GetPixel(buf, px, py)
  {
    if py < RENDER_HEIGHT {
      ApplyUntouched(buf, SpritePlots(s, x, y), px, py);
    } else {
      SpriteSparesHud(buf, s, x, y);
    }
  }

  /** As written: a sprite failing the depth test of `ZIndexAsWritten` leaves
      the buffer alone; any other only changes pixels of the raycaster
      viewport that some masked block covers. */
  lemma DrawSpriteFootprint(buf: Buffer, s: Sprite, x: i8, y: i8, zbuffer: seq<u8>, distance: real,
                            px: int, py: int)
    requires s.Valid() && |zbuffer| == ZBUFFER_SIZE && OnScreen(px, py)
    requires HiddenAsWritten(zbuffer, x, distance) || py >= RENDER_HEIGHT
          || forall p | p in SpritePlots(s, x, y) :: !Hits(p, px, py)
    ensures GetPixel(DrawSprite(buf, s, x, y, zbuffer, distance), px, py) == GetPixel(buf, px, py)
  {
    if !HiddenAsWritten(zbuffer, x, distance) {
      PlotsFootprint(buf, s, x, y, px, py);
    }
  }

  /** The same for the corrected depth test. */
  lemma DrawSpriteCorrectedFootprint(buf: Buffer, s: Sprite, x: i8, y: i8, zbuffer: seq<u8>, distance: real,
                                     px: int, py: int)
    requires s.Valid() && |zbuffer| == ZBUFFER_SIZE && OnScreen(px, py)
    requires Hidden(zbuffer, x, distance) || py >= RENDER_HEIGHT
          || forall p | p in SpritePlots(s, x, y) :: !Hits(p, px, py)
    ensures GetPixel(DrawSpriteCorrected(buf, s, x, y, zbuffer, distance), px, py) == GetPixel(buf, px, py)
  {
    if !Hidden(zbuffer, x, distance) {
      PlotsFootprint(buf, s, x, y, px, py);
    }
  }

  /** No call in a row whose mask bits are all clear. */
  lemma {:induction false} RowEmpty(s: Sprite, x: i8, y: i8, ty: u8, tx: nat)
    requires s.Valid()
    requires forall tx': u8 :: !MaskBit(s, tx', ty)
    ensures RowFrom(s, x, y, ty, tx) == []
    decreases s.tw - tx
  {
    if tx < s.tw {
      RowEmpty(s, x, y, ty, tx + s.pixelSize);
    }
  }

  lemma {:induction false} RowsEmpty(s: Sprite, x: i8, y: i8, ty: nat)
    requires s.Valid()
    requires forall tx': u8, ty': u8 :: !MaskBit(s, tx', ty')
    ensures RowsFrom(s, x, y, ty) == []
    decreases s.th - ty
  {
    if ty < s.th {
      RowEmpty(s, x, y, ty, 0);
      RowsEmpty(s, x, y, ty + s.pixelSize);
    }
  }

  /** With a blank mask nothing is drawn, whichever depth test is used. */
  lemma BlankMaskDrawsNothing(buf: Buffer, s: Sprite, x: i8, y: i8, zbuffer: seq<u8>, distance: real)
    requires s.Valid() && |zbuffer| == ZBUFFER_SIZE
    requires forall i | 0 <= i < |s.mask| :: s.mask[i] == 0
    ensures DrawSprite(buf, s, x, y, zbuffer, distance) == buf
    ensures DrawSpriteCorrected(buf, s, x, y, zbuffer, distance) == buf
  {
    forall tx': u8, ty': u8
      ensures !MaskBit(s, tx', ty')
    {
      assert s.mask[ByteOffset(s, s.sx[tx'], s.sy[ty'])] == 0;
    }
    RowsEmpty(s, x, y, 0);
  }

  /** The `tx` loop reaches every column offset the counter reaches from `tx`. */
  lemma {:induction false} CellInRow(s: Sprite, x: i8, y: i8, ty: u8, tx: nat, tx': u8, p: Plot)
    requires s.Valid() && tx' < s.tw && Reaches(tx, tx', s.pixelSize as int)
    requires p in Cell(s, x, y, tx', ty)
    ensures p in RowFrom(s, x, y, ty, tx)
    decreases tx' - tx
  {
    var cell := Cell(s, x, y, tx, ty);
    var rest := RowFrom(s, x, y, ty, tx + s.pixelSize);
    assert RowFrom(s, x, y, ty, tx) == cell + rest;
    if tx < tx' {
      CellInRow(s, x, y, ty, tx + s.pixelSize, tx', p);
      InRight(cell, rest, p);
    } else {
      InLeft(cell, rest, p);
    }
  }

  /** The `ty` loop reaches every row offset the counter reaches from `ty`. */
  lemma {:induction false} RowInRows(s: Sprite, x: i8, y: i8, ty: nat, ty': u8, p: Plot)
    requires s.Valid() && ty' < s.th && Reaches(ty, ty', s.pixelSize as int)
    requires 0 <= y + ty' < RENDER_HEIGHT
    requires p in RowFrom(s, x, y, ty', 0)
    ensures p in RowsFrom(s, x, y, ty)
    decreases ty' - ty
  {
    var row := if y + ty < 0 || y + ty >= RENDER_HEIGHT then [] else RowFrom(s, x, y, ty, 0);
    var rest := RowsFrom(s, x, y, ty + s.pixelSize);
    assert RowsFrom(s, x, y, ty) == row + rest;
    if ty < ty' {
      RowInRows(s, x, y, ty + s.pixelSize, ty', p);
      InRight(row, rest, p);
    } else {
      InLeft(row, rest, p);
    }
  }

  /** Conversely, every visible block on the counters' grid whose mask bit is
      set is drawn: all its calls are among the sprite's calls. */
  lemma SpritePlotsComplete(s: Sprite, x: i8, y: i8, tx: u8, ty: u8)
    requires s.Valid() && tx < s.tw && ty < s.th
    requires tx % s.pixelSize == 0 && ty % s.pixelSize == 0
    requires 0 <= x + tx < SCREEN_WIDTH && 0 <= y + ty < RENDER_HEIGHT
    requires MaskBit(s, tx, ty)
    ensures forall p | p in Block(x + tx, y + ty, s.pixelSize, PixelBit(s, tx, ty)) :: p in SpritePlots(s, x, y)
  {
    forall p | p in Block(x + tx, y + ty, s.pixelSize, PixelBit(s, tx, ty))
      ensures p in SpritePlots(s, x, y)
    {
      assert p in Cell(s, x, y, tx, ty);
      ReachesMultiple(tx, s.pixelSize as int);
      ReachesMultiple(ty, s.pixelSize as int);
      CellInRow(s, x, y, ty, 0, tx, p);
      RowInRows(s, x, y, 0, ty, p);
    }
  }
}
