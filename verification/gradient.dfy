/** The ordered-dither shader `getGradientPixel`: answers whether pixel (x, y)
    is lit at shading level `i`, faking grey levels on the 1-bit display. */
module Gradient {
  import opened Bits
  import opened Arith

  /** The external dither tables: `count` levels, each a tile of `height` rows
      of `width` bytes. Because the table index is an `uint8_t`, exactly the 256
      flash bytes starting at `gradient` can be read; `bytes` holds them.
      The index is summed in the 16-bit signed `int` of the AVR, and both
      operands of its `%` must stay below 32768 for the sum to be the exact
      one: `y * width` for every `uint8_t` row (so `width` is at most 128),
      and `width * height`. */
  datatype Table = Table(bytes: seq<bv8>, count: u8, width: u8, height: u8) {
    predicate Valid() {
      && |bytes| == 0x100 && width >= 1 && height >= 1
      && width <= 128 && width * height < 0x8000
    }
  }

  /** The table byte read for an interior level, with the sum reduced to `uint8_t`. */
  function TableIndex(t: Table, x: u8, y: u8, i: u8): u8
    requires t.Valid()
  {
    var w, h := t.width as int, t.height as int;
    Wrap8(Max(0, Min(t.count - 1, i)) * w * h + (y * w) % (w * h) + (x / h) % w)
  }

  /** `getGradientPixel(x, y, i)`. */
  function GradientPixel(t: Table, x: u8, y: u8, i: u8): (lit: bool)
    requires t.Valid()
    ensures i == 0 ==> !lit
    ensures i > 0 && i >= t.count - 1 ==> lit
  {
    if i <= 0 then false
    else if i >= t.count - 1 then true
    else MsbBit(t.bytes[TableIndex(t, x, y, i)], x % 8)
  }

  /** For an interior level the clamp is inert: the bit read is MSB-first bit
      `x % 8` of byte `(i*w*h + (y*w) % (w*h) + (x/h) % w) mod 256`, that is
      byte `x / h mod w` of row `y mod h` of tile `i`. */
  lemma InteriorLevel(t: Table, x: u8, y: u8, i: u8)
    requires t.Valid() && 0 < i < t.count - 1
    ensures var w, h := t.width as int, t.height as int;
      GradientPixel(t, x, y, i)
        == MsbBit(t.bytes[(i * (w * h) + w * (y % h) + (x / h) % w) % 0x100], x % 8)
  {
    var w, h := t.width as int, t.height as int;
    RowOffset(y, w, h);
    assert i * w * h == i * (w * h) by { MulAssoc(i, w, h); }
  }

  /** `(y * w) % (w * h)` is the start of row `y mod h` of a tile `w` bytes wide. */
  lemma RowOffset(y: nat, w: nat, h: nat)
    requires w >= 1 && h >= 1
    ensures (y * w) % (w * h) == w * (y % h)
  {
    var q, r := y / h, y % h;
    assert y == q * h + r;
    assert y * w == (q * h + r) * w;
    assert (q * h + r) * w == q * (w * h) + w * r by {
      assert (q * h) * w == q * (w * h) by { MulAssoc(q, h, w); }
    }
    assert 0 <= w * r < w * h by {
      assert w * r <= w * (h - 1) by { MulMonotone(w, r, h - 1); }
    }
    ModOfMultiplePlus(q, w * h, w * r);
  }

  /** The dither pattern repeats every `height` rows. */
  lemma TilingRows(t: Table, x: u8, y: u8, i: u8)
    requires t.Valid() && y + t.height < 0x100
    ensures GradientPixel(t, x, y + t.height, i) == GradientPixel(t, x, y, i)
  {
    var w, h := t.width as int, t.height as int;
    if 0 < i < t.count - 1 {
      var y' := y + t.height;
      InteriorLevel(t, x, y, i);
      InteriorLevel(t, x, y', i);
      assert y' % h == y % h by {
        DivOfMultiplePlus(y, 1, h);
      }
      assert w * (y' % h) == w * (y % h);
    }
  }

  /** The dither pattern repeats every `8 * width * height` columns. */
  lemma TilingColumns(t: Table, x: u8, y: u8, i: u8)
    requires t.Valid() && x + 8 * t.width * t.height < 0x100
    ensures GradientPixel(t, x + 8 * t.width * t.height, y, i) == GradientPixel(t, x, y, i)
  {
    var w, h := t.width as int, t.height as int;
    if 0 < i < t.count - 1 {
      var x' := x + 8 * w * h;
      InteriorLevel(t, x, y, i);
      InteriorLevel(t, x', y, i);
      ShiftByPeriod(x, w, h);
    }
  }
}
