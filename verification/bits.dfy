/** Fixed-width integer conversions and single-bit access on bytes, as the
    AVR C++ code performs them implicitly. */
module Bits {

  /** An `uint8_t` value. */
  type u8 = x: int | 0 <= x < 0x100

  /** An `uint16_t` value. */
  type u16 = x: int | 0 <= x < 0x1_0000

  /** An `int8_t` value. */
  type i8 = x: int | -0x80 <= x < 0x80

  /** An `int16_t` value. */
  type i16 = x: int | -0x8000 <= x < 0x8000

  /** Conversion of an integer to `uint8_t` (reduction modulo 256). */
  function Wrap8(v: int): (r: u8)
    ensures (r - v) % 0x100 == 0
  {
    v % 0x100
  }

  /** Conversion of an integer to `uint16_t` (reduction modulo 65536). */
  function Wrap16(v: int): (r: u16)
    ensures (r - v) % 0x1_0000 == 0
  {
    v % 0x1_0000
  }

  /** Conversion of an integer to `int8_t`, two's complement wrap-around. */
  function ToInt8(v: int): (r: i8)
    ensures (r - v) % 0x100 == 0
    ensures -0x80 <= v < 0x80 ==> r == v
  {
    (v + 0x80) % 0x100 - 0x80
  }

  /** Two values less than 256 apart with the same `int8_t` image are equal. */
  lemma WrapInjective(a: int, b: int)
    requires -0x100 < a - b < 0x100 && ToInt8(a) == ToInt8(b)
    ensures a == b
  {
    var qa, qb := (a + 0x80) / 0x100, (b + 0x80) / 0x100;
    assert a - b == (qa - qb) * 0x100;
  }

  /** C division of integers, which truncates toward zero. */
  function CDiv(a: int, b: int): (q: int)
    requires b > 0
    ensures a >= 0 ==> q == a / b
    ensures a < 0 ==> q == -((-a) / b)
  {
    if a >= 0 then a / b else -((-a) / b)
  }

  /** The byte values `1 << k` for `k` from 0 to 7. */
  const POWERS: seq<bv8> := [1, 2, 4, 8, 16, 32, 64, 128]

  /** `1 << k` as a byte. */
  function BitMask(k: nat): bv8
    requires k < 8
  {
    POWERS[k]
  }

  /** Bit `k` of `b`, counted from the least significant bit. */
  predicate LsbBit(b: bv8, k: nat)
    requires k < 8
  {
    b & BitMask(k) != 0
  }

  /** The `bit_mask` table: entry `n` selects bit `n` counted from the most significant bit. */
  const BIT_MASK: seq<bv8> := [128, 64, 32, 16, 8, 4, 2, 1]

  /** `read_bit(b, n)`: bit `n` of `b`, counted from the most significant bit. */
  predicate MsbBit(b: bv8, n: nat)
    requires n < 8
  {
    b & BIT_MASK[n] != 0
  }

  /** The byte whose only set bit is bit `k` when `p` holds, and zero otherwise
      (the value of `p << k` for a boolean `p`). */
  function BoolBit(p: bool, k: nat): bv8
    requires k < 8
  {
    if p then BitMask(k) else 0
  }

  lemma MsbIsMirroredLsb(b: bv8, n: nat)
    requires n < 8
    ensures MsbBit(b, n) == LsbBit(b, 7 - n)
  {
    assert BIT_MASK[n] == BitMask(7 - n) by {
      match n
      case 0 => case 1 => case 2 => case 3 =>
      case 4 => case 5 => case 6 => case 7 =>
    }
  }

  /** Setting bit `k` changes bit `k` to one and no other bit. */
  lemma SetBitSpec(b: bv8, k: nat, j: nat)
    requires k < 8 && j < 8
    ensures LsbBit(b | BitMask(k), j) == (j == k || LsbBit(b, j))
  {
    var m, n := BitMask(k), BitMask(j);
    DistinctMasks(k, j);
    assert (b | m) & n == (b & n) | (m & n);
    assert n != 0 by { match j case 0 => case 1 => case 2 => case 3 => case 4 => case 5 => case 6 => case 7 => }
  }

  /** Clearing bit `k` changes bit `k` to zero and no other bit. */
  lemma ClearBitSpec(b: bv8, k: nat, j: nat)
    requires k < 8 && j < 8
    ensures LsbBit(b & !BitMask(k), j) == (j != k && LsbBit(b, j))
  {
    var m, n := BitMask(k), BitMask(j);
    DistinctMasks(k, j);
    assert (b & !m) & n == b & (n & !m);
  }

  /** The byte update of a pixel write: bit `k` set when `color`, cleared otherwise. */
  function WriteBit(b: bv8, k: nat, color: bool): bv8
    requires k < 8
  {
    if color then b | BitMask(k) else b & !BitMask(k)
  }

  /** Writing bit `k` makes it `color` and keeps every other bit. */
  lemma WriteBitSpec(b: bv8, k: nat, j: nat, color: bool)
    requires k < 8 && j < 8
    ensures LsbBit(WriteBit(b, k, color), j) == if j == k then color else LsbBit(b, j)
  {
    if color {
      SetBitSpec(b, k, j);
    } else {
      ClearBitSpec(b, k, j);
    }
  }

  /** Masks of distinct bits share no bit. */
  lemma DistinctMasks(k: nat, j: nat)
    requires k < 8 && j < 8
    ensures BitMask(j) & !BitMask(k) == if j == k then 0 else BitMask(j)
  {
    match k
    case 0 => case 1 => case 2 => case 3 =>
    case 4 => case 5 => case 6 => case 7 =>
  }

  /** `b | (p << k)` sets bit `k` exactly when `p` holds. */
  lemma OrBoolBitSpec(b: bv8, p: bool, k: nat, j: nat)
    requires k < 8 && j < 8
    ensures LsbBit(b | BoolBit(p, k), j) == ((j == k && p) || LsbBit(b, j))
  {
    if p {
      SetBitSpec(b, k, j);
    } else {
      assert b | BoolBit(p, k) == b;
    }
  }

  /** A byte is determined by its eight bits. */
  lemma ByteExtensional(a: bv8, b: bv8)
    requires forall k | 0 <= k < 8 :: LsbBit(a, k) == LsbBit(b, k)
    ensures a == b
  {
    assert LsbBit(a, 0) == LsbBit(b, 0);
    assert LsbBit(a, 1) == LsbBit(b, 1);
    assert LsbBit(a, 2) == LsbBit(b, 2);
    assert LsbBit(a, 3) == LsbBit(b, 3);
    assert LsbBit(a, 4) == LsbBit(b, 4);
    assert LsbBit(a, 5) == LsbBit(b, 5);
    assert LsbBit(a, 6) == LsbBit(b, 6);
    assert LsbBit(a, 7) == LsbBit(b, 7);
  }

  /** `(b << k) & 0x80` tests the bit that `read_bit(b, k)` tests. */
  lemma ShiftedTopBit(b: bv8, k: nat)
    requires k < 8
    ensures ((b << k) & 0x80 != 0) == MsbBit(b, k)
  {
    if k < 4 {
      ShiftedTopBitLow(b, k);
    } else {
      ShiftedTopBitHigh(b, k);
    }
  }

  lemma ShiftedTopBitLow(b: bv8, k: nat)
    requires k < 4
    ensures ((b << k) & 0x80 != 0) == MsbBit(b, k)
  {
    match k
    case 0 => case 1 => case 2 => case 3 =>
  }

  lemma ShiftedTopBitHigh(b: bv8, k: nat)
    requires 4 <= k < 8
    ensures ((b << k) & 0x80 != 0) == MsbBit(b, k)
  {
    match k
    case 4 => case 5 => case 6 => case 7 =>
  }

  /** Shifting left by one more position is one further `<<= 1`. */
  lemma ShiftStep(b: bv8, k: nat)
    requires k < 7
    ensures (b << k) << 1 == b << (k + 1)
  {
    match k
    case 0 => case 1 => case 2 => case 3 =>
    case 4 => case 5 => case 6 =>
  }

  /** The byte `(p[7] << 7) | ... | (p[1] << 1) | p[0]` assembled from eight booleans. */
  function Byte8(p: seq<bool>): bv8
    requires |p| == 8
  {
    BoolBit(p[7], 7) | BoolBit(p[6], 6) | BoolBit(p[5], 5) | BoolBit(p[4], 4)
    | BoolBit(p[3], 3) | BoolBit(p[2], 2) | BoolBit(p[1], 1) | BoolBit(p[0], 0)
  }

  /** Bit `k` of the assembled byte is `p[k]`. */
  lemma Byte8Bits(p: seq<bool>, k: nat)
    requires |p| == 8 && k < 8
    ensures LsbBit(Byte8(p), k) == p[k]
  {
    // One pair of bits per lemma keeps each bit-vector proof small.
    if k < 2 { Byte8Bits01(p, k); }
    else if k < 4 { Byte8Bits23(p, k); }
    else if k < 6 { Byte8Bits45(p, k); }
    else { Byte8Bits67(p, k); }
  }

  lemma Byte8Bits01(p: seq<bool>, k: nat)
    requires |p| == 8 && 0 <= k <= 1
    ensures LsbBit(Byte8(p), k) == p[k]
  {
    if k == 0 {
    } else {
    }
  }

  lemma Byte8Bits23(p: seq<bool>, k: nat)
    requires |p| == 8 && 2 <= k <= 3
    ensures LsbBit(Byte8(p), k) == p[k]
  {
    if k == 2 {
    } else {
    }
  }

  lemma Byte8Bits45(p: seq<bool>, k: nat)
    requires |p| == 8 && 4 <= k <= 5
    ensures LsbBit(Byte8(p), k) == p[k]
  {
    if k == 4 {
    } else {
    }
  }

  lemma Byte8Bits67(p: seq<bool>, k: nat)
    requires |p| == 8 && 6 <= k <= 7
    ensures LsbBit(Byte8(p), k) == p[k]
  {
    if k == 6 {
    } else {
    }
  }

  /** Masking with `0b00001111` keeps the residue modulo 16. */
  lemma MaskIsMod16(t: u8)
    ensures ((t as bv8) & 0x0F) as int == t % 16
  {
    var b := t as bv8;
    assert b & 0x0F == b % 16;
  }
}
