/** Entity identifiers: a 16-bit `UID` packs an entity's level cell and its
    4-bit type as `(y * LEVEL_WIDTH + x) * 16 + type`. */
module Uid {
  import opened Bits
  import opened Arith

  const LEVEL_WIDTH := 64
  const LEVEL_HEIGHT := 57

  /** `UID_null`. */
  const UID_NULL: u16 := 0

  /** `type & 0b00001111`. */
  function LowNibble(t: u8): (r: u8)
    ensures r == t % 16
  {
    MaskIsMod16(t);
    ((t as bv8) & 0x0F) as int
  }


  /** `create_uid(type, x, y)`: computed in `int` and returned as an
      `uint16_t`, so the value is reduced modulo 65536. */
  function CreateUid(t: u8, x: u8, y: u8): (uid: u16)
    ensures uid % 16 == t % 16
  {
    var v := (y * LEVEL_WIDTH + x) * 16 + LowNibble(t);
    Wrap16Mod16(v);
    DivModUnique(v, 16, y * LEVEL_WIDTH + x, LowNibble(t));
    Wrap16(v)
  }

  /** `uid_get_type(uid)`. */
  function UidGetType(uid: u16): (t: u8)
    ensures t < 16
  {
    uid % 16
  }

  /** Reducing modulo 65536 keeps the residue modulo 16. */
  lemma Wrap16Mod16(v: nat)
    ensures Wrap16(v) % 16 == v % 16
  {
    var q := v / 0x1_0000;
    assert v == q * 0x1_0000 + Wrap16(v);
    DivModUnique(v, 16, q * 0x1000 + Wrap16(v) / 16, Wrap16(v) % 16);
  }

  /** The type survives encoding and decoding, even when the packed value
      wraps: 65536 is a multiple of 16. */
  lemma TypeRoundTrip(t: u8, x: u8, y: u8)
    ensures UidGetType(CreateUid(t, x, y)) == LowNibble(t)
  {
    var v := (y * LEVEL_WIDTH + x) * 16 + LowNibble(t);
    Wrap16Mod16(v);
    DivModUnique(v, 16, y * LEVEL_WIDTH + x, LowNibble(t));
  }

  /** Type bits above the low nibble are discarded. */
  lemma HighTypeBitsIgnored(t: u8, x: u8, y: u8)
    ensures CreateUid(t, x, y) == CreateUid(LowNibble(t), x, y)
  {
  }

  /** A cell inside the level. */
  predicate InLevel(x: u8, y: u8) {
    x < LEVEL_WIDTH && y < LEVEL_HEIGHT
  }

  /** Inside the level the packed value does not wrap, and it splits back
      into the cell and the type. */
  lemma InLevelDecodes(t: u8, x: u8, y: u8)
    requires InLevel(x, y)
    ensures CreateUid(t, x, y) == (y * LEVEL_WIDTH + x) * 16 + LowNibble(t) <= 58367
    ensures CreateUid(t, x, y) / 16 == y * LEVEL_WIDTH + x
    ensures CreateUid(t, x, y) / 16 % LEVEL_WIDTH == x && CreateUid(t, x, y) / 16 / LEVEL_WIDTH == y
  {
    var cell := y * LEVEL_WIDTH + x;
    assert cell <= 56 * 64 + 63 by { MulMonotone(64, y, 56); }
    DivModUnique(cell * 16 + LowNibble(t), 16, cell, LowNibble(t));
    DivModUnique(cell, LEVEL_WIDTH, y, x);
  }

  /** Inside the level, distinct (type nibble, x, y) give distinct UIDs. */
  lemma InLevelInjective(t: u8, x: u8, y: u8, t': u8, x': u8, y': u8)
    requires InLevel(x, y) && InLevel(x', y')
    requires CreateUid(t, x, y) == CreateUid(t', x', y')
    ensures LowNibble(t) == LowNibble(t') && x == x' && y == y'
  {
    InLevelDecodes(t, x, y);
    InLevelDecodes(t', x', y');
    TypeRoundTrip(t, x, y);
    TypeRoundTrip(t', x', y');
  }

  /** Inside the level, only a type-0 entity at (0, 0) has the null UID. */
  lemma NullCollision(t: u8, x: u8, y: u8)
    requires InLevel(x, y)
    ensures CreateUid(t, x, y) == UID_NULL <==> LowNibble(t) == 0 && x == 0 && y == 0
  {
    InLevelDecodes(t, x, y);
  }

  /** Outside the level the value wraps: row 64 of column 0 also packs to
      the null UID. */
  lemma NullCollisionOutside()
    ensures CreateUid(0, 0, 64) == UID_NULL && !InLevel(0, 64)
  {
  }
}
