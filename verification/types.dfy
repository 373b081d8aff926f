/** The second copy of the UID helpers, kept next to the coordinate helpers.
    It computes the same expressions as `Uid`; the lemmas below show the two
    agree on every input and carry the `Uid` properties over. */
module TypesUid {
  import opened Bits
  import Uid

  /** `create_uid(type, x, y)` of the coordinate-helper file. */
  function CreateUid(t: u8, x: u8, y: u8): (r: u16)
    ensures r == Uid.CreateUid(t, x, y)
  {
    Wrap16((y * Uid.LEVEL_WIDTH + x) * 16 + ((t as bv8) & 0x0F) as int)
  }

  /** `uid_get_type(uid)` of the coordinate-helper file. */
  function UidGetType(uid: u16): (t: u8)
    ensures t == Uid.UidGetType(uid)
  {
    uid % 16
  }

  /** The type nibble survives encoding and decoding, under 16-bit wrap too. */
  lemma TypeRoundTrip(t: u8, x: u8, y: u8)
    ensures UidGetType(CreateUid(t, x, y)) == t % 16
  {
    Uid.TypeRoundTrip(t, x, y);
  }

  /** Type bits above the low nibble are discarded, and the decoded type is below 16. */
  lemma TypeDiscardedAndBounded(t: u8, x: u8, y: u8, uid: u16)
    ensures CreateUid(t, x, y) == CreateUid(t % 16, x, y)
    ensures UidGetType(uid) < 16
  {
    Uid.HighTypeBitsIgnored(t, x, y);
  }

  /** Inside the level the encoding neither wraps nor collides. */
  lemma InLevelInjective(t: u8, x: u8, y: u8, t': u8, x': u8, y': u8)
    requires Uid.InLevel(x, y) && Uid.InLevel(x', y')
    ensures CreateUid(t, x, y) <= 58367
    ensures CreateUid(t, x, y) == CreateUid(t', x', y') ==> t % 16 == t' % 16 && x == x' && y == y'
  {
    Uid.InLevelDecodes(t, x, y);
    if CreateUid(t, x, y) == CreateUid(t', x', y') {
      Uid.InLevelInjective(t, x, y, t', x', y');
    }
  }
}
