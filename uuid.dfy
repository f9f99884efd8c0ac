/**
 * A 128-bit RFC 4122 UUID, taken as the number its sixteen bytes spell in
 * network (big-endian) order, and its split into four 32-bit words, most
 * significant first, as `to_int_array` / `from_int_array` do.
 */
module Uuid {
  import opened Ints

  const TWO_128: int := 0x1_0000_0000_0000_0000_0000_0000_0000_0000

  type Uuid = u: int | 0 <= u < TWO_128

  /** The most significant 64 bits, then the least, each split high word first. */
  function ToIntArray(u: Uuid): (ws: seq<u32>)
    ensures |ws| == 4
  {
    var most, least := u / TWO_64, u % TWO_64;
    [most / TWO_32, most % TWO_32, least / TWO_32, least % TWO_32]
  }

  function FromIntArray(ws: seq<u32>): Uuid
    requires |ws| == 4
  {
    var most := ws[0] * TWO_32 + ws[1];
    var least := ws[2] * TWO_32 + ws[3];
    most * TWO_64 + least
  }

  /** Splitting and joining the words loses nothing. */
  lemma FromToIntArray(u: Uuid)
    ensures FromIntArray(ToIntArray(u)) == u
  {
  }

  /** Every four words are the split of exactly one UUID. */
  lemma ToFromIntArray(ws: seq<u32>)
    requires |ws| == 4
    ensures ToIntArray(FromIntArray(ws)) == ws
  {
    var most := ws[0] * TWO_32 + ws[1];
    var least := ws[2] * TWO_32 + ws[3];
    assert (most * TWO_64 + least) / TWO_64 == most;
    assert (most * TWO_64 + least) % TWO_64 == least;
  }
}
