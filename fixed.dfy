/**
 * Fixed-width fields: big-endian 32- and 64-bit integers and the one-byte
 * boolean (written strictly as 0 or 1, read leniently: any non-zero byte is
 * true).
 */
module Fixed {
  import opened Wrappers
  import opened Errors
  import opened Ints

  /** `write_int`: the four big-endian bytes of the value's 32-bit pattern. */
  function IntBytes(x: i32): (r: seq<byte>)
    ensures |r| == 4
  {
    BigEndian(U32OfI32(x), 4)
  }

  /** `read_int`: four big-endian bytes read as an `i32`; fewer than four is a truncation. */
  function ReadInt(s: seq<byte>): (r: Read<i32>)
    ensures r.Ok? <==> |s| >= 4
    ensures r.Ok? ==> r.value.1 == s[4..]
    ensures r.Err? ==> r.error == Truncated
  {
    if |s| < 4 then Err(Truncated) else Ok((I32OfU32(FromBigEndian(s[..4])), s[4..]))
  }

  /** `write_long`: the eight big-endian bytes of the value's 64-bit pattern. */
  function LongBytes(x: i64): (r: seq<byte>)
    ensures |r| == 8
  {
    BigEndian(U64OfI64(x), 8)
  }

  /** `read_long`: eight big-endian bytes read as an `i64`. */
  function ReadLong(s: seq<byte>): (r: Read<i64>)
    ensures r.Ok? <==> |s| >= 8
    ensures r.Ok? ==> r.value.1 == s[8..]
    ensures r.Err? ==> r.error == Truncated
  {
    if |s| < 8 then Err(Truncated) else Ok((I64OfU64(FromBigEndian(s[..8])), s[8..]))
  }

  function BoolBytes(b: bool): (r: seq<byte>)
    ensures |r| == 1
  {
    [if b then 1 else 0]
  }

  function ReadBool(s: seq<byte>): (r: Read<bool>)
    ensures r.Ok? <==> |s| >= 1
    ensures r.Ok? ==> r.value == (s[0] != 0, s[1..])
    ensures r.Err? ==> r.error == Truncated
  {
    if |s| < 1 then Err(Truncated) else Ok((s[0] != 0, s[1..]))
  }

  /** The 32-bit pattern of a written `i32` is the big-endian number of its bytes. */
  lemma IntBytesValue(x: i32)
    ensures FromBigEndian(IntBytes(x)) == U32OfI32(x)
  {
    FromBigEndianOfBigEndian(U32OfI32(x), 4);
  }

  lemma IntRoundTrip(x: i32, rest: seq<byte>)
    ensures ReadInt(IntBytes(x) + rest) == Ok((x, rest))
  {
    var s := IntBytes(x) + rest;
    assert s[..4] == IntBytes(x);
    IntBytesValue(x);
    Casts32Inverse(x, 0);
  }

  lemma LongRoundTrip(x: i64, rest: seq<byte>)
    ensures ReadLong(LongBytes(x) + rest) == Ok((x, rest))
  {
    var s := LongBytes(x) + rest;
    assert s[..8] == LongBytes(x);
    FromBigEndianOfBigEndian(U64OfI64(x), 8);
    Casts64Inverse(x, 0);
  }

  lemma BoolRoundTrip(b: bool, rest: seq<byte>)
    ensures ReadBool(BoolBytes(b) + rest) == Ok((b, rest))
  {
    assert (BoolBytes(b) + rest)[1..] == rest;
  }
}
