/**
 * The protocol's variable-length integer: seven data bits per byte, lowest
 * group first, the high bit set on every byte but the last. A 32-bit value
 * takes at most five bytes; a negative `i32` is written through its
 * two's-complement bit pattern and so always takes five.
 */
module VarInt {
  import opened Wrappers
  import opened Errors
  import opened Ints

  const MAX_VARINT_BYTES: nat := 5
  const GROUP: int := 0x80

  function Pow128(n: nat): (r: nat)
    ensures r > 0
  {
    if n == 0 then 1 else GROUP * Pow128(n - 1)
  }

  /** The groups of a non-negative number, each carrying the continuation bit except the last. */
  function Groups(v: nat): (r: seq<byte>)
    ensures 1 <= |r|
    ensures forall j :: 0 <= j < |r| - 1 ==> r[j] >= GROUP
    ensures r[|r| - 1] < GROUP
  {
    if v < GROUP then [v] else [v % GROUP + GROUP] + Groups(v / GROUP)
  }

  /** `write_varint`: the groups of the value's 32-bit pattern. */
  function Write(x: i32): seq<byte>
  {
    Groups(U32OfI32(x))
  }

  /** Reading groups from the `i`-th on: a fifth byte that still asks for more is malformed. */
  function ReadGroups(s: seq<byte>, i: nat): (r: Read<nat>)
    requires i < MAX_VARINT_BYTES
    ensures r.Ok? ==> 1 <= |s| - |r.value.1| <= MAX_VARINT_BYTES - i
    ensures r.Ok? ==> r.value.1 == s[|s| - |r.value.1|..]
    ensures r.Ok? ==> r.value.0 < Pow128(MAX_VARINT_BYTES - i)
    ensures r.Err? ==> r.error == MalformedVarInt
    decreases MAX_VARINT_BYTES - i
  {
    if |s| == 0 then Err(MalformedVarInt)
    else if s[0] < GROUP then Ok((s[0], s[1..]))
    else if i == MAX_VARINT_BYTES - 1 then Err(MalformedVarInt)
    else
      match ReadGroups(s[1..], i + 1)
      case Err(e) => Err(e)
      case Ok((v, rest)) => Ok((s[0] - GROUP + GROUP * v, rest))
  }

  /**
   * `read_varint`: at most five groups, the bits past the 32nd dropped, the
   * result read as an `i32`. It consumes one to five bytes from the front.
   */
  function Read(s: seq<byte>): (r: Read<i32>)
    ensures r.Ok? ==> 1 <= |s| - |r.value.1| <= MAX_VARINT_BYTES
    ensures r.Ok? ==> r.value.1 == s[|s| - |r.value.1|..]
    ensures r.Err? ==> r.error == MalformedVarInt
  {
    match ReadGroups(s, 0)
    case Err(e) => Err(e)
    case Ok((v, rest)) => Ok((I32OfU32(v % TWO_32), rest))
  }

  /** A `#[var]` `u32` field: written and read through its `i32` bit pattern. */
  function WriteU32(u: u32): seq<byte>
  {
    Write(I32OfU32(u))
  }

  function ReadU32(s: seq<byte>): (r: Read<u32>)
    ensures r.Ok? ==> 1 <= |s| - |r.value.1| <= MAX_VARINT_BYTES
    ensures r.Ok? ==> r.value.1 == s[|s| - |r.value.1|..]
    ensures r.Err? ==> r.error == MalformedVarInt
  {
    match Read(s)
    case Err(e) => Err(e)
    case Ok((x, rest)) => Ok((U32OfI32(x), rest))
  }

  /** A number below 128^k takes at most k groups. */
  lemma {:induction false} GroupsLength(v: nat, k: nat)
    requires 1 <= k && v < Pow128(k)
    ensures |Groups(v)| <= k
  {
    if v >= GROUP {
      assert k > 0 && Pow128(k) == GROUP * Pow128(k - 1);
      assert Groups(v) == [v % GROUP + GROUP] + Groups(v / GROUP);
      GroupsLength(v / GROUP, k - 1);
    }
  }

  /** A number at least 128^k takes more than k groups. */
  lemma {:induction false} GroupsLengthAbove(v: nat, k: nat)
    requires Pow128(k) <= v
    ensures k < |Groups(v)|
  {
    if k > 0 {
      assert Pow128(k) == GROUP * Pow128(k - 1);
      GroupsLengthAbove(v / GROUP, k - 1);
    }
  }

  lemma {:induction false} ReadGroupsOfGroups(v: nat, i: nat, rest: seq<byte>)
    requires i < MAX_VARINT_BYTES
    requires v < Pow128(MAX_VARINT_BYTES - i)
    ensures ReadGroups(Groups(v) + rest, i) == Ok((v, rest))
  {
    if v < GROUP {
      GroupsHead(v, rest);
    } else {
      GroupStep(v, MAX_VARINT_BYTES - i);
      ReadGroupsOfGroups(v / GROUP, i + 1, rest);
      ReadGroupsOfMore(v, i, rest);
    }
  }

  lemma ReadGroupsOfMore(v: nat, i: nat, rest: seq<byte>)
    requires i < MAX_VARINT_BYTES - 1 && GROUP <= v
    requires ReadGroups(Groups(v / GROUP) + rest, i + 1) == Ok((v / GROUP, rest))
    ensures ReadGroups(Groups(v) + rest, i) == Ok((v, rest))
  {
    GroupsHead(v, rest);
    ReadGroupsStep(Groups(v) + rest, i, v / GROUP, rest);
  }

  /** A continued group below the fifth: the rest's number, shifted, plus this group's bits. */
  lemma ReadGroupsStep(s: seq<byte>, i: nat, v: nat, rest: seq<byte>)
    requires i < MAX_VARINT_BYTES - 1 && |s| > 0 && GROUP <= s[0]
    requires ReadGroups(s[1..], i + 1) == Ok((v, rest))
    ensures ReadGroups(s, i) == Ok((s[0] - GROUP + GROUP * v, rest))
  {
  }

  /** The first byte of a number's groups, and what follows it. */
  lemma GroupsHead(v: nat, rest: seq<byte>)
    ensures v < GROUP ==> (Groups(v) + rest)[0] == v && (Groups(v) + rest)[1..] == rest
    ensures GROUP <= v ==> (Groups(v) + rest)[0] == v % GROUP + GROUP
    ensures GROUP <= v ==> (Groups(v) + rest)[1..] == Groups(v / GROUP) + rest
  {
    if GROUP <= v {
      assert Groups(v) + rest == [v % GROUP + GROUP] + (Groups(v / GROUP) + rest);
    }
  }

  /** A number of at least one group that fits in `k` groups leaves a number that fits in `k - 1`. */
  lemma GroupStep(v: nat, k: nat)
    requires GROUP <= v < Pow128(k)
    ensures 2 <= k && v / GROUP < Pow128(k - 1)
    ensures v % GROUP + GROUP - GROUP + GROUP * (v / GROUP) == v
  {
    assert k != 0;
    assert Pow128(k) == GROUP * Pow128(k - 1);
    assert Pow128(0) == 1;
  }

  /** Every `i32` takes one to five bytes, and exactly five when negative. */
  lemma WriteLength(x: i32)
    ensures 1 <= |Write(x)| <= MAX_VARINT_BYTES
    ensures x < 0 ==> |Write(x)| == MAX_VARINT_BYTES
  {
    GroupsLength(U32OfI32(x), MAX_VARINT_BYTES);
    if x < 0 {
      assert Pow128(MAX_VARINT_BYTES - 1) == 0x1000_0000;
      GroupsLengthAbove(U32OfI32(x), MAX_VARINT_BYTES - 1);
    }
  }

  /** Round trip: reading what `write_varint` wrote gives the value back and consumes exactly those bytes. */
  lemma RoundTrip(x: i32, rest: seq<byte>)
    ensures Read(Write(x) + rest) == Ok((x, rest))
  {
    var v := U32OfI32(x);
    assert v < Pow128(MAX_VARINT_BYTES) by {
      assert Pow128(MAX_VARINT_BYTES) == 0x8_0000_0000;
    }
    assert I32OfU32(v % TWO_32) == x by {
      assert v % TWO_32 == v;
      Casts32Inverse(x, 0);
    }
    ReadGroupsOfGroups(v, 0, rest);
  }

  /** Round trip of a `#[var]` `u32`. */
  lemma RoundTripU32(u: u32, rest: seq<byte>)
    ensures ReadU32(WriteU32(u) + rest) == Ok((u, rest))
  {
    RoundTrip(I32OfU32(u), rest);
    Casts32Inverse(0, u);
  }

  lemma {:induction false} ReadGroupsAllContinued(s: seq<byte>, i: nat)
    requires i < MAX_VARINT_BYTES
    requires MAX_VARINT_BYTES - i <= |s|
    requires forall j :: 0 <= j < MAX_VARINT_BYTES - i ==> s[j] >= GROUP
    ensures ReadGroups(s, i) == Err(MalformedVarInt)
  {
    if i < MAX_VARINT_BYTES - 1 {
      ReadGroupsAllContinued(s[1..], i + 1);
    }
  }

  /** Five bytes in a row that all ask for more are a malformed varint, whatever follows. */
  lemma FiveContinuedIsMalformed(s: seq<byte>)
    requires MAX_VARINT_BYTES <= |s|
    requires forall j :: 0 <= j < MAX_VARINT_BYTES ==> s[j] >= GROUP
    ensures Read(s) == Err(MalformedVarInt)
  {
    ReadGroupsAllContinued(s, 0);
  }

  lemma {:induction false} ReadGroupsOfTruncated(v: nat, i: nat, k: nat)
    requires i < MAX_VARINT_BYTES
    requires k < |Groups(v)|
    ensures ReadGroups(Groups(v)[..k], i) == Err(MalformedVarInt)
  {
    var s := Groups(v)[..k];
    if k > 0 && i < MAX_VARINT_BYTES - 1 {
      assert s[0] >= GROUP;
      assert s[1..] == Groups(v / GROUP)[..k - 1];
      ReadGroupsOfTruncated(v / GROUP, i + 1, k - 1);
    }
  }

  /** Input that ends inside a varint is malformed: no value is produced. */
  lemma ReadOfTruncated(x: i32, k: nat)
    requires k < |Write(x)|
    ensures Read(Write(x)[..k]) == Err(MalformedVarInt)
  {
    ReadGroupsOfTruncated(U32OfI32(x), 0, k);
  }

  /** The boundary values of the layout. */
  lemma SmallBoundaries()
    ensures Write(0) == [0x00]
    ensures Write(127) == [0x7f]
    ensures Write(128) == [0x80, 0x01]
    ensures Write(16383) == [0xff, 0x7f]
    ensures Write(16384) == [0x80, 0x80, 0x01]
  {
  }

  /** The largest `i32` takes five bytes. */
  lemma LargestBoundary()
    ensures Write(2147483647) == [0xff, 0xff, 0xff, 0xff, 0x07]
  {
    assert Groups(0x3ff) == [0xff, 0x07];
    assert Groups(0x1_ffff) == [0xff, 0xff, 0x07];
    assert Groups(0xff_ffff) == [0xff, 0xff, 0xff, 0x07];
  }

  /** -1 is written as its 32-bit pattern 0xffffffff and reads back as -1. */
  lemma MinusOneBoundary()
    ensures Write(-1) == [0xff, 0xff, 0xff, 0xff, 0x0f]
    ensures Read([0xff, 0xff, 0xff, 0xff, 0x0f]) == Ok((-1, []))
  {
    assert Groups(0x7ff) == [0xff, 0x0f];
    assert Groups(0x3_ffff) == [0xff, 0xff, 0x0f];
    assert Groups(0x1ff_ffff) == [0xff, 0xff, 0xff, 0x0f];
    assert Write(-1) == [0xff, 0xff, 0xff, 0xff, 0x0f];
    RoundTrip(-1, []);
    assert Write(-1) + [] == Write(-1);
  }

  /** Six bytes that all ask for more are refused. */
  lemma SixContinuedBytes()
    ensures Read([0x80, 0x80, 0x80, 0x80, 0x80, 0x80]) == Err(MalformedVarInt)
  {
    FiveContinuedIsMalformed([0x80, 0x80, 0x80, 0x80, 0x80, 0x80]);
  }
}
