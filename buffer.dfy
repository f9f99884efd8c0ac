/**
 * The byte sink and byte source the codecs work on. `Writer` is the growing
 * `Vec<u8>` every `write` appends to; `Reader` is the `impl Read` cursor every
 * `read` consumes from. Each primitive method is proved against the pure
 * layout function of its module. After a failed read the cursor's position is
 * left unspecified, as the source gives no rollback.
 */
module Buffer {
  import opened Wrappers
  import opened Errors
  import opened Ints
  import VarInt
  import Fixed
  import Utf8
  import Utf
  import BlockPos

  class Writer {
    var bytes: seq<byte>

    constructor ()
      ensures bytes == []
    {
      bytes := [];
    }

    /** `write_varint`: one byte per seven-bit group, low group first, as long as bits remain. */
    method WriteVarInt(x: i32)
      modifies this
      ensures bytes == old(bytes) + VarInt.Write(x)
    {
      var v: nat := U32OfI32(x);
      if v == 0 {
        bytes := bytes + [0];
      }
      while v != 0
        invariant v == 0 ==> bytes == old(bytes) + VarInt.Write(x)
        invariant v != 0 ==> bytes + VarInt.Groups(v) == old(bytes) + VarInt.Write(x)
        decreases v
      {
        ghost var before, groups := bytes, VarInt.Groups(v);
        var b := v % VarInt.GROUP;
        v := v / VarInt.GROUP;
        if v != 0 {
          b := b + VarInt.GROUP;
          assert groups == [b] + VarInt.Groups(v);
          assert before + groups == (before + [b]) + VarInt.Groups(v);
        }
        bytes := bytes + [b];
      }
    }

    method WriteVarU32(u: u32)
      modifies this
      ensures bytes == old(bytes) + VarInt.WriteU32(u)
    {
      WriteVarInt(I32OfU32(u));
    }

    method WriteInt(x: i32)
      modifies this
      ensures bytes == old(bytes) + Fixed.IntBytes(x)
    {
      bytes := bytes + Fixed.IntBytes(x);
    }

    method WriteLong(x: i64)
      modifies this
      ensures bytes == old(bytes) + Fixed.LongBytes(x)
    {
      bytes := bytes + Fixed.LongBytes(x);
    }

    method WriteBool(b: bool)
      modifies this
      ensures bytes == old(bytes) + Fixed.BoolBytes(b)
    {
      bytes := bytes + Fixed.BoolBytes(b);
    }

    /** `write_utf`: the caller guarantees the bytes fit, since the source panics otherwise. */
    method WriteUtf(s: string)
      requires |Utf8.Encode(s)| <= Utf.MAX_STRING_LENGTH
      modifies this
      ensures bytes == old(bytes) + Utf.WriteUtf(s)
    {
      var e := Utf8.Encode(s);
      ghost var start := bytes;
      assert Utf.WriteUtf(s) == VarInt.Write(|e|) + e;
      WriteVarInt(|e|);
      bytes := bytes + e;
      assert bytes == start + (VarInt.Write(|e|) + e);
    }

    /** `BlockPos::write_into`: the packed word as a long. */
    method WriteBlockPos(p: BlockPos.BlockPos)
      modifies this
      ensures bytes == old(bytes) + BlockPos.Write(p)
    {
      WriteLong(I64OfU64(BlockPos.Pack(p)));
    }
  }

  class Reader {
    var remaining: seq<byte>

    constructor (data: seq<byte>)
      ensures remaining == data
    {
      remaining := data;
    }

    /**
     * `read_varint`: up to five bytes, each adding its seven low bits at the
     * next group position; a byte without the high bit ends the number.
     */
    method ReadVarInt() returns (r: Result<i32, ReadError>)
      modifies this
      ensures r == ValueOf(VarInt.Read(old(remaining)))
      ensures r.Ok? ==> remaining == VarInt.Read(old(remaining)).value.1
    {
      var ans: nat := 0;
      var i := 0;
      while i < VarInt.MAX_VARINT_BYTES
        invariant 0 <= i <= VarInt.MAX_VARINT_BYTES
        invariant VarInt.ReadGroups(old(remaining), 0) == Pending(ans, i, remaining)
        decreases VarInt.MAX_VARINT_BYTES - i
      {
        if |remaining| == 0 {
          ShiftedEmpty(old(remaining), ans, i);
          return Err(MalformedVarInt);
        }
        var b := remaining[0];
        if b < VarInt.GROUP {
          MulNat(VarInt.Pow128(i), b);
          var total: nat := ans + VarInt.Pow128(i) * b;
          ShiftedLast(old(remaining), ans, total, i, remaining);
          remaining := remaining[1..];
          return Ok(I32OfU32(total % TWO_32));
        }
        MulNat(VarInt.Pow128(i), b - VarInt.GROUP);
        var next: nat := ans + VarInt.Pow128(i) * (b - VarInt.GROUP);
        ShiftedMore(ans, next, i, remaining);
        remaining := remaining[1..];
        ans := next;
        i := i + 1;
      }
      ReadOfMalformed(old(remaining), ans, remaining);
      return Err(MalformedVarInt);
    }

    method ReadVarU32() returns (r: Result<u32, ReadError>)
      modifies this
      ensures r == ValueOf(VarInt.ReadU32(old(remaining)))
      ensures r.Ok? ==> remaining == VarInt.ReadU32(old(remaining)).value.1
    {
      var x := ReadVarInt();
      if x.Err? {
        return Err(x.error);
      }
      return Ok(U32OfI32(x.value));
    }

    method ReadInt() returns (r: Result<i32, ReadError>)
      modifies this
      ensures r == ValueOf(Fixed.ReadInt(old(remaining)))
      ensures r.Ok? ==> remaining == Fixed.ReadInt(old(remaining)).value.1
    {
      var read := Fixed.ReadInt(remaining);
      r := ValueOf(read);
      if read.Ok? {
        remaining := read.value.1;
      }
    }

    method ReadLong() returns (r: Result<i64, ReadError>)
      modifies this
      ensures r == ValueOf(Fixed.ReadLong(old(remaining)))
      ensures r.Ok? ==> remaining == Fixed.ReadLong(old(remaining)).value.1
    {
      var read := Fixed.ReadLong(remaining);
      r := ValueOf(read);
      if read.Ok? {
        remaining := read.value.1;
      }
    }

    method ReadBool() returns (r: Result<bool, ReadError>)
      modifies this
      ensures r == ValueOf(Fixed.ReadBool(old(remaining)))
      ensures r.Ok? ==> remaining == Fixed.ReadBool(old(remaining)).value.1
    {
      var read := Fixed.ReadBool(remaining);
      r := ValueOf(read);
      if read.Ok? {
        remaining := read.value.1;
      }
    }

    method ReadUtfWithLen(maxLength: u32) returns (r: Result<string, ReadError>)
      requires maxLength < 0x4000_0000
      modifies this
      ensures r == ValueOf(Utf.ReadUtfWithLen(old(remaining), maxLength))
      ensures r.Ok? ==> remaining == Utf.ReadUtfWithLen(old(remaining), maxLength).value.1
    {
      var read := Utf.ReadUtfWithLen(remaining, maxLength);
      r := ValueOf(read);
      if read.Ok? {
        remaining := read.value.1;
      }
    }

    /** `BlockPos::read_into`: a long, unpacked. */
    method ReadBlockPos() returns (r: Result<BlockPos.BlockPos, ReadError>)
      modifies this
      ensures r == ValueOf(BlockPos.Read(old(remaining)))
      ensures r.Ok? ==> remaining == BlockPos.Read(old(remaining)).value.1
    {
      var l := ReadLong();
      if l.Err? {
        return Err(l.error);
      }
      return Ok(BlockPos.Unpack(U64OfI64(l.value)));
    }
  }

  /** What is left to read after `i` groups summing to `low`; nothing is left after five. */
  function Pending(low: nat, i: nat, t: seq<byte>): Read<nat>
  {
    if i < VarInt.MAX_VARINT_BYTES then Shifted(low, VarInt.Pow128(i), VarInt.ReadGroups(t, i)) else Err(MalformedVarInt)
  }

  /** A group reading seen from further left: its number weighs `w` and follows a sum `low`. */
  function Shifted(low: nat, w: nat, r: Read<nat>): Read<nat>
  {
    match r
    case Err(e) => Err(e)
    case Ok((v, rest)) => Ok((low + w * v, rest))
  }

  /** `read_varint` fails exactly where the group reading fails. */
  lemma ReadOfMalformed(s: seq<byte>, low: nat, t: seq<byte>)
    requires VarInt.ReadGroups(s, 0) == Pending(low, VarInt.MAX_VARINT_BYTES, t)
    ensures VarInt.Read(s) == Err(MalformedVarInt)
  {
  }

  /** Input that ends before a last group is malformed. */
  lemma ShiftedEmpty(s: seq<byte>, low: nat, i: nat)
    requires VarInt.ReadGroups(s, 0) == Pending(low, i, [])
    ensures VarInt.Read(s) == Err(MalformedVarInt)
  {
  }

  /** A last group (no continuation bit) completes the reading with its bytes consumed. */
  lemma ShiftedLast(s: seq<byte>, low: nat, total: nat, i: nat, t: seq<byte>)
    requires i < VarInt.MAX_VARINT_BYTES && |t| > 0 && t[0] < VarInt.GROUP
    requires total == low + VarInt.Pow128(i) * t[0]
    requires VarInt.ReadGroups(s, 0) == Pending(low, i, t)
    ensures VarInt.Read(s) == Ok((I32OfU32(total % TWO_32), t[1..]))
  {
    assert VarInt.ReadGroups(s, 0) == Ok((total, t[1..]));
  }

  /** A continued group moves its seven bits into the sum; after a fifth continued group nothing can follow. */
  lemma ShiftedMore(low: nat, next: nat, i: nat, t: seq<byte>)
    requires i < VarInt.MAX_VARINT_BYTES && |t| > 0 && t[0] >= VarInt.GROUP
    requires next == low + VarInt.Pow128(i) * (t[0] - VarInt.GROUP)
    ensures Pending(low, i, t) == Pending(next, i + 1, t[1..])
  {
    if i + 1 < VarInt.MAX_VARINT_BYTES {
      var r := VarInt.ReadGroups(t[1..], i + 1);
      assert VarInt.ReadGroups(t, i) == Shifted(t[0] - VarInt.GROUP, VarInt.GROUP, r);
      assert VarInt.Pow128(i + 1) == VarInt.GROUP * VarInt.Pow128(i);
      ShiftedCarry(low, VarInt.Pow128(i), t[0] - VarInt.GROUP, r);
    }
  }

  /** Weighing by one group and then by `w` is weighing by `w` times a group. */
  lemma ShiftedCarry(low: nat, w: nat, d: nat, r: Read<nat>)
    ensures Shifted(low, w, Shifted(d, VarInt.GROUP, r)) == Shifted(low + w * d, VarInt.GROUP * w, r)
  {
    if r.Ok? {
      Distribute(low, w, d, r.value.0);
    }
  }

  lemma MulNat(a: nat, b: nat)
    ensures a * b >= 0
  {
  }

  lemma Distribute(low: int, w: int, d: int, v: int)
    ensures low + w * (d + VarInt.GROUP * v) == low + w * d + (VarInt.GROUP * w) * v
  {
  }
}
