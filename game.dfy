/**
 * The serverbound jigsaw-generate packet of the game phase and its derived
 * codec: the fields in declaration order, `pos` as a packed block position,
 * `levels` as a varint (it is marked `#[var]`), `keep_jigsaws` as one byte.
 */
module Game {
  import opened Wrappers
  import opened Errors
  import opened Ints
  import opened Protocol
  import VarInt
  import Fixed
  import BlockPos
  import Buffer

  datatype ServerboundJigsawGeneratePacket =
    ServerboundJigsawGeneratePacket(pos: BlockPos.BlockPos, levels: u32, keepJigsaws: bool)

  /** The game phase's packet family, with the one variant modelled here. */
  datatype GamePacket = JigsawGeneratePacket(packet: ServerboundJigsawGeneratePacket)

  /** The jigsaw-generate packet's id in the serverbound game table of protocol 758. */
  const JIGSAW_GENERATE_PACKET_ID: u32 := 0x0E

  /** The derived `write_into`: each field's own layout, in declaration order. */
  function Encode(p: ServerboundJigsawGeneratePacket): seq<byte>
  {
    BlockPos.Write(p.pos) + VarInt.WriteU32(p.levels) + Fixed.BoolBytes(p.keepJigsaws)
  }

  /** The derived `read_into`: each field's reader in declaration order; the first failure is the result. */
  function Decode(s: seq<byte>): (r: Read<ServerboundJigsawGeneratePacket>)
    ensures r.Ok? ==> 10 <= |s| - |r.value.1| <= 14 && r.value.1 == s[|s| - |r.value.1|..]
    ensures r.Ok? ==> BlockPos.Packable(r.value.0.pos)
    ensures |s| < 8 ==> r == Err(Truncated)
  {
    var pos :- BlockPos.Read(s);
    var levels :- VarInt.ReadU32(pos.1);
    var keep :- Fixed.ReadBool(levels.1);
    Ok((ServerboundJigsawGeneratePacket(pos.0, levels.0, keep.0), keep.1))
  }

  /**
   * The layout: eight bytes of packed position, then the varint of `levels`,
   * then the boolean byte, so the length is 8 + (1 to 5) + 1.
   */
  lemma EncodeLayout(p: ServerboundJigsawGeneratePacket)
    ensures var e := Encode(p);
      && |e| == 8 + |VarInt.WriteU32(p.levels)| + 1
      && 10 <= |e| <= 14
      && e[..8] == BigEndian(BlockPos.Pack(p.pos), 8)
      && e[8..|e| - 1] == VarInt.WriteU32(p.levels)
      && e[|e| - 1] == (if p.keepJigsaws then 1 else 0)
  {
    VarInt.WriteLength(I32OfU32(p.levels));
    Casts64Inverse(0, BlockPos.Pack(p.pos));
  }

  /** Decoding an encoding gives the packet with its position wrapped to the packable range. */
  lemma RoundTripWrapped(p: ServerboundJigsawGeneratePacket, rest: seq<byte>)
    ensures Decode(Encode(p) + rest)
         == Ok((ServerboundJigsawGeneratePacket(BlockPos.Wrapped(p.pos), p.levels, p.keepJigsaws), rest))
  {
    var b, v, k := BlockPos.Write(p.pos), VarInt.WriteU32(p.levels), Fixed.BoolBytes(p.keepJigsaws);
    assert Encode(p) + rest == b + (v + (k + rest));
    BlockPos.RoundTrip(p.pos, v + (k + rest));
    VarInt.RoundTripU32(p.levels, k + rest);
    Fixed.BoolRoundTrip(p.keepJigsaws, rest);
  }

  /** Round trip: a packet whose position is packable reads back equal, consuming exactly its bytes. */
  lemma RoundTrip(p: ServerboundJigsawGeneratePacket, rest: seq<byte>)
    requires BlockPos.Packable(p.pos)
    ensures Decode(Encode(p) + rest) == Ok((p, rest))
  {
    RoundTripWrapped(p, rest);
  }

  /** Input that ends before the last field is refused: no partial packet is produced. */
  lemma ReadOfTruncated(p: ServerboundJigsawGeneratePacket, k: nat)
    requires k < |Encode(p)|
    ensures Decode(Encode(p)[..k]).Err?
  {
    if 8 <= k {
      TruncatedParts(p, k);
      TruncatedLevels(p, k);
      FailsAfterPos(p.pos, Encode(p)[8..k]);
    }
  }

  /** What is left of a prefix after the position holds a truncated varint, or the varint and nothing more. */
  lemma TruncatedLevels(p: ServerboundJigsawGeneratePacket, k: nat)
    requires 8 <= k < |Encode(p)|
    ensures VarInt.ReadU32(Encode(p)[8..k]).Err? || VarInt.ReadU32(Encode(p)[8..k]).value.1 == []
  {
    TruncatedParts(p, k);
    if k < 8 + |VarInt.WriteU32(p.levels)| {
      VarInt.ReadOfTruncated(I32OfU32(p.levels), k - 8);
    } else {
      VarInt.RoundTripU32(p.levels, []);
    }
  }

  /** Once the position is read, a failing varint or a missing bool byte fails the packet. */
  lemma FailsAfterPos(pos: BlockPos.BlockPos, t: seq<byte>)
    requires VarInt.ReadU32(t).Err? || VarInt.ReadU32(t).value.1 == []
    ensures Decode(BlockPos.Write(pos) + t).Err?
  {
    BlockPos.RoundTrip(pos, t);
  }

  /** A prefix of an encoding past the position: the position's bytes, then a prefix of the varint, or all of it. */
  lemma TruncatedParts(p: ServerboundJigsawGeneratePacket, k: nat)
    requires 8 <= k < |Encode(p)|
    ensures Encode(p)[..k] == BlockPos.Write(p.pos) + Encode(p)[8..k]
    ensures k < 8 + |VarInt.WriteU32(p.levels)| ==> Encode(p)[8..k] == VarInt.WriteU32(p.levels)[..k - 8]
    ensures 8 + |VarInt.WriteU32(p.levels)| <= k ==> Encode(p)[8..k] == VarInt.WriteU32(p.levels) + []
  {
  }

  /** A malformed `levels` varint fails the whole packet with the varint's error. */
  lemma MalformedLevels(pos: BlockPos.BlockPos, tail: seq<byte>)
    requires VarInt.MAX_VARINT_BYTES <= |tail|
    requires forall j :: 0 <= j < VarInt.MAX_VARINT_BYTES ==> tail[j] >= VarInt.GROUP
    ensures Decode(BlockPos.Write(pos) + tail) == Err(MalformedVarInt)
  {
    BlockPos.RoundTrip(pos, tail);
    VarInt.FiveContinuedIsMalformed(tail);
  }

  /** The derived `write_into` on the growing buffer, field by field. */
  method WriteInto(p: ServerboundJigsawGeneratePacket, buf: Buffer.Writer)
    modifies buf
    ensures buf.bytes == old(buf.bytes) + Encode(p)
  {
    buf.WriteBlockPos(p.pos);
    buf.WriteVarU32(p.levels);
    buf.WriteBool(p.keepJigsaws);
  }

  /** The derived `read_into` on the cursor, field by field. */
  method ReadInto(buf: Buffer.Reader) returns (r: Result<ServerboundJigsawGeneratePacket, ReadError>)
    modifies buf
    ensures r == ValueOf(Decode(old(buf.remaining)))
    ensures r.Ok? ==> buf.remaining == Decode(old(buf.remaining)).value.1
  {
    var pos := buf.ReadBlockPos();
    if pos.Err? { return Err(pos.error); }
    var levels := buf.ReadVarU32();
    if levels.Err? { return Err(levels.error); }
    var keep := buf.ReadBool();
    if keep.Err? { return Err(keep.error); }
    return Ok(ServerboundJigsawGeneratePacket(pos.value, levels.value, keep.value));
  }

  /** `ProtocolPacket::id` of the game family. */
  function PacketId(p: GamePacket): u32
  {
    match p
    case JigsawGeneratePacket(_) => JIGSAW_GENERATE_PACKET_ID
  }

  /** The jigsaw-generate packet sits in the serverbound table. */
  function PacketFlowOf(p: GamePacket): PacketFlow
  {
    match p
    case JigsawGeneratePacket(_) => ClientToServer
  }

  /** `ProtocolPacket::read` of the game family: the id and direction pick the packet's reader. */
  function ReadPacket(id: u32, flow: PacketFlow, s: seq<byte>): (r: Read<GamePacket>)
    ensures r.Ok? ==> PacketId(r.value.0) == id && PacketFlowOf(r.value.0) == flow
    ensures flow == ClientToServer && id == JIGSAW_GENERATE_PACKET_ID ==>
      (r.Err? <==> Decode(s).Err?) &&
      (r.Err? ==> r.error == Decode(s).error) &&
      (r.Ok? ==> r.value == (JigsawGeneratePacket(Decode(s).value.0), Decode(s).value.1))
    ensures !(flow == ClientToServer && id == JIGSAW_GENERATE_PACKET_ID) ==> r == Err(UnknownPacketId(id))
  {
    if flow == ClientToServer && id == JIGSAW_GENERATE_PACKET_ID then
      match Decode(s)
      case Err(e) => Err(e)
      case Ok((p, rest)) => Ok((JigsawGeneratePacket(p), rest))
    else Err(UnknownPacketId(id))
  }

  /** `ProtocolPacket::write` of the game family. */
  function WritePacket(p: GamePacket): seq<byte>
  {
    match p
    case JigsawGeneratePacket(q) => Encode(q)
  }

  /** The family contract: reading by a packet's own id and direction what it wrote gives it back. */
  lemma ReadWritePacket(p: GamePacket, rest: seq<byte>)
    requires BlockPos.Packable(p.packet.pos)
    ensures ReadPacket(PacketId(p), PacketFlowOf(p), WritePacket(p) + rest) == Ok((p, rest))
  {
    RoundTrip(p.packet, rest);
  }

  lemma ZeroBytes()
    ensures FromBigEndian([0]) == 0 && FromBigEndian([0, 0]) == 0 && FromBigEndian([0, 0, 0]) == 0
  {
    var one, two, three: seq<byte> := [0], [0, 0], [0, 0, 0];
    assert one[..0] == [] && two[..1] == one && three[..2] == two;
  }

  /** The eight bytes `00 00 00 40 00 00 10 05` are the packed position (1, 5, 1). */
  lemma PackedExample()
    ensures FromBigEndian([0, 0, 0, 0x40, 0, 0, 0x10, 0x05]) == BlockPos.Pack(BlockPos.BlockPos(1, 5, 1))
  {
    var hi, lo: seq<byte> := [0, 0, 0, 0x40], [0, 0, 0x10, 0x05];
    assert FromBigEndian(hi) == 0x40 by {
      ZeroBytes();
      assert hi[..3] == [0, 0, 0];
    }
    assert FromBigEndian(lo) == 0x1005 by {
      ZeroBytes();
      var three: seq<byte> := [0, 0, 0x10];
      assert three[..2] == [0, 0];
      assert lo[..3] == three;
    }
    assert hi + lo == [0, 0, 0, 0x40, 0, 0, 0x10, 0x05];
    FromBigEndianAppend(hi, lo);
    assert Pow256(4) == 0x1_0000_0000;
  }

  /** The literal bytes of a packet decode to the literal field values; an unassigned id in the same table is unknown. */
  lemma DispatchExample()
    ensures ReadPacket(JIGSAW_GENERATE_PACKET_ID, ClientToServer,
                       [0, 0, 0, 0x40, 0, 0, 0x10, 0x05, 0x07, 0x01])
         == Ok((JigsawGeneratePacket(ServerboundJigsawGeneratePacket(BlockPos.BlockPos(1, 5, 1), 7, true)), []))
    ensures ReadPacket(0x7F, ClientToServer, [0, 0, 0, 0x40, 0, 0, 0x10, 0x05, 0x07, 0x01]) == Err(UnknownPacketId(0x7F))
  {
    var s: seq<byte> := [0, 0, 0, 0x40, 0, 0, 0x10, 0x05, 0x07, 0x01];
    var pos := BlockPos.BlockPos(1, 5, 1);
    PackedExample();
    assert s[..8] == [0, 0, 0, 0x40, 0, 0, 0x10, 0x05];
    var w := BlockPos.Pack(pos);
    Casts64Inverse(I64OfU64(w), w);
    BlockPos.UnpackPack(pos);
    assert BlockPos.Read(s) == Ok((pos, s[8..]));
    assert s[8..] == [0x07, 0x01] && s[8..][1..] == [0x01];
    assert VarInt.ReadU32(s[8..]) == Ok((7, [0x01]));
  }
}
