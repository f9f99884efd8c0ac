/**
 * The clientbound game-profile packet of the login phase and its hand-written
 * codec: the profile's UUID as four big-endian 32-bit ints (its
 * `to_int_array` words, most significant first), then the name as a
 * length-prefixed UTF-8 string read back with a bound of 16 characters.
 */
module Login {
  import opened Wrappers
  import opened Errors
  import opened Ints
  import opened Protocol
  import Fixed
  import VarInt
  import Utf8
  import Utf
  import Uuid
  import Buffer

  /** The profile as this packet uses it: the account's UUID and its name. */
  datatype GameProfile = GameProfile(uuid: Uuid.Uuid, name: string)

  datatype ClientboundGameProfilePacket = ClientboundGameProfilePacket(gameProfile: GameProfile)

  /** The login phase's packet family, with the one variant modelled here. */
  datatype LoginPacket = GameProfilePacket(packet: ClientboundGameProfilePacket)

  /** The game-profile packet's id in the clientbound login table of protocol 758. */
  const GAME_PROFILE_PACKET_ID: u32 := 0x02

  /** The character bound the reader applies to the name. */
  const NAME_MAX_CHARS: u32 := 16

  /** `get`: the packet wrapped, unchanged, as a login packet. */
  function Get(p: ClientboundGameProfilePacket): (r: LoginPacket)
    ensures r.packet == p
  {
    GameProfilePacket(p)
  }

  /** A name `write_utf` accepts; a longer one makes the source panic. */
  predicate Writable(p: ClientboundGameProfilePacket) {
    |Utf8.Encode(p.gameProfile.name)| <= Utf.MAX_STRING_LENGTH
  }

  /** Each word `as i32`, written as a big-endian int, in order. */
  function WordsBytes(ws: seq<u32>): (r: seq<byte>)
    ensures |r| == 4 * |ws|
  {
    if ws == [] then [] else Fixed.IntBytes(I32OfU32(ws[0])) + WordsBytes(ws[1..])
  }

  /** `write`: the UUID's four words, then the name. */
  function Encode(p: ClientboundGameProfilePacket): seq<byte>
    requires Writable(p)
  {
    WordsBytes(Uuid.ToIntArray(p.gameProfile.uuid)) + Utf.WriteUtf(p.gameProfile.name)
  }

  /**
   * `read`: four ints, joined into the UUID, then a name of at most
   * `4 * 16` bytes; the first failing read is the result.
   */
  function Decode(s: seq<byte>): (r: Read<LoginPacket>)
    ensures r.Ok? ==> |Utf8.Encode(r.value.0.packet.gameProfile.name)| <= 4 * NAME_MAX_CHARS
    ensures r.Ok? ==> 17 <= |s| - |r.value.1| && r.value.1 == s[|s| - |r.value.1|..]
    ensures |s| < 16 ==> r == Err(Truncated)
  {
    var a :- Fixed.ReadInt(s);
    var b :- Fixed.ReadInt(a.1);
    var c :- Fixed.ReadInt(b.1);
    var d :- Fixed.ReadInt(c.1);
    var uuid := Uuid.FromIntArray([U32OfI32(a.0), U32OfI32(b.0), U32OfI32(c.0), U32OfI32(d.0)]);
    var name :- Utf.ReadUtfWithLen(d.1, NAME_MAX_CHARS);
    Ok((Get(ClientboundGameProfilePacket(GameProfile(uuid, name.0))), name.1))
  }

  lemma {:induction false} WordsBytesAt(ws: seq<u32>, j: nat)
    requires j < |ws|
    ensures WordsBytes(ws)[4 * j..4 * j + 4] == BigEndian(ws[j], 4)
  {
    Casts32Inverse(0, ws[j]);
    if j > 0 {
      WordsBytesAt(ws[1..], j - 1);
      assert WordsBytes(ws)[4..] == WordsBytes(ws[1..]);
    }
  }

  lemma {:induction false} WordsBytesValue(ws: seq<u32>)
    ensures FromBigEndian(WordsBytes(ws)) == FromWords(ws)
  {
    if ws != [] {
      WordsBytesValue(ws[1..]);
      FromBigEndianAppend(Fixed.IntBytes(I32OfU32(ws[0])), WordsBytes(ws[1..]));
      Fixed.IntBytesValue(I32OfU32(ws[0]));
      Casts32Inverse(0, ws[0]);
    }
  }

  lemma FromWordsOfFour(ws: seq<u32>)
    requires |ws| == 4
    ensures FromWords(ws) == Uuid.FromIntArray(ws)
  {
    assert ws[1..][1..] == ws[2..] && ws[2..][1..] == ws[3..] && ws[3..][1..] == [];
    assert Pow256(4) == TWO_32;
    assert Pow256(8) == TWO_64;
    assert Pow256(12) == TWO_32 * TWO_64;
    assert FromWords(ws[3..]) == ws[3];
    assert FromWords(ws[2..]) == ws[2] * TWO_32 + ws[3];
    assert FromWords(ws[1..]) == ws[1] * TWO_64 + ws[2] * TWO_32 + ws[3];
  }

  /** The number a sequence of 32-bit words spells, most significant first. */
  function FromWords(ws: seq<u32>): int
  {
    if ws == [] then 0 else ws[0] * Pow256(4 * (|ws| - 1)) + FromWords(ws[1..])
  }

  /**
   * The layout of `write`: the j-th four bytes are the j-th word of
   * `to_int_array`, big-endian, so the first sixteen bytes spell the UUID in
   * network order; the name's count and bytes follow.
   */
  lemma EncodeLayout(p: ClientboundGameProfilePacket, j: nat)
    requires Writable(p) && j < 4
    ensures Encode(p)[4 * j..4 * j + 4] == BigEndian(Uuid.ToIntArray(p.gameProfile.uuid)[j], 4)
    ensures FromBigEndian(Encode(p)[..16]) == p.gameProfile.uuid
    ensures Encode(p)[16..] == Utf.WriteUtf(p.gameProfile.name)
  {
    var ws := Uuid.ToIntArray(p.gameProfile.uuid);
    assert Encode(p)[..16] == WordsBytes(ws);
    WordsBytesAt(ws, j);
    WordsBytesValue(ws);
    FromWordsOfFour(ws);
    Uuid.FromToIntArray(p.gameProfile.uuid);
  }

  /** The length of `write`'s output: 16 bytes of UUID, the count's varint, the name's bytes. */
  lemma EncodeLength(p: ClientboundGameProfilePacket)
    requires Writable(p)
    ensures |Encode(p)| == 16 + |Utf.WriteUtf(p.gameProfile.name)|
    ensures |Encode(p)| == 16 + |VarInt.Write(|Utf8.Encode(p.gameProfile.name)|)| + |Utf8.Encode(p.gameProfile.name)|
  {
  }

  lemma ConsWords(ws: seq<u32>, rest: seq<byte>)
    requires |ws| > 0
    ensures WordsBytes(ws) + rest == Fixed.IntBytes(I32OfU32(ws[0])) + (WordsBytes(ws[1..]) + rest)
  {
    var first, later := Fixed.IntBytes(I32OfU32(ws[0])), WordsBytes(ws[1..]);
    assert WordsBytes(ws) == first + later;
    Assoc(first, later, rest);
  }

  lemma Assoc(a: seq<byte>, b: seq<byte>, c: seq<byte>)
    ensures (a + b) + c == a + (b + c)
  {
  }

  lemma Tails(ws: seq<u32>)
    requires |ws| == 4
    ensures ws[1..][1..] == ws[2..] && ws[2..][1..] == ws[3..] && ws[3..][1..] == []
  {
  }

  lemma ReadFirstWord(ws: seq<u32>, rest: seq<byte>)
    requires |ws| > 0
    ensures Fixed.ReadInt(WordsBytes(ws) + rest) == Ok((I32OfU32(ws[0]), WordsBytes(ws[1..]) + rest))
  {
    ConsWords(ws, rest);
    Fixed.IntRoundTrip(I32OfU32(ws[0]), WordsBytes(ws[1..]) + rest);
  }

  /** Reading the four words back: each `read_int` gets the `as i32` of its word and leaves the later words. */
  lemma ReadWords(ws: seq<u32>, rest: seq<byte>)
    requires |ws| == 4
    ensures Fixed.ReadInt(WordsBytes(ws) + rest) == Ok((I32OfU32(ws[0]), WordsBytes(ws[1..]) + rest))
    ensures Fixed.ReadInt(WordsBytes(ws[1..]) + rest) == Ok((I32OfU32(ws[1]), WordsBytes(ws[2..]) + rest))
    ensures Fixed.ReadInt(WordsBytes(ws[2..]) + rest) == Ok((I32OfU32(ws[2]), WordsBytes(ws[3..]) + rest))
    ensures Fixed.ReadInt(WordsBytes(ws[3..]) + rest) == Ok((I32OfU32(ws[3]), rest))
  {
    Tails(ws);
    ReadFirstWord(ws, rest);
    ReadFirstWord(ws[1..], rest);
    ReadFirstWord(ws[2..], rest);
    ReadFirstWord(ws[3..], rest);
  }

  /** Round trip on the bytes the reader accepts: a name of at most 64 UTF-8 bytes. */
  lemma RoundTripBytes(p: ClientboundGameProfilePacket, rest: seq<byte>)
    requires |Utf8.Encode(p.gameProfile.name)| <= 4 * NAME_MAX_CHARS
    ensures Decode(Encode(p) + rest) == Ok((Get(p), rest))
  {
    var ws := Uuid.ToIntArray(p.gameProfile.uuid);
    var tail := Utf.WriteUtf(p.gameProfile.name) + rest;
    assert Encode(p) + rest == WordsBytes(ws) + tail;
    ReadWords(ws, tail);
    forall j | 0 <= j < 4
      ensures U32OfI32(I32OfU32(ws[j])) == ws[j]
    {
      Casts32Inverse(0, ws[j]);
    }
    assert [ws[0], ws[1], ws[2], ws[3]] == ws;
    Uuid.FromToIntArray(p.gameProfile.uuid);
    Utf.RoundTrip(p.gameProfile.name, NAME_MAX_CHARS, rest);
  }

  /** Round trip: a profile whose name has at most 16 characters reads back as the same packet, wrapped by `get`. */
  lemma RoundTrip(p: ClientboundGameProfilePacket, rest: seq<byte>)
    requires |p.gameProfile.name| <= NAME_MAX_CHARS
    ensures Writable(p)
    ensures Decode(Encode(p) + rest) == Ok((Get(p), rest))
  {
    RoundTripBytes(p, rest);
  }

  /** A name the writer accepts but whose bytes exceed 64 is refused by the reader, and no packet is built. */
  lemma NameTooLong(p: ClientboundGameProfilePacket, rest: seq<byte>)
    requires Writable(p)
    requires |Utf8.Encode(p.gameProfile.name)| > 4 * NAME_MAX_CHARS
    ensures Decode(Encode(p) + rest) == Err(StringTooLong)
  {
    var ws := Uuid.ToIntArray(p.gameProfile.uuid);
    var tail := Utf.WriteUtf(p.gameProfile.name) + rest;
    assert Encode(p) + rest == WordsBytes(ws) + tail;
    ReadWords(ws, tail);
    Utf.TooLong(p.gameProfile.name, NAME_MAX_CHARS, rest);
  }

  /** Input that ends anywhere before the packet is complete is refused: every read short-circuits. */
  lemma ReadOfTruncated(p: ClientboundGameProfilePacket, k: nat)
    requires Writable(p)
    requires k < |Encode(p)|
    ensures Decode(Encode(p)[..k]).Err?
  {
    if 16 <= k {
      var ws := Uuid.ToIntArray(p.gameProfile.uuid);
      var name := p.gameProfile.name;
      var tail := Utf.WriteUtf(name)[..k - 16];
      assert Encode(p)[..k] == WordsBytes(ws) + tail;
      ReadWords(ws, tail);
      Utf.ReadOfTruncated(name, NAME_MAX_CHARS, k - 16);
    }
  }

  /** The bound is on bytes: a 17-character ASCII name, 17 bytes long, is accepted and read back. */
  lemma SeventeenCharacterName(u: Uuid.Uuid)
    ensures var p := ClientboundGameProfilePacket(GameProfile(u, "abcdefghijklmnopq"));
      |p.gameProfile.name| == 17 && Decode(Encode(p)) == Ok((Get(p), []))
  {
    var p := ClientboundGameProfilePacket(GameProfile(u, "abcdefghijklmnopq"));
    Utf8.EncodeAscii("abcdefghijklmnopq");
    RoundTripBytes(p, []);
    assert Encode(p) + [] == Encode(p);
  }

  /** `write` on the growing buffer: one `write_int` per word, then `write_utf`. */
  method Write(p: ClientboundGameProfilePacket, buf: Buffer.Writer)
    requires Writable(p)
    modifies buf
    ensures buf.bytes == old(buf.bytes) + Encode(p)
  {
    var ws := Uuid.ToIntArray(p.gameProfile.uuid);
    for i := 0 to 4
      invariant buf.bytes + WordsBytes(ws[i..]) == old(buf.bytes) + WordsBytes(ws)
    {
      ghost var before := buf.bytes;
      buf.WriteInt(I32OfU32(ws[i]));
      assert ws[i..][1..] == ws[i + 1..];
      Assoc(before, Fixed.IntBytes(I32OfU32(ws[i])), WordsBytes(ws[i + 1..]));
    }
    assert ws[4..] == [];
    assert buf.bytes + [] == buf.bytes;
    assert buf.bytes == old(buf.bytes) + WordsBytes(ws);
    buf.WriteUtf(p.gameProfile.name);
    Assoc(old(buf.bytes), WordsBytes(ws), Utf.WriteUtf(p.gameProfile.name));
  }

  /** `read` on the cursor: each `?` returns the first failure, so no packet is built from a partial read. */
  method Read(buf: Buffer.Reader) returns (r: Result<LoginPacket, ReadError>)
    modifies buf
    ensures r == ValueOf(Decode(old(buf.remaining)))
    ensures r.Ok? ==> buf.remaining == Decode(old(buf.remaining)).value.1
  {
    var a := buf.ReadInt();
    if a.Err? { return Err(a.error); }
    var b := buf.ReadInt();
    if b.Err? { return Err(b.error); }
    var c := buf.ReadInt();
    if c.Err? { return Err(c.error); }
    var d := buf.ReadInt();
    if d.Err? { return Err(d.error); }
    var uuid := Uuid.FromIntArray([U32OfI32(a.value), U32OfI32(b.value), U32OfI32(c.value), U32OfI32(d.value)]);
    var name := buf.ReadUtfWithLen(NAME_MAX_CHARS);
    if name.Err? { return Err(name.error); }
    return Ok(Get(ClientboundGameProfilePacket(GameProfile(uuid, name.value))));
  }

  /** `ProtocolPacket::id` of the login family. */
  function PacketId(p: LoginPacket): u32
  {
    match p
    case GameProfilePacket(_) => GAME_PROFILE_PACKET_ID
  }

  /** The direction each login packet travels. */
  function PacketFlowOf(p: LoginPacket): PacketFlow
  {
    match p
    case GameProfilePacket(_) => ServerToClient
  }

  /** `ProtocolPacket::read` of the login family: the id and direction pick the packet's reader. */
  function ReadPacket(id: u32, flow: PacketFlow, s: seq<byte>): (r: Read<LoginPacket>)
    ensures r.Ok? ==> PacketId(r.value.0) == id && PacketFlowOf(r.value.0) == flow
    ensures flow == ServerToClient && id == GAME_PROFILE_PACKET_ID ==> r == Decode(s)
    ensures !(flow == ServerToClient && id == GAME_PROFILE_PACKET_ID) ==> r == Err(UnknownPacketId(id))
  {
    if flow == ServerToClient && id == GAME_PROFILE_PACKET_ID then Decode(s)
    else Err(UnknownPacketId(id))
  }

  /** `ProtocolPacket::write` of the login family. */
  function WritePacket(p: LoginPacket): seq<byte>
    requires Writable(p.packet)
  {
    match p
    case GameProfilePacket(q) => Encode(q)
  }

  /** The family contract: reading by a packet's own id and direction what it wrote gives it back. */
  lemma ReadWritePacket(p: LoginPacket, rest: seq<byte>)
    requires |p.packet.gameProfile.name| <= NAME_MAX_CHARS
    ensures Writable(p.packet)
    ensures ReadPacket(PacketId(p), PacketFlowOf(p), WritePacket(p) + rest) == Ok((p, rest))
  {
    RoundTrip(p.packet, rest);
  }
}
