# Verified model of the azalea protocol codec core

This project models the byte codecs at the core of azalea's Minecraft
protocol layer, protocol version 758. It proves how they behave.

- **Connection phases** (`packets/mod.rs`):
  - the four phases Handshake, Game, Status and Login, with the fixed wire tags -1, 0, 1 and 2;
  - their codec: the tag's `i32` is written as a varint; reading maps the varint back to a phase, and any other number is refused as an invalid intention;
  - the `Packet` envelope;
  - the `ProtocolPacket` contract that each packet family obeys: an id, a reader keyed by id and direction, and a writer.
- **The clientbound game-profile packet of the login phase** (`packets/login/clientbound_game_profile_packet.rs`):
  - it writes the profile's UUID as four big-endian 32-bit ints in `to_int_array` order, then the name as a varint-length-prefixed UTF-8 string;
  - it reads back that layout, with the name bounded by `read_utf_with_len(16)`;
  - `get` wraps it as a login packet.
- **The serverbound jigsaw-generate packet of the game phase** (`packets/game/serverbound_jigsaw_generate_packet.rs`):
  - its derived codec writes the fields in declaration order: the packed block position, `levels` as a varint (it is marked `#[var]`), and `keep_jigsaws` as one byte.

Those files call buffer primitives that are defined elsewhere in the repository. Each of them is modelled here from the protocol's wire layout, and its round trip is proved once:

- the varint (LEB128 groups, low group first, at most five bytes);
- `read_int`/`write_int` and `read_long`/`write_long` (big-endian two's complement);
- bool (one byte);
- `write_utf`/`read_utf_with_len` over UTF-8 as RFC 3629 defines it;
- the packed `BlockPos` (X in the top 26 bits, then Z in 26 bits, then Y in 12 bits);
- the UUID's `to_int_array`/`from_int_array`.

Codecs come in two forms:

- **Pure functions.** Writers are functions to `seq<byte>`. Readers take the input bytes and return `Read<T>`: either an error or the value paired with the unread bytes.
- **Imperative methods.** The Rust writes into a `Vec<u8>` in place and reads from a `&mut impl Read` cursor. `Buffer.Writer` and `Buffer.Reader` are classes with those two states. The packet methods (`Protocol.WriteInto`/`ReadInto`, `Login.Write`/`Read`, `Game.WriteInto`/`ReadInto`) run on them, step by step as the source does, and are proved equal to the pure codecs.

Modules:

| module | file | contents |
|---|---|---|
| `Wrappers`, `Errors` | wrappers.dfy | `Option`, `Result`, the read errors and `Read<T>` |
| `Ints` | ints.dfy | the integer widths, Rust's `as` casts between signed and unsigned, big-endian bytes |
| `VarInt` | varint.dfy | `write_varint` / `read_varint` |
| `Fixed` | fixed.dfy | `int`, `long` and `bool` |
| `Utf8` | utf8.dfy | UTF-8 encoding and validating decoding |
| `Utf` | utf.dfy | `write_utf` / `read_utf_with_len` |
| `BlockPos` | block_pos.dfy | the packed block position |
| `Uuid` | uuid.dfy | `to_int_array` / `from_int_array` |
| `Buffer` | buffer.dfy | the write buffer and the read cursor with their primitive methods |
| `Protocol` | protocol.dfy | `PROTOCOL_VERSION`, `ConnectionProtocol` and its codec, `PacketFlow` |
| `Login` | login.dfy | the game-profile packet and the login family |
| `Game` | game.dfy | the jigsaw-generate packet and the game family |
| `Packets` | packets.dfy | the `Packet` envelope |

`mod.rs` is split between `Protocol` and `Packets`. The envelope needs the login and game families, and those need `PacketFlow`. Dafny modules cannot import each other in a cycle.

## Model

| member | source | states |
|---|---|---|
| Protocol.FromTag | azalea-protocol/src/packets/mod.rs:17-23 | `from_i32` yields a phase exactly for the numbers -1 to 2 |
| Protocol.Tag | azalea-protocol/src/packets/mod.rs:18-23 | the fixed discriminant of each phase, which `from_i32` maps back to that phase |
| Protocol.TagInverse | azalea-protocol/src/packets/mod.rs:18-23 | `FromTag` inverts `Tag` in both directions: `FromTag(t)` is phase `p` if and only if `Tag(p) == t` |
| Protocol.TagInjective | azalea-protocol/src/packets/mod.rs:18-23 | two phases with the same tag are the same phase |
| Protocol.Decode | azalea-protocol/src/packets/mod.rs:46-51 | a varint error passes through unchanged; a varint whose value has no phase is `InvalidIntention`; success holds exactly when the varint holds a number from -1 to 2, and then the varint is that phase's tag |
| Protocol.RoundTrip | azalea-protocol/src/packets/mod.rs:46-57 | every phase reads back from what it writes, and the read consumes exactly those bytes |
| Protocol.RejectsOtherTags | azalea-protocol/src/packets/mod.rs:48-49 | every well-formed varint of a number outside -1..2 is refused as an invalid intention |
| Protocol.RejectsMalformed | azalea-protocol/src/packets/mod.rs:48 | a truncated varint, or five bytes that all ask for more, yields `MalformedVarInt` and no phase |
| Protocol.EncodedPhases | azalea-protocol/src/packets/mod.rs:19-55 | the bytes of each phase; Handshake's -1 goes out as the five bytes of its 32-bit pattern |
| Protocol.WriteInto | azalea-protocol/src/packets/mod.rs:53-57 | appends exactly the varint of the phase's tag to the buffer, and nothing else |
| Protocol.ReadInto | azalea-protocol/src/packets/mod.rs:46-51 | the cursor read returns what `Decode` returns, and on success leaves exactly the unread bytes |
| Protocol.Encode | azalea-protocol/src/packets/mod.rs:53-57 | no contract of its own: `Protocol.RoundTrip` and `Protocol.EncodedPhases` state what it writes |
| Packets.OneVariantPerPhase | azalea-protocol/src/packets/mod.rs:25-31 | two envelope packets are of the same phase if and only if they are the same variant |
| Packets.Envelope | azalea-protocol/src/packets/mod.rs:25-31 | the envelope packet built for a phase belongs to that phase |
| Packets.TagDeterminesVariant | azalea-protocol/src/packets/mod.rs:18-31 | the wire tag of a packet's phase determines its envelope variant |
| Packets.ProtocolOf | azalea-protocol/src/packets/mod.rs:25-31 | no contract of its own: `Packets.OneVariantPerPhase` and `Packets.Envelope` state that it maps the variants one-to-one onto the phases |
| Login.Get | azalea-protocol/src/packets/login/clientbound_game_profile_packet.rs:16-18 | `get` wraps the packet, unchanged, as a login packet |
| Login.Encode | azalea-protocol/src/packets/login/clientbound_game_profile_packet.rs:20-26 | no contract of its own: `Login.EncodeLayout`, `Login.EncodeLength` and `Login.RoundTripBytes` state its layout and that it reads back |
| Login.WordsBytes | azalea-protocol/src/packets/login/clientbound_game_profile_packet.rs:21-23 | four bytes per word; `Login.WordsBytesValue` and `Login.ReadWords` state their value and how they read back |
| Login.Decode | azalea-protocol/src/packets/login/clientbound_game_profile_packet.rs:28-41 | on success, the name is at most 4 × 16 UTF-8 bytes, at least 17 bytes were consumed, and the rest is a suffix of the input; fewer than 16 bytes is `Truncated` |
| Login.EncodeLayout | azalea-protocol/src/packets/login/clientbound_game_profile_packet.rs:21-24 | the j-th four bytes are word j of `to_int_array`, big-endian; the first 16 bytes spell the UUID; the name's `write_utf` bytes follow |
| Login.EncodeLength | azalea-protocol/src/packets/login/clientbound_game_profile_packet.rs:21-24 | the output is 16 bytes, plus the varint of the name's byte count, plus the name's bytes |
| Login.WordsBytesValue | azalea-protocol/src/packets/login/clientbound_game_profile_packet.rs:21-22 | the ints written for a list of words spell, big-endian, the number those words spell |
| Login.ReadWords | azalea-protocol/src/packets/login/clientbound_game_profile_packet.rs:22-35 | each `read_int` gets back the `as i32` of its word, consuming four bytes at a time |
| Login.RoundTripBytes | azalea-protocol/src/packets/login/clientbound_game_profile_packet.rs:20-41 | any packet whose name is at most 64 UTF-8 bytes reads back as `get` of itself and consumes exactly its bytes |
| Login.RoundTrip | azalea-protocol/src/packets/login/clientbound_game_profile_packet.rs:20-41 | a name of at most 16 characters can be written, and the packet reads back as `get` of itself, consuming exactly its bytes |
| Login.NameTooLong | azalea-protocol/src/packets/login/clientbound_game_profile_packet.rs:36 | a written name longer than 64 UTF-8 bytes is refused with `StringTooLong` |
| Login.ReadOfTruncated | azalea-protocol/src/packets/login/clientbound_game_profile_packet.rs:30-36 | for every writable packet, every strict prefix of its bytes is refused, so no packet comes from a partial read |
| Login.SeventeenCharacterName | azalea-protocol/src/packets/login/clientbound_game_profile_packet.rs:36 | a 17-character ASCII name is accepted: the bound is on bytes, 4 × 16, not on characters |
| Login.Write | azalea-protocol/src/packets/login/clientbound_game_profile_packet.rs:20-26 | the loop of four `write_int`s and the `write_utf` append exactly `Encode(p)` to the buffer |
| Login.Read | azalea-protocol/src/packets/login/clientbound_game_profile_packet.rs:28-41 | the sequential reads return what `Decode` returns; on success they leave exactly the unread bytes |
| Login.ReadPacket | azalea-protocol/src/packets/mod.rs:40-41 | the id 0x02 read as clientbound is exactly `Decode` of the bytes, its failures passed on unchanged; every other id or direction is `UnknownPacketId` of that id; a packet read carries the id and direction asked for |
| Login.PacketId | azalea-protocol/src/packets/mod.rs:38 | no contract of its own: `Login.ReadWritePacket` states that a packet reads back by this id |
| Login.PacketFlowOf | azalea-protocol/src/packets/mod.rs:40-41 | no contract of its own: `Login.ReadWritePacket` states that a packet reads back in this direction |
| Login.WritePacket | azalea-protocol/src/packets/mod.rs:43 | no contract of its own: `Login.ReadWritePacket` states that its bytes read back as the packet |
| Login.ReadWritePacket | azalea-protocol/src/packets/mod.rs:38-43 | the family contract: reading what a packet wrote, by its own id and direction, gives the packet back |
| Game.Decode | azalea-protocol/src/packets/game/serverbound_jigsaw_generate_packet.rs:5-11 | on success, 10 to 14 bytes were consumed, the rest is a suffix, and the position is packable; fewer than 8 bytes is `Truncated` |
| Game.Encode | azalea-protocol/src/packets/game/serverbound_jigsaw_generate_packet.rs:5-11 | no contract of its own: `Game.EncodeLayout` and `Game.RoundTripWrapped` state its field-order layout and that it reads back |
| Game.EncodeLayout | azalea-protocol/src/packets/game/serverbound_jigsaw_generate_packet.rs:6-10 | declaration order: 8 bytes of packed `pos`, then the varint of `levels`, then the `keep_jigsaws` byte; the length is 8 + the varint's length + 1 |
| Game.RoundTripWrapped | azalea-protocol/src/packets/game/serverbound_jigsaw_generate_packet.rs:5-11 | any packet reads back with its position wrapped to the 26/12/26-bit fields and its other fields unchanged |
| Game.RoundTrip | azalea-protocol/src/packets/game/serverbound_jigsaw_generate_packet.rs:5-11 | a packet with a packable position reads back equal, consuming exactly its bytes |
| Game.ReadOfTruncated | azalea-protocol/src/packets/game/serverbound_jigsaw_generate_packet.rs:5 | every strict prefix of a written packet is refused, so no partial packet is returned |
| Game.MalformedLevels | azalea-protocol/src/packets/game/serverbound_jigsaw_generate_packet.rs:8-9 | a malformed `levels` varint fails the whole packet with `MalformedVarInt` |
| Game.WriteInto | azalea-protocol/src/packets/game/serverbound_jigsaw_generate_packet.rs:5-10 | writing the fields one by one appends exactly `Encode(p)` |
| Game.ReadInto | azalea-protocol/src/packets/game/serverbound_jigsaw_generate_packet.rs:5-10 | reading the fields one by one returns what `Decode` returns; on success it leaves exactly the unread bytes |
| Game.ReadPacket | azalea-protocol/src/packets/mod.rs:40-41 | the id 0x0E read as serverbound fails exactly when `Decode` fails, with the same error, and otherwise wraps `Decode`'s packet and rest; every other id or direction is `UnknownPacketId` of that id; a packet read carries the id and direction asked for |
| Game.PacketId | azalea-protocol/src/packets/mod.rs:38 | no contract of its own: `Game.ReadWritePacket` states that a packet reads back by this id |
| Game.PacketFlowOf | azalea-protocol/src/packets/mod.rs:40-41 | no contract of its own: `Game.ReadWritePacket` states that a packet reads back in this direction |
| Game.WritePacket | azalea-protocol/src/packets/mod.rs:43 | no contract of its own: `Game.ReadWritePacket` states that its bytes read back as the packet |
| Game.ReadWritePacket | azalea-protocol/src/packets/mod.rs:38-43 | the family contract for the game family, for a packable position |
| Game.DispatchExample | azalea-protocol/src/packets/game/serverbound_jigsaw_generate_packet.rs:5-10 | the bytes `00 00 00 40 00 00 10 05 07 01` read as position (1, 5, 1), levels 7, keep true; an unassigned id is unknown |
| VarInt.Groups | azalea-protocol/src/packets/mod.rs:55 | every group except the last carries the continuation bit, and the last does not |
| VarInt.Write | azalea-protocol/src/packets/mod.rs:55 | no contract of its own: `VarInt.WriteLength`, `VarInt.RoundTrip` and the boundary lemmas state its bytes |
| VarInt.Read | azalea-protocol/src/packets/mod.rs:48 | on success, one to five bytes were consumed and the rest is a suffix; every failure is `MalformedVarInt` |
| VarInt.WriteLength | azalea-protocol/src/packets/mod.rs:55 | every `i32` takes one to five bytes, and exactly five when it is negative |
| VarInt.RoundTrip | azalea-protocol/src/packets/mod.rs:48-55 | `read_varint` of `write_varint(x)` is `x`, and exactly its bytes are consumed |
| VarInt.RoundTripU32 | azalea-protocol/src/packets/game/serverbound_jigsaw_generate_packet.rs:8-9 | a `#[var]` `u32` reads back unchanged |
| VarInt.WriteU32 | azalea-protocol/src/packets/game/serverbound_jigsaw_generate_packet.rs:8-9 | no contract of its own: `VarInt.RoundTripU32` states that it reads back |
| VarInt.ReadU32 | azalea-protocol/src/packets/game/serverbound_jigsaw_generate_packet.rs:8-9 | a `#[var]` `u32` read consumes one to five bytes and leaves a suffix; every failure is `MalformedVarInt` |
| VarInt.FiveContinuedIsMalformed | azalea-protocol/src/packets/mod.rs:48 | five bytes that all ask for more are refused, whatever follows |
| VarInt.ReadOfTruncated | azalea-protocol/src/packets/mod.rs:48 | input that ends inside a varint is refused |
| VarInt.GroupsLength | azalea-protocol/src/packets/mod.rs:55 | a number below 128^k takes at most k groups |
| VarInt.GroupsLengthAbove | azalea-protocol/src/packets/mod.rs:55 | a number of at least 128^k takes more than k groups |
| VarInt.SmallBoundaries | azalea-protocol/src/packets/mod.rs:55 | the bytes of 0, 127, 128, 16383 and 16384 |
| VarInt.LargestBoundary | azalea-protocol/src/packets/mod.rs:55 | the largest `i32` is `ff ff ff ff 07` |
| VarInt.MinusOneBoundary | azalea-protocol/src/packets/mod.rs:19-55 | -1 is `ff ff ff ff 0f` and reads back as -1 |
| VarInt.SixContinuedBytes | azalea-protocol/src/packets/mod.rs:48 | six continuation bytes are refused as malformed |
| Fixed.ReadInt | azalea-protocol/src/packets/login/clientbound_game_profile_packet.rs:31-34 | succeeds exactly when four bytes remain, and consumes exactly four; otherwise `Truncated` |
| Fixed.IntBytesValue | azalea-protocol/src/packets/login/clientbound_game_profile_packet.rs:22 | the bytes `write_int` writes are the big-endian form of the value's 32-bit pattern |
| Fixed.IntBytes | azalea-protocol/src/packets/login/clientbound_game_profile_packet.rs:22 | four bytes; `Fixed.IntBytesValue` and `Fixed.IntRoundTrip` state their value and that they read back |
| Fixed.IntRoundTrip | azalea-protocol/src/packets/login/clientbound_game_profile_packet.rs:22-34 | `read_int` of `write_int(x)` is `x` |
| Fixed.LongRoundTrip | azalea-protocol/src/packets/game/serverbound_jigsaw_generate_packet.rs:7 | `read_long` of `write_long(x)` is `x` |
| Fixed.LongBytes | azalea-protocol/src/packets/game/serverbound_jigsaw_generate_packet.rs:7 | eight bytes; `Fixed.LongRoundTrip` states that they read back |
| Fixed.ReadLong | azalea-protocol/src/packets/game/serverbound_jigsaw_generate_packet.rs:7 | succeeds exactly when eight bytes remain, and consumes exactly eight; otherwise `Truncated` |
| Fixed.ReadBool | azalea-protocol/src/packets/game/serverbound_jigsaw_generate_packet.rs:10 | one byte is consumed, and any nonzero byte is true; an empty input is `Truncated` |
| Fixed.BoolRoundTrip | azalea-protocol/src/packets/game/serverbound_jigsaw_generate_packet.rs:10 | a written bool reads back unchanged |
| Fixed.BoolBytes | azalea-protocol/src/packets/game/serverbound_jigsaw_generate_packet.rs:10 | one byte; `Fixed.BoolRoundTrip` states that it reads back |
| Ints.U32OfI32 | azalea-protocol/src/packets/login/clientbound_game_profile_packet.rs:31-34 | `as u32` keeps the 32-bit pattern, and keeps the value when it is non-negative |
| Ints.I32OfU32 | azalea-protocol/src/packets/login/clientbound_game_profile_packet.rs:22 | `as i32` keeps the 32-bit pattern, and keeps the value when it is below 2^31 |
| Ints.Casts32Inverse | azalea-protocol/src/packets/login/clientbound_game_profile_packet.rs:22-34 | the two casts invert each other, so the words survive the round trip |
| Ints.U64OfI64 | azalea-protocol/src/packets/game/serverbound_jigsaw_generate_packet.rs:7 | `as u64` keeps the 64-bit pattern, and keeps the value when it is non-negative |
| Ints.I64OfU64 | azalea-protocol/src/packets/game/serverbound_jigsaw_generate_packet.rs:7 | `as i64` keeps the 64-bit pattern, and keeps the value when it is below 2^63 |
| Ints.Casts64Inverse | azalea-protocol/src/packets/game/serverbound_jigsaw_generate_packet.rs:7 | the 64-bit casts invert each other |
| Ints.BigEndian | azalea-protocol/src/packets/login/clientbound_game_profile_packet.rs:22 | the layout `write_int` and `write_long` produce: exactly `n` bytes; `Ints.FromBigEndianOfBigEndian` states that they spell the number |
| Ints.FromBigEndian | azalea-protocol/src/packets/login/clientbound_game_profile_packet.rs:31-34 | the number `read_int` and `read_long` take from their bytes, always below 256^n for `n` bytes; `Ints.BigEndianOfFromBigEndian` states that it inverts the layout |
| Ints.FromBigEndianOfBigEndian | azalea-protocol/src/packets/login/clientbound_game_profile_packet.rs:22-31 | reading a big-endian layout gives the number written |
| Ints.BigEndianOfFromBigEndian | azalea-protocol/src/packets/login/clientbound_game_profile_packet.rs:22-31 | writing the number a byte string spells gives back that byte string |
| Ints.FromBigEndianAppend | azalea-protocol/src/packets/login/clientbound_game_profile_packet.rs:21-23 | in a concatenation, the front bytes are the high digits |
| Uuid.FromToIntArray | azalea-protocol/src/packets/login/clientbound_game_profile_packet.rs:21-30 | `from_int_array(to_int_array(u))` is `u` |
| Uuid.ToFromIntArray | azalea-protocol/src/packets/login/clientbound_game_profile_packet.rs:21-30 | every four words are the split of exactly one UUID |
| Uuid.ToIntArray | azalea-protocol/src/packets/login/clientbound_game_profile_packet.rs:21 | four words; `Uuid.FromToIntArray` and `Uuid.ToFromIntArray` state that the split is one-to-one and onto |
| Uuid.FromIntArray | azalea-protocol/src/packets/login/clientbound_game_profile_packet.rs:30-35 | no contract of its own: `Uuid.FromToIntArray` and `Uuid.ToFromIntArray` state that it inverts `to_int_array` |
| Utf8.Encode | azalea-protocol/src/packets/login/clientbound_game_profile_packet.rs:24 | a string takes between one and four bytes per character |
| Utf8.Decode | azalea-protocol/src/packets/login/clientbound_game_profile_packet.rs:36 | a decoded string has at most as many characters as the input has bytes |
| Utf8.DecodeFirstOfEncodeChar | azalea-protocol/src/packets/login/clientbound_game_profile_packet.rs:36 | the decoder reads back each character's encoding, whatever follows it |
| Utf8.EncodeCharOfDecodeFirst | azalea-protocol/src/packets/login/clientbound_game_profile_packet.rs:36 | what the decoder accepts as a character is exactly that character's encoding: overlong forms, surrogates and values above U+10FFFF are refused |
| Utf8.DecodeOfEncode | azalea-protocol/src/packets/login/clientbound_game_profile_packet.rs:24-36 | decoding the UTF-8 of a string gives the string |
| Utf8.EncodeOfDecode | azalea-protocol/src/packets/login/clientbound_game_profile_packet.rs:36 | bytes that decode are exactly the encoding of what they decode to |
| Utf8.EncodeAscii | azalea-protocol/src/packets/login/clientbound_game_profile_packet.rs:36 | ASCII takes one byte per character, and each byte is the character's code |
| Utf.WriteUtf | azalea-protocol/src/packets/login/clientbound_game_profile_packet.rs:24 | a one- to three-byte length prefix, followed by exactly the string's UTF-8 bytes |
| Utf.ReadUtfWithLen | azalea-protocol/src/packets/login/clientbound_game_profile_packet.rs:36 | on success, the string is at most four bytes per allowed character and the rest is a strict suffix |
| Utf.RoundTrip | azalea-protocol/src/packets/login/clientbound_game_profile_packet.rs:24-36 | a string within both bounds reads back unchanged, consuming exactly what was written |
| Utf.TooLong | azalea-protocol/src/packets/login/clientbound_game_profile_packet.rs:36 | a string over four bytes per allowed character is refused with `StringTooLong` |
| Utf.ReadOfTruncated | azalea-protocol/src/packets/login/clientbound_game_profile_packet.rs:36 | every strict prefix of a written string is refused |
| Utf.RefusedBeforePayload | azalea-protocol/src/packets/login/clientbound_game_profile_packet.rs:36 | a count of 1000 against a bound of 16 is refused before any payload is read |
| BlockPos.SignExtend | azalea-protocol/src/packets/game/serverbound_jigsaw_generate_packet.rs:7 | a field value read as two's complement is within half the span either side of zero, and congruent to the field value |
| BlockPos.Unpack | azalea-protocol/src/packets/game/serverbound_jigsaw_generate_packet.rs:7 | every word unpacks to a packable position |
| BlockPos.Pack | azalea-protocol/src/packets/game/serverbound_jigsaw_generate_packet.rs:7 | no contract of its own: `BlockPos.UnpackPack` and `BlockPos.PackUnpack` state that it inverts unpacking up to wrapping |
| BlockPos.Wrapped | azalea-protocol/src/packets/game/serverbound_jigsaw_generate_packet.rs:7 | the wrapped position is packable and congruent to the original in each field width; it is the original when that is packable |
| BlockPos.UnpackPack | azalea-protocol/src/packets/game/serverbound_jigsaw_generate_packet.rs:7 | unpacking a packed position gives the wrapped position |
| BlockPos.PackUnpack | azalea-protocol/src/packets/game/serverbound_jigsaw_generate_packet.rs:7 | every 64-bit word is the packing of the position it unpacks to |
| BlockPos.RoundTrip | azalea-protocol/src/packets/game/serverbound_jigsaw_generate_packet.rs:7 | a written position reads back wrapped, and unchanged when packable, consuming eight bytes |
| BlockPos.Read | azalea-protocol/src/packets/game/serverbound_jigsaw_generate_packet.rs:7 | succeeds exactly when eight bytes remain, and consumes exactly eight; otherwise `Truncated` |
| BlockPos.Write | azalea-protocol/src/packets/game/serverbound_jigsaw_generate_packet.rs:7 | eight bytes; `BlockPos.RoundTrip` states that they read back |
| BlockPos.Extremes | azalea-protocol/src/packets/game/serverbound_jigsaw_generate_packet.rs:7 | the extreme coordinates survive, and one past the largest X wraps to the smallest |
| Buffer.Writer.WriteVarInt | azalea-protocol/src/packets/mod.rs:55 | the group-by-group loop appends exactly the varint of the value |
| Buffer.Writer.WriteInt | azalea-protocol/src/packets/login/clientbound_game_profile_packet.rs:22 | appends exactly the four bytes of the int |
| Buffer.Writer.WriteUtf | azalea-protocol/src/packets/login/clientbound_game_profile_packet.rs:24 | appends exactly the length-prefixed string |
| Buffer.Writer.WriteVarU32 | azalea-protocol/src/packets/game/serverbound_jigsaw_generate_packet.rs:8-9 | appends exactly the varint of the `#[var]` `u32` |
| Buffer.Writer.WriteLong | azalea-protocol/src/packets/game/serverbound_jigsaw_generate_packet.rs:7 | appends exactly the eight bytes of the long |
| Buffer.Writer.WriteBool | azalea-protocol/src/packets/game/serverbound_jigsaw_generate_packet.rs:10 | appends exactly the one byte of the bool |
| Buffer.Writer.WriteBlockPos | azalea-protocol/src/packets/game/serverbound_jigsaw_generate_packet.rs:7 | appends exactly the packed position's eight bytes |
| Buffer.Reader.ReadVarInt | azalea-protocol/src/packets/mod.rs:48 | the byte-by-byte loop returns what `VarInt.Read` returns, and on success leaves exactly the unread bytes |
| Buffer.Reader.ReadInt | azalea-protocol/src/packets/login/clientbound_game_profile_packet.rs:31-34 | returns what `Fixed.ReadInt` returns, and on success advances by four bytes |
| Buffer.Reader.ReadUtfWithLen | azalea-protocol/src/packets/login/clientbound_game_profile_packet.rs:36 | returns what `Utf.ReadUtfWithLen` returns, and on success leaves exactly the unread bytes |
| Buffer.Reader.ReadVarU32 | azalea-protocol/src/packets/game/serverbound_jigsaw_generate_packet.rs:8-9 | returns what `VarInt.ReadU32` returns, and on success leaves exactly the unread bytes |
| Buffer.Reader.ReadLong | azalea-protocol/src/packets/game/serverbound_jigsaw_generate_packet.rs:7 | returns what `Fixed.ReadLong` returns, and on success advances by eight bytes |
| Buffer.Reader.ReadBool | azalea-protocol/src/packets/game/serverbound_jigsaw_generate_packet.rs:10 | returns what `Fixed.ReadBool` returns, and on success advances by one byte |
| Buffer.Reader.ReadBlockPos | azalea-protocol/src/packets/game/serverbound_jigsaw_generate_packet.rs:7 | returns what `BlockPos.Read` returns, and on success leaves exactly the unread bytes |

## Left out

- I/O: `std::io::Read` errors other than end of input, and `Vec<u8>` allocation. The input is a byte sequence and the output an appended sequence.
- The primitives (`read_varint`, `write_int`, `read_utf_with_len`, the `BlockPos` and bool codecs, azalea_core's `SerializableUuid::to_int_array`/`from_int_array`, `GameProfile::new`) are defined in files that are not part of this model. They are modelled from the protocol's wire layout, and the profile is a (UUID, name) pair.
- The error strings of the source are one `ReadError` value each. `InvalidIntention` stands for `"Invalid intention"`, and `UnknownPacketId` for the packet tables' unknown-id error.
- Utf.ReadUtfWithLen: the bound is four bytes per allowed character, checked against the length prefix before the payload is read. No character count is checked after decoding. That is why `Login.SeventeenCharacterName` holds.
- Utf.ReadUtfWithLen: requires a bound below 2^30, so that four times the bound fits in 32 bits. The reader's behaviour on an overflowing bound is not modelled.
- Utf.WriteUtf: a string above 32767 UTF-8 bytes makes `write_utf` fail, and the source `unwrap`s that failure into a panic. The model states it as a precondition (`Login.Writable`), not as an error result.
- Login.Encode: `write` always returns `Ok`. Its panics are the precondition above; an `i32` write to a `Vec<u8>` cannot fail.
- The handshake and status packet families are not part of this model. `Packets.Packet` is generic in their types, and the `Box` around the status variant is a memory-layout choice with no effect on the bytes.
- The login and game families hold only the packet modelled here. Their ids, 0x02 in the clientbound login table and 0x0E in the serverbound game table, are those of protocol 758's tables; the tables themselves are not part of this model.
- The `ProtocolPacket` trait is not a Dafny trait. Each family gives its own `PacketId`, `PacketFlowOf`, `ReadPacket` and `WritePacket`, and its own `ReadWritePacket` lemma for the trait's contract.
- The `FromPrimitive`, `McBuf`, `ServerboundGamePacket` and packet-table macros are modelled only by the behaviour they generate: the tag lookup, the field-order codec and the id dispatch.
- `PacketFlow` only tags the direction. Transport, framing, compression and encryption are outside these files.
- Buffer.Reader: after a failed read, the position of the cursor is not specified; only the error is.
- The packet variants are named `Login.LoginPacket.GameProfilePacket` and `Game.GamePacket.JigsawGeneratePacket`, not `ClientboundGameProfilePacket` and `ServerboundJigsawGeneratePacket` as in the source. A constructor named after the packet datatype it holds would clash with that datatype's own constructor. The renaming has no effect on the bytes.
- Game.Decode: a position read back is always packable, so a written position outside the 26/12/26-bit fields comes back wrapped (`Game.RoundTripWrapped`). Equality holds only for packable positions.
