/**
 * The connection phases and their wire tags, the direction a packet travels,
 * and the codec of a phase tag: the tag's `i32` written as a varint, and a
 * varint read back into a phase, any other number refused as an invalid
 * intention.
 */
module Protocol {
  import opened Wrappers
  import opened Errors
  import opened Ints
  import VarInt
  import Buffer

  const PROTOCOL_VERSION: u32 := 758

  datatype ConnectionProtocol = Handshake | Game | Status | Login

  /** Which way a packet travels; each phase has one id table per direction. */
  datatype PacketFlow = ClientToServer | ServerToClient

  /** `*self as i32`: the fixed discriminant of a phase. */
  function Tag(p: ConnectionProtocol): (t: i32)
    ensures FromTag(t) == Some(p)
  {
    match p
    case Handshake => -1
    case Game => 0
    case Status => 1
    case Login => 2
  }

  /** `ConnectionProtocol::from_i32`: the phase whose discriminant is `t`, if there is one. */
  function FromTag(t: int): (r: Option<ConnectionProtocol>)
    ensures r.Some? <==> -1 <= t <= 2
  {
    if t == -1 then Some(Handshake)
    else if t == 0 then Some(Game)
    else if t == 1 then Some(Status)
    else if t == 2 then Some(Login)
    else None
  }

  /** The tags are distinct and `FromTag` is their exact inverse, in both directions. */
  lemma TagInverse(p: ConnectionProtocol, t: int)
    ensures FromTag(Tag(p)) == Some(p)
    ensures FromTag(t) == Some(p) <==> Tag(p) == t
  {
  }

  /** No two phases share a tag. */
  lemma TagInjective(p: ConnectionProtocol, q: ConnectionProtocol)
    requires Tag(p) == Tag(q)
    ensures p == q
  {
    TagInverse(p, Tag(q));
  }

  /** `write_into`: the varint of the phase's tag. */
  function Encode(p: ConnectionProtocol): seq<byte>
  {
    VarInt.Write(Tag(p))
  }

  /** `read_into`: a varint, then the phase with that tag; a varint failure passes through unchanged. */
  function Decode(s: seq<byte>): (r: Read<ConnectionProtocol>)
    ensures VarInt.Read(s).Err? ==> r == Err(VarInt.Read(s).error)
    ensures VarInt.Read(s).Ok? && FromTag(VarInt.Read(s).value.0).None? ==> r == Err(InvalidIntention)
    ensures r.Ok? <==> VarInt.Read(s).Ok? && -1 <= VarInt.Read(s).value.0 <= 2
    ensures r.Ok? ==> VarInt.Read(s) == Ok((Tag(r.value.0), r.value.1))
  {
    match VarInt.Read(s)
    case Err(e) => Err(e)
    case Ok((t, rest)) =>
      match FromTag(t)
      case None => Err(InvalidIntention)
      case Some(p) => Ok((p, rest))
  }

  /** Round trip: every phase reads back from what it writes, consuming exactly those bytes. */
  lemma RoundTrip(p: ConnectionProtocol, rest: seq<byte>)
    ensures Decode(Encode(p) + rest) == Ok((p, rest))
  {
    VarInt.RoundTrip(Tag(p), rest);
  }

  /** Any well-formed varint holding a number other than -1, 0, 1 or 2 is an invalid intention. */
  lemma RejectsOtherTags(t: i32, rest: seq<byte>)
    requires t < -1 || 2 < t
    ensures Decode(VarInt.Write(t) + rest) == Err(InvalidIntention)
  {
    VarInt.RoundTrip(t, rest);
  }

  /** A varint that never ends, or ends with the input, yields no phase. */
  lemma RejectsMalformed(s: seq<byte>, x: i32, k: nat)
    requires k < |VarInt.Write(x)|
    ensures Decode(VarInt.Write(x)[..k]) == Err(MalformedVarInt)
    ensures VarInt.MAX_VARINT_BYTES <= |s| && (forall j :: 0 <= j < VarInt.MAX_VARINT_BYTES ==> s[j] >= 0x80) ==>
      Decode(s) == Err(MalformedVarInt)
  {
    VarInt.ReadOfTruncated(x, k);
    if VarInt.MAX_VARINT_BYTES <= |s| && (forall j :: 0 <= j < VarInt.MAX_VARINT_BYTES ==> s[j] >= 0x80) {
      VarInt.FiveContinuedIsMalformed(s);
    }
  }

  /** The bytes of each phase; Handshake's -1 goes out as its 32-bit pattern in five bytes. */
  lemma EncodedPhases()
    ensures Encode(Handshake) == [0xff, 0xff, 0xff, 0xff, 0x0f]
    ensures Encode(Game) == [0x00]
    ensures Encode(Status) == [0x01]
    ensures Encode(Login) == [0x02]
  {
    VarInt.MinusOneBoundary();
  }

  /** `McBufWritable::write_into` on the growing buffer. */
  method WriteInto(p: ConnectionProtocol, buf: Buffer.Writer)
    modifies buf
    ensures buf.bytes == old(buf.bytes) + Encode(p)
  {
    buf.WriteVarInt(Tag(p));
  }

  /** `McBufReadable::read_into` on the cursor. */
  method ReadInto(buf: Buffer.Reader) returns (r: Result<ConnectionProtocol, ReadError>)
    modifies buf
    ensures r == ValueOf(Decode(old(buf.remaining)))
    ensures r.Ok? ==> buf.remaining == Decode(old(buf.remaining)).value.1
  {
    var t := buf.ReadVarInt();
    if t.Err? {
      return Err(t.error);
    }
    match FromTag(t.value)
    case None => r := Err(InvalidIntention);
    case Some(p) => r := Ok(p);
  }
}
