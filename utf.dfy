/**
 * Length-prefixed strings: a varint byte count, then that many UTF-8 bytes.
 * A reader is given a bound in characters and refuses a byte count above
 * four times that bound before it looks at the payload.
 */
module Utf {
  import opened Wrappers
  import opened Errors
  import opened Ints
  import VarInt
  import Utf8

  /** The largest byte count `write_utf` accepts; above it the write panics. */
  const MAX_STRING_LENGTH: nat := 32767

  /** The bytes of a string of `s`: its UTF-8 byte count as a varint, then the bytes. */
  function WriteUtf(s: string): (r: seq<byte>)
    requires |Utf8.Encode(s)| <= MAX_STRING_LENGTH
    ensures 1 <= |r| - |Utf8.Encode(s)| <= 3
    ensures r[|r| - |Utf8.Encode(s)|..] == Utf8.Encode(s)
  {
    VarInt.GroupsLength(|Utf8.Encode(s)|, 3);
    VarInt.Write(|Utf8.Encode(s)|) + Utf8.Encode(s)
  }

  /**
   * `read_utf_with_len`: a negative count or one above `4 * maxLength` is
   * refused before the payload is read, a short payload is a truncation, and
   * bytes that are not UTF-8 are refused.
   */
  function ReadUtfWithLen(s: seq<byte>, maxLength: u32): (r: Read<string>)
    requires maxLength < 0x4000_0000
    ensures r.Ok? ==> |Utf8.Encode(r.value.0)| <= 4 * maxLength
    ensures r.Ok? ==> |r.value.1| < |s| && r.value.1 == s[|s| - |r.value.1|..]
  {
    match VarInt.Read(s)
    case Err(e) => Err(e)
    case Ok((len, rest)) =>
      if len < 0 || len > 4 * maxLength then Err(StringTooLong)
      else if |rest| < len then Err(Truncated)
      else
        match Utf8.Decode(rest[..len])
        case None => Err(InvalidUtf8)
        case Some(str) =>
          Utf8.EncodeOfDecode(rest[..len]);
          Ok((str, rest[len..]))
  }

  /** A string within both bounds reads back unchanged, consuming exactly what was written. */
  lemma RoundTrip(str: string, maxLength: u32, rest: seq<byte>)
    requires maxLength < 0x4000_0000
    requires |Utf8.Encode(str)| <= MAX_STRING_LENGTH
    requires |Utf8.Encode(str)| <= 4 * maxLength
    ensures ReadUtfWithLen(WriteUtf(str) + rest, maxLength) == Ok((str, rest))
  {
    var e := Utf8.Encode(str);
    assert WriteUtf(str) + rest == VarInt.Write(|e|) + (e + rest);
    VarInt.RoundTrip(|e|, e + rest);
    assert (e + rest)[..|e|] == e && (e + rest)[|e|..] == rest;
    Utf8.DecodeOfEncode(str);
  }

  /** A written string whose bytes exceed four times the bound is refused as too long. */
  lemma TooLong(str: string, maxLength: u32, rest: seq<byte>)
    requires maxLength < 0x4000_0000
    requires |Utf8.Encode(str)| <= MAX_STRING_LENGTH
    requires |Utf8.Encode(str)| > 4 * maxLength
    ensures ReadUtfWithLen(WriteUtf(str) + rest, maxLength) == Err(StringTooLong)
  {
    var e := Utf8.Encode(str);
    assert WriteUtf(str) + rest == VarInt.Write(|e|) + (e + rest);
    VarInt.RoundTrip(|e|, e + rest);
  }

  /** A string ending early is refused: no string is produced from a strict prefix. */
  lemma ReadOfTruncated(str: string, maxLength: u32, k: nat)
    requires maxLength < 0x4000_0000
    requires |Utf8.Encode(str)| <= MAX_STRING_LENGTH
    requires k < |WriteUtf(str)|
    ensures ReadUtfWithLen(WriteUtf(str)[..k], maxLength).Err?
  {
    var e := Utf8.Encode(str);
    var w := VarInt.Write(|e|);
    var s := WriteUtf(str)[..k];
    if k < |w| {
      assert s == w[..k];
      VarInt.ReadOfTruncated(|e|, k);
    } else {
      assert s == w + s[|w|..];
      VarInt.RoundTrip(|e|, s[|w|..]);
    }
  }

  /** A count of 1000 against a bound of 16 characters is refused with no payload present at all. */
  lemma RefusedBeforePayload()
    ensures ReadUtfWithLen(VarInt.Write(1000), 16) == Err(StringTooLong)
  {
    VarInt.RoundTrip(1000, []);
    assert VarInt.Write(1000) + [] == VarInt.Write(1000);
  }
}
