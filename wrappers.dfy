/** Option and Result, usable with `:-`, standing for Rust's Option and Result. */
module Wrappers {

  datatype Option<+T> = None | Some(value: T)

  datatype Result<+T, +E> = Ok(value: T) | Err(error: E) {

    predicate IsFailure() {
      Err?
    }

    function PropagateFailure<U>(): Result<U, E>
      requires Err?
    {
      Err(error)
    }

    function Extract(): T
      requires Ok?
    {
      value
    }
  }
}

/** The kinds of failure a reader reports; the Rust code carries them as `String` messages. */
module Errors {
  import opened Wrappers
  import opened Ints

  datatype ReadError =
    | Truncated          // the source ended before a fixed-width field was complete
    | MalformedVarInt    // more than five varint bytes, or the source ended inside a varint
    | StringTooLong      // a string length prefix above four times the character bound
    | InvalidUtf8        // string bytes that are not well-formed UTF-8
    | InvalidIntention   // "Invalid intention": a connection-protocol tag outside -1..2
    | UnknownPacketId(id: int)

  /** What a reader over a byte sequence yields: the value and the bytes it left unread. */
  type Read<T> = Result<(T, seq<byte>), ReadError>

  /** The value a cursor-advancing reader hands to its caller (the remaining bytes stay in the reader). */
  function ValueOf<T>(r: Read<T>): (v: Result<T, ReadError>)
    ensures v.Ok? <==> r.Ok?
    ensures r.Ok? ==> v.value == r.value.0
    ensures r.Err? ==> v.error == r.error
  {
    match r
    case Ok((x, _)) => Ok(x)
    case Err(e) => Err(e)
  }
}
