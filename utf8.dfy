/**
 * UTF-8 as in RFC 3629: a Unicode scalar value (a Dafny `char`) takes one to
 * four bytes; a decoder accepts only well-formed sequences (no overlong forms,
 * no surrogates, nothing above U+10FFFF). Rust's `str::as_bytes` and
 * `str::from_utf8` are this encoder and decoder.
 */
module Utf8 {
  import opened Wrappers
  import opened Ints

  const CONT: int := 0x80    // 10xxxxxx, a continuation byte
  const LEAD2: int := 0xC0   // 110xxxxx
  const LEAD3: int := 0xE0   // 1110xxxx
  const LEAD4: int := 0xF0   // 11110xxx
  const SIX: int := 0x40     // the six payload bits of a continuation byte

  function EncodeChar(c: char): (r: seq<byte>)
    ensures 1 <= |r| <= 4
  {
    var v := c as int;
    if v < 0x80 then [v]
    else if v < 0x800 then [LEAD2 + v / SIX, CONT + v % SIX]
    else if v < 0x1_0000 then [LEAD3 + v / 0x1000, CONT + (v / SIX) % SIX, CONT + v % SIX]
    else [LEAD4 + v / 0x4_0000, CONT + (v / 0x1000) % SIX, CONT + (v / SIX) % SIX, CONT + v % SIX]
  }

  /** The bytes of a string: the bytes of its characters, in order. */
  function Encode(s: string): (r: seq<byte>)
    ensures |s| <= |r| <= 4 * |s|
  {
    if s == [] then [] else EncodeChar(s[0]) + Encode(s[1..])
  }

  predicate IsCont(b: byte) {
    CONT <= b < LEAD2
  }

  /** The first character of `s` and the number of bytes it takes, if `s` starts well-formed. */
  function DecodeFirst(s: seq<byte>): (r: Option<(char, nat)>)
    requires |s| > 0
    ensures r.Some? ==> 1 <= r.value.1 <= |s| && r.value.1 <= 4
  {
    var b0 := s[0];
    if b0 < CONT then Some((b0 as char, 1))
    else if b0 < LEAD2 then None
    else if b0 < LEAD3 then
      if |s| < 2 || !IsCont(s[1]) then None
      else
        var v := (b0 - LEAD2) * SIX + (s[1] - CONT);
        if v < 0x80 then None else Some((v as char, 2))
    else if b0 < LEAD4 then
      if |s| < 3 || !IsCont(s[1]) || !IsCont(s[2]) then None
      else
        var v := (b0 - LEAD3) * 0x1000 + (s[1] - CONT) * SIX + (s[2] - CONT);
        if v < 0x800 || (0xD800 <= v < 0xE000) then None else Some((v as char, 3))
    else if b0 < 0xF8 then
      if |s| < 4 || !IsCont(s[1]) || !IsCont(s[2]) || !IsCont(s[3]) then None
      else
        var v := (b0 - LEAD4) * 0x4_0000 + (s[1] - CONT) * 0x1000 + (s[2] - CONT) * SIX + (s[3] - CONT);
        if v < 0x1_0000 || 0x10_FFFF < v then None else Some((v as char, 4))
    else None
  }

  /** `str::from_utf8`: the string the bytes spell, or nothing when they are not well-formed. */
  function Decode(s: seq<byte>): (r: Option<string>)
    ensures r.Some? ==> |r.value| <= |s|
    decreases |s|
  {
    if s == [] then Some([])
    else
      match DecodeFirst(s)
      case None => None
      case Some((c, n)) =>
        match Decode(s[n..])
        case None => None
        case Some(t) => Some([c] + t)
  }

  lemma DecodeFirstOfEncodeChar(c: char, rest: seq<byte>)
    ensures DecodeFirst(EncodeChar(c) + rest) == Some((c, |EncodeChar(c)|))
  {
    var v := c as int;
    if v < 0x80 {
      assert (EncodeChar(c) + rest)[0] == v;
    } else if v < 0x800 {
      DecodeFirstOfTwo(c, rest);
    } else if v < 0x1_0000 {
      DecodeFirstOfThree(c, rest);
    } else {
      DecodeFirstOfFour(c, rest);
    }
  }

  lemma DecodeFirstOfTwo(c: char, rest: seq<byte>)
    requires 0x80 <= c as int < 0x800
    ensures DecodeFirst(EncodeChar(c) + rest) == Some((c, 2))
  {
    var v, e := c as int, EncodeChar(c);
    var s := e + rest;
    assert s[0] == e[0] == LEAD2 + v / SIX && s[1] == e[1] == CONT + v % SIX;
    Digits2(v);
  }

  lemma DecodeFirstOfThree(c: char, rest: seq<byte>)
    requires 0x800 <= c as int < 0x1_0000
    ensures DecodeFirst(EncodeChar(c) + rest) == Some((c, 3))
  {
    var v, e := c as int, EncodeChar(c);
    var s := e + rest;
    assert s[0] == e[0] == LEAD3 + v / 0x1000;
    assert s[1] == e[1] == CONT + (v / SIX) % SIX && s[2] == e[2] == CONT + v % SIX;
    Digits3(v);
  }

  lemma DecodeFirstOfFour(c: char, rest: seq<byte>)
    requires 0x1_0000 <= c as int
    ensures DecodeFirst(EncodeChar(c) + rest) == Some((c, 4))
  {
    var v, e := c as int, EncodeChar(c);
    var s := e + rest;
    assert s[0] == e[0] == LEAD4 + v / 0x4_0000;
    assert s[1] == e[1] == CONT + (v / 0x1000) % SIX;
    assert s[2] == e[2] == CONT + (v / SIX) % SIX && s[3] == e[3] == CONT + v % SIX;
    Digits4(v);
  }

  lemma Digits2(v: int)
    requires 0x80 <= v < 0x800
    ensures v / SIX < 0x20 && (v / SIX) * SIX + v % SIX == v
  {
  }

  lemma Digits3(v: int)
    requires 0x800 <= v < 0x1_0000
    ensures v / 0x1000 < 0x10
    ensures (v / 0x1000) * 0x1000 + ((v / SIX) % SIX) * SIX + v % SIX == v
  {
  }

  lemma Digits4(v: int)
    requires 0x1_0000 <= v <= 0x10_FFFF
    ensures v / 0x4_0000 < 0x8
    ensures (v / 0x4_0000) * 0x4_0000 + ((v / 0x1000) % SIX) * 0x1000 + ((v / SIX) % SIX) * SIX + v % SIX == v
  {
    var q := v / SIX;
    assert v == q * SIX + v % SIX;
    assert q / SIX == v / 0x1000;
    assert q == (q / SIX) * SIX + q % SIX;
    var h := v / 0x1000;
    assert h / SIX == v / 0x4_0000;
    assert h == (h / SIX) * SIX + h % SIX;
  }

  /** What a well-formed first character consumes is exactly that character's encoding. */
  lemma EncodeCharOfDecodeFirst(s: seq<byte>)
    requires |s| > 0 && DecodeFirst(s).Some?
    ensures s[..DecodeFirst(s).value.1] == EncodeChar(DecodeFirst(s).value.0)
  {
    if s[0] < CONT {
    } else if s[0] < LEAD3 {
      EncodeCharOfTwo(s);
    } else if s[0] < LEAD4 {
      EncodeCharOfThree(s);
    } else {
      EncodeCharOfFour(s);
    }
  }

  lemma EncodeCharOfTwo(s: seq<byte>)
    requires |s| > 0 && DecodeFirst(s).Some? && CONT <= s[0] < LEAD3
    ensures s[..2] == EncodeChar(DecodeFirst(s).value.0)
  {
    Undigits2(s[0] - LEAD2, s[1] - CONT);
  }

  lemma EncodeCharOfThree(s: seq<byte>)
    requires |s| > 0 && DecodeFirst(s).Some? && LEAD3 <= s[0] < LEAD4
    ensures s[..3] == EncodeChar(DecodeFirst(s).value.0)
  {
    Undigits3(s[0] - LEAD3, s[1] - CONT, s[2] - CONT);
  }

  lemma EncodeCharOfFour(s: seq<byte>)
    requires |s| > 0 && DecodeFirst(s).Some? && LEAD4 <= s[0]
    ensures s[..4] == EncodeChar(DecodeFirst(s).value.0)
  {
    Undigits4(s[0] - LEAD4, s[1] - CONT, s[2] - CONT, s[3] - CONT);
  }

  lemma Undigits2(a: int, b: int)
    requires 0 <= a && 0 <= b < SIX
    ensures (a * SIX + b) / SIX == a && (a * SIX + b) % SIX == b
  {
  }

  lemma Undigits3(a: int, b: int, c: int)
    requires 0 <= a && 0 <= b < SIX && 0 <= c < SIX
    ensures var v := a * 0x1000 + b * SIX + c;
      v / 0x1000 == a && (v / SIX) % SIX == b && v % SIX == c
  {
    var v := a * 0x1000 + b * SIX + c;
    assert v / SIX == a * SIX + b;
  }

  lemma Undigits4(a: int, b: int, c: int, d: int)
    requires 0 <= a && 0 <= b < SIX && 0 <= c < SIX && 0 <= d < SIX
    ensures var v := a * 0x4_0000 + b * 0x1000 + c * SIX + d;
      v / 0x4_0000 == a && (v / 0x1000) % SIX == b && (v / SIX) % SIX == c && v % SIX == d
  {
    var v := a * 0x4_0000 + b * 0x1000 + c * SIX + d;
    assert v / SIX == a * 0x1000 + b * SIX + c;
    assert v / 0x1000 == a * SIX + b;
  }

  /** Decoding the bytes of a string gives the string back. */
  lemma {:induction false} DecodeOfEncode(s: string)
    ensures Decode(Encode(s)) == Some(s)
  {
    if s != [] {
      var e := Encode(s);
      DecodeFirstOfEncodeChar(s[0], Encode(s[1..]));
      assert e[|EncodeChar(s[0])|..] == Encode(s[1..]);
      DecodeOfEncode(s[1..]);
      assert [s[0]] + s[1..] == s;
    }
  }

  /** Bytes that decode are exactly the encoding of what they decode to: the encoding is one-to-one. */
  lemma {:induction false} EncodeOfDecode(b: seq<byte>)
    requires Decode(b).Some?
    ensures Encode(Decode(b).value) == b
    decreases |b|
  {
    if b != [] {
      var c, n, t := Uncons(b);
      EncodeOfDecode(b[n..]);
      EncodeCons(c, t);
      assert b == b[..n] + b[n..];
    }
  }

  /** A nonempty well-formed input is one character's encoding followed by a well-formed rest. */
  lemma Uncons(b: seq<byte>) returns (c: char, n: nat, t: string)
    requires b != [] && Decode(b).Some?
    ensures 0 < n <= |b| && b[..n] == EncodeChar(c)
    ensures Decode(b[n..]) == Some(t) && Decode(b).value == [c] + t
  {
    c, n := DecodeFirst(b).value.0, DecodeFirst(b).value.1;
    t := Decode(b[n..]).value;
    EncodeCharOfDecodeFirst(b);
  }

  lemma EncodeCons(c: char, t: string)
    ensures Encode([c] + t) == EncodeChar(c) + Encode(t)
  {
    assert ([c] + t)[1..] == t;
  }

  /** ASCII text takes one byte per character, the byte being the character's code. */
  lemma {:induction false} EncodeAscii(s: string)
    requires forall j :: 0 <= j < |s| ==> s[j] < 0x80 as char
    ensures |Encode(s)| == |s|
    ensures forall j :: 0 <= j < |s| ==> Encode(s)[j] == s[j] as int
  {
    if s != [] {
      EncodeAscii(s[1..]);
    }
  }
}
