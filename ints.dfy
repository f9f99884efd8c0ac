/**
 * Fixed-width integers as ranges of mathematical integers, the `as` casts
 * between signed and unsigned widths (which keep the two's-complement bit
 * pattern), and big-endian byte layouts.
 */
module Ints {

  const TWO_8: int := 0x100
  const TWO_31: int := 0x8000_0000
  const TWO_32: int := 0x1_0000_0000
  const TWO_63: int := 0x8000_0000_0000_0000
  const TWO_64: int := 0x1_0000_0000_0000_0000

  type byte = b: int | 0 <= b < TWO_8
  type i32 = x: int | -TWO_31 <= x < TWO_31
  type u32 = x: int | 0 <= x < TWO_32
  type i64 = x: int | -TWO_63 <= x < TWO_63
  type u64 = x: int | 0 <= x < TWO_64

  /** Rust's `x as u32` on an `i32`: same 32 bits, read unsigned. */
  function U32OfI32(x: i32): (u: u32)
    ensures (u - x) % TWO_32 == 0
    ensures x >= 0 ==> u == x
  {
    if x < 0 then x + TWO_32 else x
  }

  /** Rust's `u as i32` on a `u32`: same 32 bits, read as two's complement. */
  function I32OfU32(u: u32): (x: i32)
    ensures (u - x) % TWO_32 == 0
    ensures u < TWO_31 ==> x == u
  {
    if u >= TWO_31 then u - TWO_32 else u
  }

  /** Rust's `x as u64` on an `i64`. */
  function U64OfI64(x: i64): (u: u64)
    ensures (u - x) % TWO_64 == 0
    ensures x >= 0 ==> u == x
  {
    if x < 0 then x + TWO_64 else x
  }

  /** Rust's `u as i64` on a `u64`. */
  function I64OfU64(u: u64): (x: i64)
    ensures (u - x) % TWO_64 == 0
    ensures u < TWO_63 ==> x == u
  {
    if u >= TWO_63 then u - TWO_64 else u
  }

  /** The 32-bit casts are mutually inverse: no bit is lost either way. */
  lemma Casts32Inverse(x: i32, u: u32)
    ensures I32OfU32(U32OfI32(x)) == x
    ensures U32OfI32(I32OfU32(u)) == u
  {
  }

  /** The 64-bit casts are mutually inverse. */
  lemma Casts64Inverse(x: i64, u: u64)
    ensures I64OfU64(U64OfI64(x)) == x
    ensures U64OfI64(I64OfU64(u)) == u
  {
  }

  function Pow256(n: nat): (r: nat)
    ensures r > 0
  {
    if n == 0 then 1 else TWO_8 * Pow256(n - 1)
  }

  /** The `n`-byte big-endian layout of `x`, most significant byte first. */
  function BigEndian(x: nat, n: nat): (r: seq<byte>)
    requires x < Pow256(n)
    ensures |r| == n
  {
    if n == 0 then [] else BigEndian(x / TWO_8, n - 1) + [x % TWO_8]
  }

  /** The number whose big-endian layout is `s`. */
  function FromBigEndian(s: seq<byte>): (x: nat)
    ensures x < Pow256(|s|)
  {
    if s == [] then 0 else FromBigEndian(s[..|s| - 1]) * TWO_8 + s[|s| - 1]
  }

  /** Reading back a big-endian layout gives the number written. */
  lemma {:induction false} FromBigEndianOfBigEndian(x: nat, n: nat)
    requires x < Pow256(n)
    ensures FromBigEndian(BigEndian(x, n)) == x
  {
    if n > 0 {
      var s := BigEndian(x, n);
      assert s[..n - 1] == BigEndian(x / TWO_8, n - 1);
      FromBigEndianOfBigEndian(x / TWO_8, n - 1);
    }
  }

  /** Writing the number a byte string denotes gives back that byte string. */
  lemma {:induction false} BigEndianOfFromBigEndian(s: seq<byte>)
    ensures BigEndian(FromBigEndian(s), |s|) == s
  {
    if s != [] {
      var init := s[..|s| - 1];
      BigEndianOfFromBigEndian(init);
      assert s == init + [s[|s| - 1]];
    }
  }

  /** Big-endian numbers of concatenated bytes: the front bytes are the high digits. */
  lemma {:induction false} FromBigEndianAppend(a: seq<byte>, b: seq<byte>)
    ensures FromBigEndian(a + b) == FromBigEndian(a) * Pow256(|b|) + FromBigEndian(b)
  {
    if b == [] {
      assert a + b == a;
    } else {
      var b', last := b[..|b| - 1], b[|b| - 1];
      assert (a + b)[..|a + b| - 1] == a + b';
      FromBigEndianAppend(a, b');
      ShiftDigit(FromBigEndian(a), Pow256(|b'|), FromBigEndian(b'), last);
    }
  }

  lemma ShiftDigit(hi: int, p: int, lo: int, last: int)
    ensures (hi * p + lo) * TWO_8 + last == hi * (TWO_8 * p) + (lo * TWO_8 + last)
  {
  }
}
