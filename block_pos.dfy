/**
 * A block position packed into one 64-bit word: X in the top 26 bits, Z in
 * the next 26, Y in the low 12, each in two's complement. Writing keeps only
 * those low bits of each coordinate (a coordinate outside its field wraps);
 * reading sign-extends each field.
 */
module BlockPos {
  import opened Wrappers
  import opened Errors
  import opened Ints
  import Fixed

  datatype BlockPos = BlockPos(x: i32, y: i32, z: i32)

  const XZ_SPAN: int := 0x400_0000          // 2^26 values of an X or Z field
  const Y_SPAN: int := 0x1000               // 2^12 values of the Y field
  const X_UNIT: int := 0x40_0000_0000       // 2^38: X starts at bit 38
  const Z_UNIT: int := 0x1000               // 2^12: Z starts at bit 12

  /** The two's-complement reading of the field value `v` of a field with `span` values. */
  function SignExtend(v: int, span: int): (r: int)
    requires 0 <= v < span
    ensures -span <= 2 * r < span
    ensures r == v || r == v - span
  {
    if 2 * v >= span then v - span else v
  }

  /** The positions a packed word can hold. */
  predicate Packable(p: BlockPos) {
    && -XZ_SPAN <= 2 * p.x < XZ_SPAN
    && -Y_SPAN <= 2 * p.y < Y_SPAN
    && -XZ_SPAN <= 2 * p.z < XZ_SPAN
  }

  /** The word a position is written as: each coordinate masked to its field. */
  function Pack(p: BlockPos): u64
  {
    (p.x % XZ_SPAN) * X_UNIT + (p.z % XZ_SPAN) * Z_UNIT + p.y % Y_SPAN
  }

  /** The position a word is read as: each field sign-extended. */
  function Unpack(w: u64): (p: BlockPos)
    ensures Packable(p)
  {
    BlockPos(SignExtend(w / X_UNIT, XZ_SPAN), SignExtend(w % Y_SPAN, Y_SPAN), SignExtend((w / Z_UNIT) % XZ_SPAN, XZ_SPAN))
  }

  /** The position that survives a write and a read: every coordinate wrapped to its field width. */
  function Wrapped(p: BlockPos): (q: BlockPos)
    ensures Packable(q)
    ensures (q.x - p.x) % XZ_SPAN == 0 && (q.y - p.y) % Y_SPAN == 0 && (q.z - p.z) % XZ_SPAN == 0
    ensures Packable(p) ==> q == p
  {
    BlockPos(SignExtend(p.x % XZ_SPAN, XZ_SPAN), SignExtend(p.y % Y_SPAN, Y_SPAN), SignExtend(p.z % XZ_SPAN, XZ_SPAN))
  }

  function Write(p: BlockPos): (r: seq<byte>)
    ensures |r| == 8
  {
    Fixed.LongBytes(I64OfU64(Pack(p)))
  }

  function Read(s: seq<byte>): (r: Read<BlockPos>)
    ensures r.Ok? <==> |s| >= 8
    ensures r.Ok? ==> r.value.1 == s[8..]
    ensures r.Err? ==> r.error == Truncated
  {
    match Fixed.ReadLong(s)
    case Err(e) => Err(e)
    case Ok((l, rest)) => Ok((Unpack(U64OfI64(l)), rest))
  }

  lemma Fields(a: int, b: int, c: int)
    requires 0 <= a < XZ_SPAN && 0 <= b < XZ_SPAN && 0 <= c < Y_SPAN
    ensures var w := a * X_UNIT + b * Z_UNIT + c;
      w / X_UNIT == a && (w / Z_UNIT) % XZ_SPAN == b && w % Y_SPAN == c
  {
    var w := a * X_UNIT + b * Z_UNIT + c;
    assert w / Z_UNIT == a * XZ_SPAN + b;
  }

  lemma SignExtendMod(v: int, span: int)
    requires 0 <= v < span
    ensures SignExtend(v, span) % span == v
  {
  }

  /** Unpacking a packed position gives the wrapped position. */
  lemma UnpackPack(p: BlockPos)
    ensures Unpack(Pack(p)) == Wrapped(p)
  {
    Fields(p.x % XZ_SPAN, p.z % XZ_SPAN, p.y % Y_SPAN);
  }

  /** Packing an unpacked word gives the word back: every 64-bit word is some position's packing. */
  lemma PackUnpack(w: u64)
    ensures Pack(Unpack(w)) == w
  {
    var a, b, c := w / X_UNIT, (w / Z_UNIT) % XZ_SPAN, w % Y_SPAN;
    SignExtendMod(a, XZ_SPAN);
    SignExtendMod(b, XZ_SPAN);
    SignExtendMod(c, Y_SPAN);
    assert w == a * X_UNIT + b * Z_UNIT + c;
  }

  /** Reading a written position gives its wrapped form and consumes exactly eight bytes. */
  lemma RoundTrip(p: BlockPos, rest: seq<byte>)
    ensures Read(Write(p) + rest) == Ok((Wrapped(p), rest))
    ensures Packable(p) ==> Read(Write(p) + rest) == Ok((p, rest))
  {
    Fixed.LongRoundTrip(I64OfU64(Pack(p)), rest);
    Casts64Inverse(0, Pack(p));
    UnpackPack(p);
  }

  /** The extreme representable coordinates survive; one past the largest X wraps to the smallest. */
  lemma Extremes()
    ensures Unpack(Pack(BlockPos(-33554432, -2048, 33554431))) == BlockPos(-33554432, -2048, 33554431)
    ensures Unpack(Pack(BlockPos(33554432, 0, 0))) == BlockPos(-33554432, 0, 0)
  {
    UnpackPack(BlockPos(-33554432, -2048, 33554431));
    UnpackPack(BlockPos(33554432, 0, 0));
  }
}
