/**
 * Fixed-width reads from a byte buffer, as the object data input offers them to the
 * schema extractor: signed 32-bit and 16-bit integers, single bytes, booleans and raw
 * byte runs.  Byte order is fixed to big-endian; every read past either end of the
 * buffer fails with MalformedData instead of producing a value.
 */
module Wire {
  import opened Common

  type Byte = b: int | 0 <= b < 0x100

  const INT_SIZE_IN_BYTES: nat := 4
  const SHORT_SIZE_IN_BYTES: nat := 2
  const MIN_INT: int := -0x8000_0000
  const MAX_INT: int := 0x7fff_ffff

  predicate IsInt32(v: int) { MIN_INT <= v <= MAX_INT }

  /** `n` bytes can be read starting at absolute position `p`. */
  predicate Available(data: seq<Byte>, p: int, n: int) {
    0 <= p && 0 <= n && p + n <= |data|
  }

  /** 256 to the power `n`. */
  function Radix(n: nat): (r: nat)
    ensures r > 0
  {
    if n == 0 then 1 else 0x100 * Radix(n - 1)
  }

  /** The byte read as two's complement. */
  function SignedByte(b: Byte): int {
    if b >= 0x80 then b - 0x100 else b
  }

  /**
   * The two's-complement value of `bs`, most significant byte first: the leading byte is
   * signed, every later one shifts in unsigned.
   */
  function SignedBigEndian(bs: seq<Byte>): (v: int)
    requires |bs| >= 1
    ensures -0x80 * Radix(|bs| - 1) <= v < 0x80 * Radix(|bs| - 1)
    decreases |bs|
  {
    if |bs| == 1 then SignedByte(bs[0])
    else SignedBigEndian(bs[..|bs| - 1]) * 0x100 + bs[|bs| - 1]
  }

  /** `read_int(p)`: the big-endian signed 32-bit integer at `p`; the cursor is not moved. */
  function ReadInt(data: seq<Byte>, p: int): (r: Result<int>)
    ensures r.Ok? <==> Available(data, p, INT_SIZE_IN_BYTES)
    ensures r.Ok? ==> IsInt32(r.value)
    ensures r.Err? ==> r.error == MalformedData
  {
    if !Available(data, p, INT_SIZE_IN_BYTES) then Err(MalformedData)
    else
      assert Radix(3) == 0x100_0000;
      Ok(SignedBigEndian(data[p..p + INT_SIZE_IN_BYTES]))
  }

  /** `read_short`: the big-endian signed 16-bit integer at `p`. */
  function ReadShort(data: seq<Byte>, p: int): (r: Result<int>)
    ensures r.Ok? <==> Available(data, p, SHORT_SIZE_IN_BYTES)
    ensures r.Ok? ==> -0x8000 <= r.value < 0x8000
    ensures r.Err? ==> r.error == MalformedData
  {
    if !Available(data, p, SHORT_SIZE_IN_BYTES) then Err(MalformedData)
    else
      assert Radix(1) == 0x100;
      Ok(SignedBigEndian(data[p..p + SHORT_SIZE_IN_BYTES]))
  }

  /** `read_byte`: the byte at `p`, unsigned. */
  function ReadByte(data: seq<Byte>, p: int): (r: Result<Byte>)
    ensures r.Ok? <==> Available(data, p, 1)
    ensures r.Ok? ==> r.value == data[p]
  {
    if !Available(data, p, 1) then Err(MalformedData) else Ok(data[p])
  }

  /** `read_boolean`: the byte at `p` read as a flag, any non-zero byte being true. */
  function ReadBool(data: seq<Byte>, p: int): (r: Result<bool>)
    ensures r.Ok? <==> Available(data, p, 1)
    ensures r.Ok? ==> (r.value <==> data[p] != 0)
  {
    if !Available(data, p, 1) then Err(MalformedData) else Ok(data[p] != 0)
  }

  /** `read_into` a buffer of `n` bytes: the `n` bytes starting at `p`. */
  function ReadBytes(data: seq<Byte>, p: int, n: int): (r: Result<seq<Byte>>)
    ensures r.Ok? <==> Available(data, p, n)
    ensures r.Ok? ==> |r.value| == n
  {
    if !Available(data, p, n) then Err(MalformedData) else Ok(data[p..p + n])
  }

  /** The four big-endian bytes that encode a 32-bit integer (the writer's side). */
  function EncodeInt(v: int): (bs: seq<Byte>)
    requires IsInt32(v)
    ensures |bs| == INT_SIZE_IN_BYTES
  {
    var u := if v < 0 then v + 0x1_0000_0000 else v;
    var u1 := u / 0x100;
    var u2 := u1 / 0x100;
    [u2 / 0x100, u2 % 0x100, u1 % 0x100, u % 0x100]
  }

  /** The two big-endian bytes that encode a 16-bit integer. */
  function EncodeShort(v: int): (bs: seq<Byte>)
    requires -0x8000 <= v < 0x8000
    ensures |bs| == SHORT_SIZE_IN_BYTES
  {
    var u := if v < 0 then v + 0x1_0000 else v;
    [u / 0x100, u % 0x100]
  }

  /** Reading back an encoded integer, wherever it sits in a buffer, yields it again. */
  lemma ReadEncodedInt(prefix: seq<Byte>, v: int, suffix: seq<Byte>)
    requires IsInt32(v)
    ensures ReadInt(prefix + EncodeInt(v) + suffix, |prefix|) == Ok(v)
  {
    var bs := EncodeInt(v);
    var data := prefix + bs + suffix;
    assert data[|prefix|..|prefix| + INT_SIZE_IN_BYTES] == bs;
    var u := if v < 0 then v + 0x1_0000_0000 else v;
    var u1 := u / 0x100;
    var u2 := u1 / 0x100;
    var w := if v < 0 then 0x1_0000_0000 else 0;
    assert u == u1 * 0x100 + u % 0x100;
    assert u1 == u2 * 0x100 + u1 % 0x100;
    assert u2 == (u2 / 0x100) * 0x100 + u2 % 0x100;
    assert SignedBigEndian(bs[..1]) == u2 / 0x100 - w / 0x100_0000 by { assert bs[..1] == [bs[0]]; }
    assert SignedBigEndian(bs[..2]) == u2 - w / 0x1_0000 by { assert bs[..2][..1] == bs[..1]; }
    assert SignedBigEndian(bs[..3]) == u1 - w / 0x100 by { assert bs[..3][..2] == bs[..2]; }
    assert SignedBigEndian(bs) == u - w by { assert bs[..3] == bs[..|bs| - 1]; }
  }

  /** A read depends only on the four bytes read: where they encode `v`, the read gives `v`. */
  lemma ReadIntAt(data: seq<Byte>, p: int, v: int)
    requires IsInt32(v)
    requires Available(data, p, INT_SIZE_IN_BYTES) && data[p..p + INT_SIZE_IN_BYTES] == EncodeInt(v)
    ensures ReadInt(data, p) == Ok(v)
  {
    ReadEncodedInt(data[..p], v, data[p + INT_SIZE_IN_BYTES..]);
    assert data[..p] + EncodeInt(v) + data[p + INT_SIZE_IN_BYTES..] == data;
  }

  /** A read that fits in `prefix` gives the same after bytes are appended. */
  lemma ReadIntExtended(prefix: seq<Byte>, suffix: seq<Byte>, p: int)
    requires Available(prefix, p, INT_SIZE_IN_BYTES)
    ensures ReadInt(prefix + suffix, p) == ReadInt(prefix, p)
  {
    assert (prefix + suffix)[p..p + INT_SIZE_IN_BYTES] == prefix[p..p + INT_SIZE_IN_BYTES];
  }

  /** A read inside `suffix` gives the same after bytes are put in front, at a position shifted by their number. */
  lemma ReadIntShifted(prefix: seq<Byte>, suffix: seq<Byte>, p: int)
    requires Available(suffix, p, INT_SIZE_IN_BYTES)
    ensures ReadInt(prefix + suffix, |prefix| + p) == ReadInt(suffix, p)
  {
    assert (prefix + suffix)[|prefix| + p..|prefix| + p + INT_SIZE_IN_BYTES] == suffix[p..p + INT_SIZE_IN_BYTES];
  }

  /** Reading back an encoded 16-bit integer yields it again. */
  lemma ReadEncodedShort(prefix: seq<Byte>, v: int, suffix: seq<Byte>)
    requires -0x8000 <= v < 0x8000
    ensures ReadShort(prefix + EncodeShort(v) + suffix, |prefix|) == Ok(v)
  {
    var bs := EncodeShort(v);
    var data := prefix + bs + suffix;
    assert data[|prefix|..|prefix| + SHORT_SIZE_IN_BYTES] == bs;
    var u := if v < 0 then v + 0x1_0000 else v;
    assert u == (u / 0x100) * 0x100 + u % 0x100;
    assert SignedBigEndian(bs[..1]) == u / 0x100 - (if v < 0 then 0x100 else 0) by { assert bs[..1] == [bs[0]]; }
    assert SignedBigEndian(bs) == v by { assert bs[..1] == bs[..|bs| - 1]; }
  }
}
