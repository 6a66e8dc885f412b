/** Fixed-width integers and big-endian reads at absolute positions of an
    immutable byte stream.

    The decoder always seeks to an absolute offset before it reads, so a read of
    `k` bytes at position `p` is modelled as a pure function of the stream and
    `p`: it succeeds exactly when `0 <= p` and `p + k <= |bytes|` (a negative
    seek fails, and a read past the end fails with an end-of-file error). */
module BigEndian {

  type byte = x: int | 0 <= x < 0x100
  type uint16 = x: int | 0 <= x < 0x1_0000
  type uint32 = x: int | 0 <= x < 0x1_0000_0000
  type int16 = x: int | -0x8000 <= x < 0x8000
  type int32 = x: int | -0x8000_0000 <= x < 0x8000_0000

  datatype Option<+T> = None | Some(value: T) {
    predicate IsFailure() { None? }
    function PropagateFailure<U>(): Option<U> requires None? { None }
    function Extract(): T requires Some? { value }
  }

  /** A read of `k` bytes at `p` stays inside the stream. */
  predicate InBounds(bytes: seq<byte>, p: int, k: nat) {
    0 <= p && p + k <= |bytes|
  }

  /** Go's `uint16` addition wraps around modulo 2^16. */
  function Wrap16(x: int): (r: uint16)
    ensures 0 <= x < 0x1_0000 ==> r == x
    ensures 0x1_0000 <= x < 0x2_0000 ==> r == x - 0x1_0000
  {
    x % 0x1_0000
  }

  /** Two's-complement reinterpretation of a 16-bit pattern (`int16`). */
  function Int16(u: uint16): (r: int16)
    ensures r % 0x1_0000 == u
    ensures r == -1 <==> u == 0xFFFF
  {
    if u < 0x8000 then u else u - 0x1_0000
  }

  /** Two's-complement reinterpretation of a 32-bit pattern (`int32`). */
  function Int32(u: uint32): (r: int32)
    ensures r % 0x1_0000_0000 == u
    ensures r < 0 <==> u >= 0x8000_0000
  {
    if u < 0x8000_0000 then u else u - 0x1_0000_0000
  }

  /** `binary.Read(r, binary.BigEndian, &v)` for a 16-bit `v`. */
  function ReadU16(bytes: seq<byte>, p: int): (r: Option<uint16>)
    ensures r.Some? <==> InBounds(bytes, p, 2)
  {
    if InBounds(bytes, p, 2) then Some(bytes[p] as int * 0x100 + bytes[p + 1])
    else None
  }

  /** `binary.Read(r, binary.BigEndian, &v)` for a 32-bit `v`. */
  function ReadU32(bytes: seq<byte>, p: int): (r: Option<uint32>)
    ensures r.Some? <==> InBounds(bytes, p, 4)
  {
    if InBounds(bytes, p, 4) then
      Some(bytes[p] as int * 0x100_0000 + bytes[p + 1] as int * 0x1_0000
           + bytes[p + 2] as int * 0x100 + bytes[p + 3])
    else None
  }

  /** The value read determines the two bytes it was read from, most
      significant first. */
  lemma ReadU16Digits(bytes: seq<byte>, p: int)
    requires InBounds(bytes, p, 2)
    ensures bytes[p] == ReadU16(bytes, p).value / 0x100
    ensures bytes[p + 1] == ReadU16(bytes, p).value % 0x100
  {
    DivBy8Bits(ReadU16(bytes, p).value, bytes[p], bytes[p + 1]);
  }

  /** The value read determines the four bytes it was read from, most
      significant first. */
  lemma ReadU32Digits(bytes: seq<byte>, p: int)
    requires InBounds(bytes, p, 4)
    ensures bytes[p] == ReadU32(bytes, p).value / 0x100_0000
    ensures bytes[p + 1] == ReadU32(bytes, p).value / 0x1_0000 % 0x100
    ensures bytes[p + 2] == ReadU32(bytes, p).value / 0x100 % 0x100
    ensures bytes[p + 3] == ReadU32(bytes, p).value % 0x100
  {
    Digits32(ReadU32(bytes, p).value, bytes[p], bytes[p + 1], bytes[p + 2], bytes[p + 3]);
  }

  lemma Digits32(v: int, b0: int, b1: int, b2: int, b3: int)
    requires 0 <= b0 < 0x100 && 0 <= b1 < 0x100 && 0 <= b2 < 0x100 && 0 <= b3 < 0x100
    requires v == b0 * 0x100_0000 + b1 * 0x1_0000 + b2 * 0x100 + b3
    ensures v / 0x100_0000 == b0
    ensures v / 0x1_0000 % 0x100 == b1
    ensures v / 0x100 % 0x100 == b2
    ensures v % 0x100 == b3
  {
    DivBy24Bits(v, b0, b1 * 0x1_0000 + b2 * 0x100 + b3);
    DivBy16Bits(v, b0 * 0x100 + b1, b2 * 0x100 + b3);
    DivBy8Bits(b0 * 0x100 + b1, b0, b1);
    DivBy8Bits(v, b0 * 0x1_0000 + b1 * 0x100 + b2, b3);
    DivBy8Bits(b0 * 0x1_0000 + b1 * 0x100 + b2, b0 * 0x100 + b1, b2);
  }

  lemma DivBy8Bits(a: int, q: int, r: int)
    requires 0 <= r < 0x100 && a == q * 0x100 + r
    ensures a / 0x100 == q && a % 0x100 == r
  {
  }

  lemma DivBy16Bits(a: int, q: int, r: int)
    requires 0 <= r < 0x1_0000 && a == q * 0x1_0000 + r
    ensures a / 0x1_0000 == q
  {
  }

  lemma DivBy24Bits(a: int, q: int, r: int)
    requires 0 <= r < 0x100_0000 && a == q * 0x100_0000 + r
    ensures a / 0x100_0000 == q
  {
  }

  /** A 32-bit value is the big-endian sum of its four bytes. */
  lemma Recompose(v: uint32)
    ensures v == v / 0x100_0000 * 0x100_0000 + v / 0x1_0000 % 0x100 * 0x1_0000
               + v / 0x100 % 0x100 * 0x100 + v % 0x100
  {
    assert v / 0x1_0000 == v / 0x100 / 0x100;
    assert v / 0x100_0000 == v / 0x1_0000 / 0x100;
  }
}
