/** The two stateless decoders of the resource-fork reader: the four-character
    type code of a 32-bit value, and the length-prefixed (Pascal) string.

    A character is the byte value taken as a code point: Go's `string(c)` on a
    byte `c` produces the rune with that value, which is what `ByteChar` gives. */
module Primitives {
  import opened BigEndian

  /** The character whose code is the byte value. */
  function ByteChar(b: byte): (c: char)
    ensures c as int == b
  {
    b as char
  }

  /** `x >> s & 0xff` taken as a character, for `x` the shifted value. */
  function CodeChar(x: nat): (c: char)
    ensures c as int == x % 0x100
  {
    (x % 0x100) as char
  }

  /** `fourCharacterCode`: the four bytes of `code`, most significant first,
      each shifted down and masked with 0xff. */
  function FourCharacterCode(code: uint32): (s: string)
    ensures |s| == 4
  {
    [CodeChar(code / 0x100_0000), CodeChar(code / 0x1_0000), CodeChar(code / 0x100), CodeChar(code)]
  }

  /** Reassembles four character codes big-endian into one integer. */
  function CodeOfChars(s: string): int
    requires |s| == 4
  {
    s[0] as int * 0x100_0000 + s[1] as int * 0x1_0000 + s[2] as int * 0x100 + s[3] as int
  }

  /** A string of byte-sized characters, such as every type code is. */
  predicate ByteSized(s: string) {
    forall k | 0 <= k < |s| :: s[k] as int < 0x100
  }

  /** Reassembling the four characters gives back the code. */
  lemma FourCharacterCodeRoundTrip(code: uint32)
    ensures ByteSized(FourCharacterCode(code))
    ensures CodeOfChars(FourCharacterCode(code)) == code
  {
    Recompose(code);
  }

  /** Every four-character string of byte-sized characters is the code of
      exactly the 32-bit value it reassembles to. */
  lemma FourCharacterCodeOfChars(s: string)
    requires |s| == 4 && ByteSized(s)
    ensures 0 <= CodeOfChars(s) < 0x1_0000_0000
    ensures FourCharacterCode(CodeOfChars(s)) == s
  {
    assert s[0] as int < 0x100 && s[1] as int < 0x100 && s[2] as int < 0x100 && s[3] as int < 0x100;
    Digits32(CodeOfChars(s), s[0] as int, s[1] as int, s[2] as int, s[3] as int);
    var t := FourCharacterCode(CodeOfChars(s));
    assert t[0] == s[0] && t[1] == s[1] && t[2] == s[2] && t[3] == s[3];
  }

  /** Distinct codes give distinct type strings. */
  lemma FourCharacterCodeInjective(a: uint32, b: uint32)
    ensures FourCharacterCode(a) == FourCharacterCode(b) <==> a == b
  {
    FourCharacterCodeRoundTrip(a);
    FourCharacterCodeRoundTrip(b);
  }

  /** A type code read from the stream is just the four bytes at that
      position, taken as characters. */
  lemma FourCharacterCodeOfRead(bytes: seq<byte>, p: int)
    requires InBounds(bytes, p, 4)
    ensures FourCharacterCode(ReadU32(bytes, p).value)
         == [ByteChar(bytes[p]), ByteChar(bytes[p + 1]), ByteChar(bytes[p + 2]), ByteChar(bytes[p + 3])]
  {
    ReadU32Digits(bytes, p);
  }

  /** The code of the application type: 0x4150504C is "APPL". */
  lemma ApplicationCode()
    ensures FourCharacterCode(1095782476) == "APPL"
  {
  }

  /** Each byte taken as a character. */
  function BytesToString(bs: seq<byte>): (s: string)
    ensures |s| == |bs|
    ensures forall k | 0 <= k < |bs| :: s[k] as int == bs[k]
  {
    seq(|bs|, k requires 0 <= k < |bs| => ByteChar(bs[k]))
  }

  /** The Pascal string stored at absolute position `p`: a length byte `n`
      followed by `n` bytes. `None` when the length byte or any of the `n`
      bytes lies outside the stream. */
  function PascalStringAt(bytes: seq<byte>, p: int): (r: Option<string>)
    ensures r.Some? <==> InBounds(bytes, p, 1) && InBounds(bytes, p + 1, bytes[p])
    ensures r.Some? ==> |r.value| == bytes[p]
    ensures r.Some? ==> forall k | 0 <= k < |r.value| :: r.value[k] as int == bytes[p + 1 + k]
  {
    if InBounds(bytes, p, 1) && InBounds(bytes, p + 1, bytes[p]) then
      Some(BytesToString(bytes[p + 1 .. p + 1 + bytes[p]]))
    else
      None
  }

  /** `readPascalString` after a seek to `p`: reads the length byte, then one
      byte per character, failing on the first byte that is not there. */
  method ReadPascalString(bytes: seq<byte>, p: int) returns (r: Option<string>)
    ensures r == PascalStringAt(bytes, p)
  {
    if !InBounds(bytes, p, 1) {
      return None;
    }
    var length := bytes[p];
    var name := "";
    var i := 0;
    while i < length
      invariant 0 <= i <= length
      invariant InBounds(bytes, p + 1, i)
      invariant name == BytesToString(bytes[p + 1 .. p + 1 + i])
    {
      if !InBounds(bytes, p + 1 + i, 1) {
        return None;
      }
      name := name + [ByteChar(bytes[p + 1 + i])];
      i := i + 1;
    }
    return Some(name);
  }

  /** Each byte-sized character taken as a byte. */
  function StringToBytes(s: string): (bs: seq<byte>)
    requires ByteSized(s)
    ensures |bs| == |s|
    ensures forall k | 0 <= k < |s| :: bs[k] == s[k] as int
  {
    seq(|s|, k requires 0 <= k < |s| => CharByte(s[k]))
  }

  /** A byte-sized character taken as a byte. */
  function CharByte(c: char): (b: byte)
    requires c as int < 0x100
    ensures b == c as int
  {
    c as int
  }

  /** The bytes of a Pascal string: its length, then its characters. */
  function EncodePascalString(s: string): (bs: seq<byte>)
    requires |s| < 0x100 && ByteSized(s)
  {
    [|s|] + StringToBytes(s)
  }

  /** Characters to bytes and back is the identity. */
  lemma BytesToStringOfStringToBytes(s: string)
    requires ByteSized(s)
    ensures BytesToString(StringToBytes(s)) == s
  {
    var r := BytesToString(StringToBytes(s));
    forall k | 0 <= k < |s| ensures r[k] == s[k] {
      assert r[k] as int == s[k] as int;
    }
  }

  /** Where an encoded string sits in a stream: its length byte, then its body. */
  lemma EncodedLayout(s: string, before: seq<byte>, after: seq<byte>)
    requires |s| < 0x100 && ByteSized(s)
    ensures var bytes := before + EncodePascalString(s) + after;
      && InBounds(bytes, |before|, 1 + |s|)
      && bytes[|before|] == |s|
      && bytes[|before| + 1 .. |before| + 1 + |s|] == StringToBytes(s)
  {
    var pre := before + [|s|];
    assert before + EncodePascalString(s) + after == pre + StringToBytes(s) + after;
    SliceOfConcat(pre, StringToBytes(s), after);
    assert (pre + StringToBytes(s) + after)[|before|] == |s|;
  }

  lemma SliceOfConcat<T>(a: seq<T>, b: seq<T>, c: seq<T>)
    ensures (a + b + c)[|a| .. |a| + |b|] == b
  {
    var x := a + b + c;
    forall k | 0 <= k < |b| ensures x[|a| .. |a| + |b|][k] == b[k] {
      assert x[|a| + k] == b[k];
    }
  }

  /** Decoding an encoded string, wherever it sits in the stream, gives it back. */
  lemma PascalStringRoundTrip(s: string, before: seq<byte>, after: seq<byte>)
    requires |s| < 0x100 && ByteSized(s)
    ensures PascalStringAt(before + EncodePascalString(s) + after, |before|) == Some(s)
  {
    EncodedLayout(s, before, after);
    BytesToStringOfStringToBytes(s);
  }

  /** A Pascal string of length `n` is decided by the `1 + n` bytes it
      occupies and by nothing after them. */
  lemma PascalStringLocal(bytes: seq<byte>, other: seq<byte>, p: int)
    requires PascalStringAt(bytes, p).Some?
    requires InBounds(other, p, 1 + bytes[p] as int)
    requires bytes[p .. p + 1 + bytes[p] as int] == other[p .. p + 1 + bytes[p] as int]
    ensures PascalStringAt(other, p) == PascalStringAt(bytes, p)
  {
    var n := bytes[p] as int;
    assert other[p] == other[p .. p + 1 + n][0];
    assert bytes[p] == bytes[p .. p + 1 + n][0];
    assert bytes[p + 1 .. p + 1 + n] == bytes[p .. p + 1 + n][1..];
    assert other[p + 1 .. p + 1 + n] == other[p .. p + 1 + n][1..];
  }

  /** The examples `[0]`, `[3,'H','i','!']`, `[3,'H','i']` and the empty stream. */
  lemma PascalStringExamples()
    ensures PascalStringAt([0], 0) == Some("")
    ensures PascalStringAt([3, 72, 105, 33], 0) == Some("Hi!")
    ensures PascalStringAt([3, 72, 105], 0) == None
    ensures PascalStringAt([], 0) == None
  {
    var bs: seq<byte> := [3, 72, 105, 33];
    assert bs[1..4] == [72, 105, 33];
    var hi := BytesToString([72, 105, 33]);
    assert hi[0] == 'H' && hi[1] == 'i' && hi[2] == '!';
    assert hi == "Hi!";
  }
}
