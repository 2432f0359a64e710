/**
 * Bytes, and the big-endian encoding of the unsigned 32-bit integers that the
 * chunk layout uses for a chunk's length and its CRC (section 5.3 of the PNG
 * Specification, ISO/IEC 15948), and for the width and height of the IHDR
 * record.
 */
module ByteOrder {

  /** A byte (Go's byte), by its value. */
  type U8 = x: int | 0 <= x < 0x100

  /** An unsigned 32-bit integer (Go's uint32). */
  type U32 = x: int | 0 <= x < 0x1_0000_0000

  /** The four bytes of `x`, most significant first. */
  function Be32(x: U32): (r: seq<U8>)
    ensures |r| == 4
  {
    BeBytes(x, 4)
  }

  function BeBytes(x: nat, n: nat): (r: seq<U8>)
    ensures |r| == n
  {
    if n == 0 then [] else BeBytes(x / 0x100, n - 1) + [x % 0x100]
  }

  lemma Be32Parts(x: U32)
    ensures var y2 := x / 0x100; var y1 := y2 / 0x100; Be32(x) == [y1 / 0x100, y1 % 0x100, y2 % 0x100, x % 0x100]
  {
    var y2 := x / 0x100;
    var y1 := y2 / 0x100;
    assert BeBytes(y1 / 0x100, 1) == [] + [(y1 / 0x100) % 0x100];
    assert BeBytes(y1, 2) == BeBytes(y1 / 0x100, 1) + [y1 % 0x100];
    assert BeBytes(y2, 3) == BeBytes(y1, 2) + [y2 % 0x100];
  }

  /** The unsigned integer that the four bytes `a`, `b`, `c`, `d` encode, most significant first. */
  function ReadBe32(a: U8, b: U8, c: U8, d: U8): U32
  {
    ((a * 0x100 + b) * 0x100 + c) * 0x100 + d
  }

  /** Appending a byte below `hi` and taking it off again. */
  lemma Shift8(hi: nat, lo: U8)
    ensures (hi * 0x100 + lo) / 0x100 == hi && (hi * 0x100 + lo) % 0x100 == lo
  {
  }

  /** Reading back the encoding of any 32-bit value gives that value. */
  lemma ReadBe32OfBe32(x: U32)
    ensures var e := Be32(x); ReadBe32(e[0], e[1], e[2], e[3]) == x
  {
    Be32Parts(x);
    var y2 := x / 0x100;
    var y1 := y2 / 0x100;
    assert y1 / 0x100 * 0x100 + y1 % 0x100 == y1;
    assert y1 * 0x100 + y2 % 0x100 == y2;
    assert y2 * 0x100 + x % 0x100 == x;
  }

  /** Encoding the value read from any four bytes gives those bytes back. */
  lemma Be32OfReadBe32(a: U8, b: U8, c: U8, d: U8)
    ensures Be32(ReadBe32(a, b, c, d)) == [a, b, c, d]
  {
    Be32Parts(ReadBe32(a, b, c, d));
    Shift8(a, b);
    Shift8(a * 0x100 + b, c);
    Shift8((a * 0x100 + b) * 0x100 + c, d);
  }

  /** Distinct 32-bit values have distinct encodings. */
  lemma Be32Injective(x: U32, y: U32)
    requires Be32(x) == Be32(y)
    ensures x == y
  {
    ReadBe32OfBe32(x);
    ReadBe32OfBe32(y);
  }

  /** Concatenation is associative, so bytes written in pieces may be grouped either way. */
  lemma AppendAssoc(a: seq<U8>, b: seq<U8>, c: seq<U8>)
    ensures (a + b) + c == a + (b + c)
  {
  }
}
