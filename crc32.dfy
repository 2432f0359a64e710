/**
 * The CRC-32 of section 5.5 of the PNG Specification (ISO/IEC 15948): the
 * reflected CRC with generator polynomial 0x04C11DB7, register preset to all
 * ones and complemented at the end, processed one bit at a time, least
 * significant bit first.
 */
module Crc32 {
  import opened ByteOrder

  /** The generator polynomial with its bits reversed, as the reflected algorithm uses it. */
  const Polynomial: bv32 := 0xEDB8_8320

  /** The register value before the first byte. */
  const Initial: bv32 := 0xFFFF_FFFF

  /** One bit of polynomial division: shift right, and subtract the polynomial when a one falls out. */
  function Shift(c: bv32): bv32
  {
    if c & 1 == 1 then (c >> 1) ^ Polynomial else c >> 1
  }

  /** The register after `n` division steps. */
  function ShiftN(c: bv32, n: nat): bv32
    decreases n
  {
    if n == 0 then c else ShiftN(Shift(c), n - 1)
  }

  /** The 4-bit value `n` as a bit-vector byte. */
  function Nibble(n: nat): bv8
    requires n < 0x10
  {
    match n
    case 0 => 0x0 case 1 => 0x1 case 2 => 0x2 case 3 => 0x3
    case 4 => 0x4 case 5 => 0x5 case 6 => 0x6 case 7 => 0x7
    case 8 => 0x8 case 9 => 0x9 case 10 => 0xA case 11 => 0xB
    case 12 => 0xC case 13 => 0xD case 14 => 0xE case _ => 0xF
  }

  lemma NibbleValue(n: nat)
    requires n < 0x10
    ensures Nibble(n) as int == n && Nibble(n) < 0x10
  {
  }

  /**
   * The byte `b` as a bit vector, assembled from its two halves. It equals
   * `b as bv8`; the conversion is spelled out through the `Nibble` table
   * because the solver handles an integer-to-bit-vector conversion poorly,
   * and proofs about CRC values over literal bytes become far slower with it.
   */
  function Octet(b: U8): bv8
  {
    (Nibble(b / 0x10) << 4) | Nibble(b % 0x10)
  }

  /** Two halves below 0x10 are recovered from the byte they make up. */
  lemma JoinNibblesInjective(a: bv8, b: bv8, c: bv8, d: bv8)
    requires a < 0x10 && b < 0x10 && c < 0x10 && d < 0x10
    requires (a << 4) | b == (c << 4) | d
    ensures a == c && b == d
  {
  }

  /** Distinct bytes have distinct bit vectors. */
  lemma OctetInjective(x: U8, y: U8)
    requires Octet(x) == Octet(y)
    ensures x == y
  {
    NibbleValue(x / 0x10);
    NibbleValue(x % 0x10);
    NibbleValue(y / 0x10);
    NibbleValue(y % 0x10);
    JoinNibblesInjective(Nibble(x / 0x10), Nibble(x % 0x10), Nibble(y / 0x10), Nibble(y % 0x10));
  }

  /** Eight division steps: the work done per input byte. */
  function Step8(x: bv32): bv32
  {
    Shift(Shift(Shift(Shift(Shift(Shift(Shift(Shift(x))))))))
  }

  /** The register after feeding it one byte: combine the byte in, then eight division steps. */
  function UpdateByte(c: bv32, b: U8): bv32
  {
    ShiftN(c ^ Octet(b) as bv32, 8)
  }

  lemma Step8IsShiftN(x: bv32)
    ensures Step8(x) == ShiftN(x, 8)
  {
    assert ShiftN(x, 8) == ShiftN(Shift(x), 7);
    assert ShiftN(Shift(x), 7) == ShiftN(Shift(Shift(x)), 6);
    assert ShiftN(Shift(Shift(x)), 6) == ShiftN(Shift(Shift(Shift(x))), 5);
    assert ShiftN(Shift(Shift(Shift(x))), 5) == ShiftN(Shift(Shift(Shift(Shift(x)))), 4);
    assert ShiftN(Shift(Shift(Shift(Shift(x)))), 4) == ShiftN(Shift(Shift(Shift(Shift(Shift(x))))), 3);
    assert ShiftN(Shift(Shift(Shift(Shift(Shift(x))))), 3) == ShiftN(Shift(Shift(Shift(Shift(Shift(Shift(x)))))), 2);
    assert ShiftN(Shift(Shift(Shift(Shift(Shift(Shift(x)))))), 2) == ShiftN(Shift(Shift(Shift(Shift(Shift(Shift(Shift(x))))))), 1);
    assert ShiftN(Shift(Shift(Shift(Shift(Shift(Shift(Shift(x))))))), 1) == Step8(x);
  }

  /** The register after feeding it the bytes of `s` in order. */
  function Update(c: bv32, s: seq<U8>): bv32
    decreases |s|
  {
    if s == [] then c else Update(UpdateByte(c, s[0]), s[1..])
  }

  /** The checksum a register holds: its complement. */
  function Finish(c: bv32): bv32
  {
    c ^ 0xFFFF_FFFF
  }

  /** The CRC-32 of a whole byte sequence. */
  function Checksum(s: seq<U8>): bv32
  {
    Finish(Update(Initial, s))
  }

  /**
   * Feeding two pieces one after the other leaves the register as feeding their
   * concatenation does, so a writer may hand the checksum its input in parts.
   */
  lemma {:induction false} UpdateAppend(c: bv32, a: seq<U8>, b: seq<U8>)
    ensures Update(c, a + b) == Update(Update(c, a), b)
    decreases |a|
  {
    if a == [] {
      assert a + b == b;
    } else {
      assert (a + b)[0] == a[0];
      assert (a + b)[1..] == a[1..] + b;
      UpdateAppend(UpdateByte(c, a[0]), a[1..], b);
    }
  }

  /** Feeding a sequence that starts with the byte `a`, which takes the register from `c` to `v`. */
  lemma UpdateOne(c: bv32, a: U8, v: bv32, rest: seq<U8>)
    requires Step8(c ^ Octet(a) as bv32) == v
    ensures Update(c, [a] + rest) == Update(v, rest)
  {
    assert ([a] + rest)[0] == a && ([a] + rest)[1..] == rest;
    Step8IsShiftN(c ^ Octet(a) as bv32);
  }

  /** Feeding the single byte `s[0]`, which takes the register from `c` to `v`. */
  lemma UpdateSingle(c: bv32, s: seq<U8>, a: U8, v: bv32)
    requires s == [a] && Step8(c ^ Octet(a) as bv32) == v
    ensures Update(c, s) == v
  {
    assert s == [a] + [];
    UpdateOne(c, a, v, []);
  }

  /**
   * Feeding the four bytes `s` = `a`, `b`, `d`, `e`, which take the register
   * from `c` through `v1`, `v2`, `v3` to `v4`.
   */
  lemma UpdateFour(c: bv32, s: seq<U8>, a: U8, b: U8, d: U8, e: U8, v1: bv32, v2: bv32, v3: bv32, v4: bv32)
    requires s == [a, b, d, e]
    requires Step8(c ^ Octet(a) as bv32) == v1 && Step8(v1 ^ Octet(b) as bv32) == v2
    requires Step8(v2 ^ Octet(d) as bv32) == v3 && Step8(v3 ^ Octet(e) as bv32) == v4
    ensures Update(c, s) == v4
  {
    assert s == [a] + ([b] + ([d] + ([e] + [])));
    UpdateOne(c, a, v1, [b] + ([d] + ([e] + [])));
    UpdateOne(v1, b, v2, [d] + ([e] + []));
    UpdateOne(v2, d, v3, [e] + []);
    UpdateOne(v3, e, v4, []);
  }

  /** One division step loses no information: the polynomial's top bit records whether it was subtracted. */
  lemma ShiftInjective(c1: bv32, c2: bv32)
    requires Shift(c1) == Shift(c2)
    ensures c1 == c2
  {
  }

  /** Any number of division steps loses no information. */
  lemma {:induction false} ShiftNInjective(c1: bv32, c2: bv32, n: nat)
    requires ShiftN(c1, n) == ShiftN(c2, n)
    ensures c1 == c2
    decreases n
  {
    if n > 0 {
      ShiftNInjective(Shift(c1), Shift(c2), n - 1);
      ShiftInjective(c1, c2);
    }
  }

  /** Two register/byte pairs that lead to the same register agree in their exclusive or. */
  lemma UpdateByteInjective(c1: bv32, b1: U8, c2: bv32, b2: U8)
    requires UpdateByte(c1, b1) == UpdateByte(c2, b2)
    ensures c1 ^ Octet(b1) as bv32 == c2 ^ Octet(b2) as bv32
  {
    var x1, x2 := c1 ^ Octet(b1) as bv32, c2 ^ Octet(b2) as bv32;
    ShiftNInjective(x1, x2, 8);
  }

  /** Feeding the same bytes to two different registers never makes them equal. */
  lemma {:induction false} UpdateInjective(c1: bv32, c2: bv32, s: seq<U8>)
    requires Update(c1, s) == Update(c2, s)
    ensures c1 == c2
    decreases |s|
  {
    if s != [] {
      UpdateInjective(UpdateByte(c1, s[0]), UpdateByte(c2, s[0]), s[1..]);
      UpdateByteInjective(c1, s[0], c2, s[0]);
    }
  }

  /** Complementing loses no information. */
  lemma FinishInjective(a: bv32, b: bv32)
    requires Finish(a) == Finish(b)
    ensures a == b
  {
  }

  /** Combining the same register with two different bytes gives two different values. */
  lemma XorInjective(c: bv32, x: U8, y: U8)
    requires x != y
    ensures c ^ Octet(x) as bv32 != c ^ Octet(y) as bv32
  {
    if Octet(x) == Octet(y) {
      OctetInjective(x, y);
    }
    XorCancel(c, Octet(x), Octet(y));
  }

  lemma XorCancel(c: bv32, a: bv8, b: bv8)
    requires a != b
    ensures c ^ a as bv32 != c ^ b as bv32
  {
  }

  /** The register after `p`, then the byte `x`, then `q`. */
  lemma UpdateAround(p: seq<U8>, x: U8, q: seq<U8>)
    ensures Update(Initial, p + [x] + q) == Update(UpdateByte(Update(Initial, p), x), q)
  {
    UpdateAppend(Initial, p + [x], q);
    UpdateAppend(Initial, p, [x]);
    assert Update(Update(Initial, p), [x]) == UpdateByte(Update(Initial, p), x);
  }

  /**
   * Replacing any one byte of the input by a different byte changes the
   * checksum, wherever the byte stands.
   */
  lemma DetectsSingleByteChange(p: seq<U8>, x: U8, y: U8, q: seq<U8>)
    requires x != y
    ensures Checksum(p + [x] + q) != Checksum(p + [y] + q)
  {
    var c := Update(Initial, p);
    UpdateAround(p, x, q);
    UpdateAround(p, y, q);
    if Checksum(p + [x] + q) == Checksum(p + [y] + q) {
      FinishInjective(Update(UpdateByte(c, x), q), Update(UpdateByte(c, y), q));
      UpdateInjective(UpdateByte(c, x), UpdateByte(c, y), q);
      UpdateByteInjective(c, x, c, y);
      XorInjective(c, x, y);
      assert false;
    }
  }
}
