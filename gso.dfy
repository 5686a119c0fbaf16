/**
 * GSO.toBeBytes: a number as the eight big-endian bytes used as the
 * period_num seed of the GSO state address. The source computes it with
 * JavaScript's 32-bit shifts: `y << k` first wraps its operand to a
 * signed 32-bit integer and wraps the product again, `z >>> 24` wraps
 * to an unsigned 32-bit integer and keeps its top byte, and
 * Uint8Array.from keeps each value modulo 256.
 */
module Gso {
  import opened Bytes

  /** ECMAScript ToUint32 of an integer. */
  function ToUint32(v: int): (u: nat)
    ensures u < TWO_32
  {
    v % TWO_32
  }

  /** ECMAScript ToInt32 of an integer. */
  function ToInt32(v: int): (w: int)
    ensures -0x8000_0000 <= w < 0x8000_0000
  {
    var u := ToUint32(v);
    if u >= 0x8000_0000 then u - TWO_32 else u
  }

  /** v << k, for a shift count 0 <= k < 32. */
  function ShiftLeft(v: int, k: nat): int
    requires k < 32
  {
    ToInt32(ToInt32(v) * Pow2(k))
  }

  /** v >>> k, for a shift count 0 <= k < 32. */
  function UnsignedShiftRight(v: int, k: nat): int
    requires k < 32
  {
    ToUint32(v) / Pow2(k)
  }

  function Pow2(k: nat): (p: nat)
    ensures p > 0
  {
    if k == 0 then 1 else 2 * Pow2(k - 1)
  }

  /** The shift counts the source uses. */
  lemma Pow2OfShiftCounts()
    ensures Pow2(8) == 0x100 && Pow2(16) == 0x1_0000 && Pow2(24) == 0x100_0000
  {
    assert Pow2(4) == 16;
    assert Pow2(8) == 0x100;
    assert Pow2(12) == 0x1000;
    assert Pow2(16) == 0x1_0000;
    assert Pow2(20) == 0x10_0000;
  }

  /** The conversion Uint8Array.from applies to each element. */
  function ToUint8(v: int): Byte {
    v % 256
  }

  /** One element of the `.map`: `z >>> 24`, then the conversion Uint8Array.from applies. */
  function TopByte(z: int): Byte {
    ToUint8(UnsignedShiftRight(z, 24))
  }

  /** GSO.toBeBytes(x) for an integral x. */
  function ToBeBytes(x: int): (b: seq<Byte>)
    ensures |b| == 8
  {
    var y := x / TWO_32;  // Math.floor(x / 2 ** 32)
    [TopByte(y), TopByte(ShiftLeft(y, 8)), TopByte(ShiftLeft(y, 16)), TopByte(ShiftLeft(y, 24)),
     TopByte(x), TopByte(ShiftLeft(x, 8)), TopByte(ShiftLeft(x, 16)), TopByte(ShiftLeft(x, 24))]
  }

  /** Wrapping to 32 bits, signed or unsigned, agrees modulo 2^32. */
  lemma Uint32OfInt32(w: int)
    ensures ToUint32(ToInt32(w)) == ToUint32(w)
  {
  }

  /** Adding a multiple of 2^32 does not change a value modulo 2^32. */
  lemma ModTwo32AddMultiple(a: int, m: int)
    ensures (a + TWO_32 * m) % TWO_32 == a % TWO_32
  {
    var q, r := a / TWO_32, a % TWO_32;
    assert a + TWO_32 * m == TWO_32 * (q + m) + r;
  }

  /** Shifting a wrapped operand left by a constant agrees modulo 2^32 with shifting its unsigned form. */
  lemma Uint32OfShiftLeft(v: int, k: nat)
    requires k == 8 || k == 16 || k == 24
    ensures ToUint32(ShiftLeft(v, k)) == (ToUint32(v) * Pow2(k)) % TWO_32
  {
    var u := ToUint32(v);
    var w := ToInt32(v);
    var p := Pow2(k);
    Pow2OfShiftCounts();
    Uint32OfInt32(w * p);
    assert w == u || w == u - TWO_32;
    if w != u {
      assert w * p == u * p + TWO_32 * (-p);
      ModTwo32AddMultiple(u * p, -p);
    }
  }

  /** Shifting a 32-bit value left by 8, 16 or 24 bits keeps only its low 24, 16 or 8 bits. */
  lemma ShiftedLowBits(u: nat)
    requires u < TWO_32
    ensures (u * 0x100) % TWO_32 == (u % 0x100_0000) * 0x100
    ensures (u * 0x1_0000) % TWO_32 == (u % 0x1_0000) * 0x1_0000
    ensures (u * 0x100_0000) % TWO_32 == (u % 0x100) * 0x100_0000
  {
    ModTwo32AddMultiple((u % 0x100_0000) * 0x100, u / 0x100_0000);
    ModTwo32AddMultiple((u % 0x1_0000) * 0x1_0000, u / 0x1_0000);
    ModTwo32AddMultiple((u % 0x100) * 0x100_0000, u / 0x100);
  }

  /** Adding a multiple of 2^16 does not change a value modulo 2^16. */
  lemma ModTwo16AddMultiple(a: int, m: int)
    ensures (a + 0x1_0000 * m) % 0x1_0000 == a % 0x1_0000
  {
    var q, r := a / 0x1_0000, a % 0x1_0000;
    assert a + 0x1_0000 * m == 0x1_0000 * (q + m) + r;
  }

  /** Adding a multiple of 2^8 does not change a value modulo 2^8. */
  lemma ModTwo8AddMultiple(a: int, m: int)
    ensures (a + 0x100 * m) % 0x100 == a % 0x100
  {
    var q, r := a / 0x100, a % 0x100;
    assert a + 0x100 * m == 0x100 * (q + m) + r;
  }

  /** A 32-bit value is the sum of its four bytes at their places. */
  lemma WordByteSum(u: nat)
    requires u < TWO_32
    ensures u == (u / 0x100_0000) * 0x100_0000 + ((u % 0x100_0000) / 0x1_0000) * 0x1_0000
      + ((u % 0x1_0000) / 0x100) * 0x100 + u % 0x100
  {
    var q24, r24 := u / 0x100_0000, u % 0x100_0000;
    var q16, r16 := r24 / 0x1_0000, r24 % 0x1_0000;
    var q8, r8 := r16 / 0x100, r16 % 0x100;
    assert u == r16 + 0x1_0000 * (q24 * 0x100 + q16);
    ModTwo16AddMultiple(r16, q24 * 0x100 + q16);
    assert u == r8 + 0x100 * (q24 * 0x1_0000 + q16 * 0x100 + q8);
    ModTwo8AddMultiple(r8, q24 * 0x1_0000 + q16 * 0x100 + q8);
  }

  /** The four values `z >>> 24` of one 32-bit half are its big-endian bytes. */
  lemma WordBytes(v: int)
    ensures BeBytes(ToUint32(v), 4) == [
      UnsignedShiftRight(v, 24), UnsignedShiftRight(ShiftLeft(v, 8), 24),
      UnsignedShiftRight(ShiftLeft(v, 16), 24), UnsignedShiftRight(ShiftLeft(v, 24), 24)]
  {
    var u := ToUint32(v);
    Uint32OfShiftLeft(v, 8);
    Uint32OfShiftLeft(v, 16);
    Uint32OfShiftLeft(v, 24);
    ShiftedLowBits(u);
    Pow2OfShiftCounts();
    var b0 := u / 0x100_0000;
    var b1 := (u % 0x100_0000) / 0x1_0000;
    var b2 := (u % 0x1_0000) / 0x100;
    var b3 := u % 0x100;
    assert UnsignedShiftRight(v, 24) == b0;
    assert UnsignedShiftRight(ShiftLeft(v, 8), 24) == b1;
    assert UnsignedShiftRight(ShiftLeft(v, 16), 24) == b2;
    assert UnsignedShiftRight(ShiftLeft(v, 24), 24) == b3;
    var bs: seq<Byte> := [b0, b1, b2, b3];
    BeValueOfFour(bs);
    WordByteSum(u);
    BeBytesOfBeValue(bs);
  }

  /** Every `z >>> 24` is already a byte, so Uint8Array.from keeps it unchanged. */
  lemma TopByteFits(v: int)
    ensures 0 <= UnsignedShiftRight(v, 24) < 256
    ensures TopByte(v) == UnsignedShiftRight(v, 24)
  {
    Pow2OfShiftCounts();
  }

  /**
   * For every integer x, the first four bytes are the big-endian bytes of
   * floor(x / 2^32) wrapped to 32 bits, the last four those of x wrapped to 32 bits.
   */
  lemma ToBeBytesHalves(x: int)
    ensures ToBeBytes(x)[..4] == BeBytes(ToUint32(x / TWO_32), 4)
    ensures ToBeBytes(x)[4..] == BeBytes(ToUint32(x), 4)
  {
    var y := x / TWO_32;
    WordBytes(y);
    WordBytes(x);
    TopByteFits(y);
    TopByteFits(ShiftLeft(y, 8));
    TopByteFits(ShiftLeft(y, 16));
    TopByteFits(ShiftLeft(y, 24));
    TopByteFits(x);
    TopByteFits(ShiftLeft(x, 8));
    TopByteFits(ShiftLeft(x, 16));
    TopByteFits(ShiftLeft(x, 24));
  }

  /** For 0 <= x < 2^64: bytes 0..3 encode floor(x / 2^32), bytes 4..7 encode x mod 2^32. */
  lemma ToBeBytesOfU64(x: int)
    requires 0 <= x < TWO_64
    ensures ToBeBytes(x)[..4] == BeBytes(x / TWO_32, 4)
    ensures ToBeBytes(x)[4..] == BeBytes(x % TWO_32, 4)
  {
    assert ToUint32(x / TWO_32) == x / TWO_32;
    assert ToUint32(x) == x % TWO_32;
    ToBeBytesHalves(x);
  }

  /** Splitting an integer into two 32-bit halves keeps it modulo 2^64. */
  lemma HalvesModTwo64(x: int)
    ensures ToUint32(x / TWO_32) * TWO_32 + ToUint32(x) == x % TWO_64
  {
    var q := x / TWO_32;
    var hi, t := q % TWO_32, q / TWO_32;
    var lo := x % TWO_32;
    assert x == t * TWO_64 + (hi * TWO_32 + lo);
    assert 0 <= hi * TWO_32 + lo < TWO_64;
  }

  /** toBeBytes(x) is the eight-byte big-endian encoding of x modulo 2^64. */
  lemma ToBeBytesIsBeBytes(x: int)
    ensures ToBeBytes(x) == BeBytes(x % TWO_64, 8)
  {
    var b := ToBeBytes(x);
    var hi, lo := ToUint32(x / TWO_32), ToUint32(x);
    ToBeBytesHalves(x);
    Pow256Of4And8();
    BeValueOfBeBytes(hi, 4);
    BeValueOfBeBytes(lo, 4);
    assert b == b[..4] + b[4..];
    BeValueAppend(b[..4], b[4..]);
    HalvesModTwo64(x);
    BeBytesOfBeValue(b);
  }

  /** Round trip: for 0 <= x < 2^64, the sum of b[i] * 256^(7-i) is x. */
  lemma ToBeBytesRoundTrip(x: int)
    requires 0 <= x < TWO_64
    ensures BeValue(ToBeBytes(x)) == x
  {
    ToBeBytesIsBeBytes(x);
    BeValueOfEncoding(x, ToBeBytes(x));
  }

  lemma BeValueOfEncoding(x: int, b: seq<Byte>)
    requires 0 <= x < TWO_64 && b == BeBytes(x % TWO_64, 8)
    ensures BeValue(b) == x
  {
    assert x % TWO_64 == x;
    Pow256Of4And8();
    BeValueOfBeBytes(x, 8);
  }

  /** Round trip the other way: any eight bytes are the encoding of their own value. */
  lemma ToBeBytesOfBeValue(b: seq<Byte>)
    requires |b| == 8
    ensures ToBeBytes(BeValue(b)) == b
  {
    var v := BeValue(b);
    BeValueBound(b);
    Pow256Of4And8();
    assert v % TWO_64 == v;
    ToBeBytesIsBeBytes(v);
    BeBytesOfBeValue(b);
  }

  /** The period_num seed of the GSO state address: seven zero bytes, then 1. */
  lemma PeriodNumSeed()
    ensures ToBeBytes(1) == [0, 0, 0, 0, 0, 0, 0, 1]
  {
    ToBeBytesIsBeBytes(1);
    BeBytesOfOne();
  }

  lemma BeBytesOfOne()
    ensures BeBytes(1 % TWO_64, 8) == [0, 0, 0, 0, 0, 0, 0, 1]
  {
    assert BeBytes(0, 7) == [0, 0, 0, 0, 0, 0, 0];
  }
}
