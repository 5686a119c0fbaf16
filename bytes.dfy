/**
 * Bytes and the fixed-width unsigned integer codecs used by the record
 * decoder and by the address seeds: little-endian values (the layout of
 * the on-chain record) and big-endian values (the layout of the seeds).
 */
module Bytes {

  type Byte = b: int | 0 <= b < 256

  const TWO_32: int := 0x1_0000_0000
  const TWO_64: int := 0x1_0000_0000_0000_0000

  /** An unsigned 64-bit integer. */
  type U64 = x: int | 0 <= x < 0x1_0000_0000_0000_0000

  function Pow256(n: nat): (p: nat)
    ensures p > 0
  {
    if n == 0 then 1 else 256 * Pow256(n - 1)
  }

  lemma Pow256Of4And8()
    ensures Pow256(4) == TWO_32 && Pow256(8) == TWO_64
  {
    assert Pow256(4) == TWO_32;
  }

  /** The number a byte string denotes when its first byte is the least significant. */
  function LeValue(s: seq<Byte>): nat {
    if s == [] then 0 else s[0] + 256 * LeValue(s[1..])
  }

  /** The number a byte string denotes when its last byte is the least significant. */
  function BeValue(s: seq<Byte>): nat {
    if s == [] then 0 else 256 * BeValue(s[..|s| - 1]) + s[|s| - 1]
  }

  /** The n low-order bytes of v, least significant first. */
  function LeBytes(v: nat, n: nat): (s: seq<Byte>)
    ensures |s| == n
  {
    if n == 0 then [] else [v % 256] + LeBytes(v / 256, n - 1)
  }

  /** The n low-order bytes of v, most significant first. */
  function BeBytes(v: nat, n: nat): (s: seq<Byte>)
    ensures |s| == n
  {
    if n == 0 then [] else BeBytes(v / 256, n - 1) + [v % 256]
  }

  lemma {:induction false} LeValueBound(s: seq<Byte>)
    ensures LeValue(s) < Pow256(|s|)
  {
    if s != [] {
      LeValueBound(s[1..]);
    }
  }

  lemma {:induction false} BeValueBound(s: seq<Byte>)
    ensures BeValue(s) < Pow256(|s|)
  {
    if s != [] {
      BeValueBound(s[..|s| - 1]);
    }
  }

  /** Decoding the n-byte little-endian encoding of v gives v back. */
  lemma {:induction false} LeValueOfLeBytes(v: nat, n: nat)
    requires v < Pow256(n)
    ensures LeValue(LeBytes(v, n)) == v
  {
    if n > 0 {
      LeValueOfLeBytes(v / 256, n - 1);
      assert LeBytes(v, n)[1..] == LeBytes(v / 256, n - 1);
    }
  }

  /** Encoding the value of a byte string gives the byte string back. */
  lemma {:induction false} LeBytesOfLeValue(s: seq<Byte>)
    ensures LeBytes(LeValue(s), |s|) == s
  {
    if s != [] {
      LeBytesOfLeValue(s[1..]);
      assert LeValue(s) % 256 == s[0] && LeValue(s) / 256 == LeValue(s[1..]);
    }
  }

  /** Decoding the n-byte big-endian encoding of v gives v back. */
  lemma {:induction false} BeValueOfBeBytes(v: nat, n: nat)
    requires v < Pow256(n)
    ensures BeValue(BeBytes(v, n)) == v
  {
    if n > 0 {
      BeValueOfBeBytes(v / 256, n - 1);
      assert BeBytes(v, n)[..n - 1] == BeBytes(v / 256, n - 1);
    }
  }

  /** Big-endian encoding of the value of a byte string gives the byte string back. */
  lemma {:induction false} BeBytesOfBeValue(s: seq<Byte>)
    ensures BeBytes(BeValue(s), |s|) == s
  {
    if s != [] {
      var init := s[..|s| - 1];
      BeBytesOfBeValue(init);
      assert BeValue(s) % 256 == s[|s| - 1] && BeValue(s) / 256 == BeValue(init);
      assert s == init + [s[|s| - 1]];
    }
  }

  /** The value of eight little-endian bytes, written out byte by byte. */
  lemma LeValueOfEight(s: seq<Byte>)
    requires |s| == 8
    ensures LeValue(s) == s[0] as int + s[1] as int * 0x100 + s[2] as int * 0x1_0000
      + s[3] as int * 0x100_0000 + s[4] as int * 0x1_0000_0000 + s[5] as int * 0x100_0000_0000
      + s[6] as int * 0x1_0000_0000_0000 + s[7] as int * 0x100_0000_0000_0000
  {
    assert LeValue(s[7..]) == s[7] by { assert s[7..][1..] == []; }
    assert LeValue(s[6..]) == s[6] + 256 * LeValue(s[7..]) by { assert s[6..][1..] == s[7..]; }
    assert LeValue(s[5..]) == s[5] + 256 * LeValue(s[6..]) by { assert s[5..][1..] == s[6..]; }
    assert LeValue(s[4..]) == s[4] + 256 * LeValue(s[5..]) by { assert s[4..][1..] == s[5..]; }
    assert LeValue(s[3..]) == s[3] + 256 * LeValue(s[4..]) by { assert s[3..][1..] == s[4..]; }
    assert LeValue(s[2..]) == s[2] + 256 * LeValue(s[3..]) by { assert s[2..][1..] == s[3..]; }
    assert LeValue(s[1..]) == s[1] + 256 * LeValue(s[2..]) by { assert s[1..][1..] == s[2..]; }
  }

  /** The value of four big-endian bytes, written out byte by byte. */
  lemma BeValueOfFour(s: seq<Byte>)
    requires |s| == 4
    ensures BeValue(s) == s[0] as int * 0x100_0000 + s[1] as int * 0x1_0000 + s[2] as int * 0x100 + s[3]
  {
    assert BeValue(s[..1]) == s[0] by { assert s[..1][..0] == []; }
    assert BeValue(s[..2]) == 256 * BeValue(s[..1]) + s[1] by { assert s[..2][..1] == s[..1]; }
    assert BeValue(s[..3]) == 256 * BeValue(s[..2]) + s[2] by { assert s[..3][..2] == s[..2]; }
    assert s[..4] == s;
  }

  /** The big-endian value of a concatenation: the front part shifted past the back part. */
  lemma {:induction false} BeValueAppend(a: seq<Byte>, b: seq<Byte>)
    ensures BeValue(a + b) == BeValue(a) * Pow256(|b|) + BeValue(b)
  {
    if b == [] {
      assert a + b == a;
    } else {
      var b' := b[..|b| - 1];
      var x, p' := BeValue(a), Pow256(|b'|);
      BeValueAppend(a, b');
      assert (a + b)[..|a + b| - 1] == a + b';
      calc {
        BeValue(a + b);
        256 * BeValue(a + b') + b[|b| - 1];
        256 * (x * p' + BeValue(b')) + b[|b| - 1];
        { ShiftProduct(x, p'); }
        x * (256 * p') + (256 * BeValue(b') + b[|b| - 1]);
      }
    }
  }

  lemma ShiftProduct(x: int, p: int)
    ensures 256 * (x * p) == x * (256 * p)
  {
  }
}
