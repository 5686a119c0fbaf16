/**
 * An encoder for the GSO state layout, the partner of the decoder: it lays
 * a record out in a layout the decoder accepts, with the bytes the decoder
 * never reads written as zeros, so that decode after encode can be stated
 * for every record.
 */
module UtilsEncode {
  import opened Bytes
  import opened Wrappers
  import opened Buffer
  import opened Utils

  function Zeros(n: nat): (z: seq<Byte>)
    ensures |z| == n && forall i :: 0 <= i < n ==> z[i] == 0
  {
    seq(n, _ => 0)
  }

  /** A record has a byte layout when its name fits its length byte and is one byte per character. */
  predicate WellFormed(s: GsoState) {
    && |s.projectName| == s.soNameLengthBytes
    && forall i :: 0 <= i < |s.projectName| ==> s.projectName[i] as int < 256
  }

  /** The 48-byte header: discriminator, three u64s, four bumps, strike, name length and padding. */
  function EncodeHeader(s: GsoState): (h: seq<Byte>)
    ensures |h| == SO_NAME_AT
  {
    Zeros(8)
      + LeBytes(s.periodNum, 8) + LeBytes(s.subscriptionPeriodEnd, 8)
      + LeBytes(s.lockupRatioTokensPerMillion, 8)
      + [s.gsoStateBump, s.soAuthorityBump, s.xBaseMintBump, s.baseVaultBump]
      + LeBytes(s.strike, 8)
      + [s.soNameLengthBytes, 0, 0, 0]
  }

  /** The 128-byte trailer: three keys, then the lockup end at the head of a 32-byte reserved region. */
  function EncodeTrailer(s: GsoState): (t: seq<Byte>)
    ensures |t| == LOCKUP_PERIOD_END_REL + LOCKUP_REGION_SIZE
  {
    s.stakingOptionsState + s.authority + s.baseMint + LeBytes(s.lockupPeriodEnd, 8) + Zeros(24)
  }

  function EncodeGsoState(s: GsoState): (buf: seq<Byte>)
    requires WellFormed(s)
    ensures |buf| == MinDecodableLength(s.soNameLengthBytes) + 24
  {
    EncodeHeader(s) + CharCodes(s.projectName) + EncodeTrailer(s)
  }

  /** An eight-byte little-endian field holding v reads back as v. */
  lemma LeField(buf: seq<Byte>, off: nat, v: U64)
    requires off + 8 <= |buf| && buf[off..off + 8] == LeBytes(v, 8)
    ensures ReadBigUInt64LE(buf, off) == Ok(v)
  {
    Pow256Of4And8();
    LeValueOfLeBytes(v, 8);
  }

  /** Where the header holds each of its fields. */
  lemma EncodeHeaderLayout(s: GsoState)
    ensures var h := EncodeHeader(s);
      && h[8..16] == LeBytes(s.periodNum, 8)
      && h[16..24] == LeBytes(s.subscriptionPeriodEnd, 8)
      && h[24..32] == LeBytes(s.lockupRatioTokensPerMillion, 8)
      && h[32] == s.gsoStateBump && h[33] == s.soAuthorityBump
      && h[34] == s.xBaseMintBump && h[35] == s.baseVaultBump
      && h[36..44] == LeBytes(s.strike, 8)
      && h[44] == s.soNameLengthBytes
  {
    var h := EncodeHeader(s);
    var bumps: seq<Byte> := [s.gsoStateBump, s.soAuthorityBump, s.xBaseMintBump, s.baseVaultBump];
    var p1 := Zeros(8) + LeBytes(s.periodNum, 8);
    var p2 := p1 + LeBytes(s.subscriptionPeriodEnd, 8);
    var p3 := p2 + LeBytes(s.lockupRatioTokensPerMillion, 8);
    var p4 := p3 + bumps;
    var p5 := p4 + LeBytes(s.strike, 8);
    var tail: seq<Byte> := [s.soNameLengthBytes, 0, 0, 0];
    assert h == p5 + tail;
    SliceOfAppendRight(Zeros(8), LeBytes(s.periodNum, 8));
    SliceOfAppendRight(p1, LeBytes(s.subscriptionPeriodEnd, 8));
    SliceOfAppendRight(p2, LeBytes(s.lockupRatioTokensPerMillion, 8));
    SliceOfAppendRight(p4, LeBytes(s.strike, 8));
    SliceOfAppendLeft(p2, LeBytes(s.lockupRatioTokensPerMillion, 8), 8, 16);
    SliceOfAppendLeft(p2, LeBytes(s.lockupRatioTokensPerMillion, 8), 16, 24);
    SliceOfAppendLeft(p3, bumps, 8, 16);
    SliceOfAppendLeft(p3, bumps, 16, 24);
    SliceOfAppendLeft(p3, bumps, 24, 32);
    SliceOfAppendLeft(p4, LeBytes(s.strike, 8), 8, 16);
    SliceOfAppendLeft(p4, LeBytes(s.strike, 8), 16, 24);
    SliceOfAppendLeft(p4, LeBytes(s.strike, 8), 24, 32);
    SliceOfAppendLeft(p5, tail, 8, 16);
    SliceOfAppendLeft(p5, tail, 16, 24);
    SliceOfAppendLeft(p5, tail, 24, 32);
    SliceOfAppendLeft(p5, tail, 36, 44);
    SliceOfAppendLeft(p1, LeBytes(s.subscriptionPeriodEnd, 8), 8, 16);
  }

  lemma SliceOfAppendLeft(x: seq<Byte>, y: seq<Byte>, lo: nat, hi: nat)
    requires lo <= hi <= |x|
    ensures (x + y)[lo..hi] == x[lo..hi]
  {
  }

  lemma SliceOfAppendRight(x: seq<Byte>, y: seq<Byte>)
    ensures (x + y)[|x|..|x| + |y|] == y
  {
  }

  /** Where the trailer holds each of its fields. */
  lemma EncodeTrailerLayout(s: GsoState)
    ensures var t := EncodeTrailer(s);
      && t[0..32] == s.stakingOptionsState
      && t[32..64] == s.authority
      && t[64..96] == s.baseMint
      && t[96..104] == LeBytes(s.lockupPeriodEnd, 8)
  {
  }

  /** The layout holds every field of a record where the decoder reads it. */
  lemma EncodeGsoStateLayout(s: GsoState)
    requires WellFormed(s)
    ensures var buf := EncodeGsoState(s);
      var off := SoStateOffset(s.soNameLengthBytes);
      && buf[8..16] == LeBytes(s.periodNum, 8)
      && buf[16..24] == LeBytes(s.subscriptionPeriodEnd, 8)
      && buf[24..32] == LeBytes(s.lockupRatioTokensPerMillion, 8)
      && buf[32] == s.gsoStateBump && buf[33] == s.soAuthorityBump
      && buf[34] == s.xBaseMintBump && buf[35] == s.baseVaultBump
      && buf[36..44] == LeBytes(s.strike, 8)
      && buf[44] == s.soNameLengthBytes
      && buf[SO_NAME_AT..off] == CharCodes(s.projectName)
      && buf[off..off + 32] == s.stakingOptionsState
      && buf[off + 32..off + 64] == s.authority
      && buf[off + 64..off + 96] == s.baseMint
      && buf[off + 96..off + 104] == LeBytes(s.lockupPeriodEnd, 8)
  {
    EncodeGsoStateHead(s);
    EncodeGsoStateTail(s);
  }

  /** Where the encoding holds the header fields and the name. */
  lemma EncodeGsoStateHead(s: GsoState)
    requires WellFormed(s)
    ensures var buf := EncodeGsoState(s);
      && buf[8..16] == LeBytes(s.periodNum, 8)
      && buf[16..24] == LeBytes(s.subscriptionPeriodEnd, 8)
      && buf[24..32] == LeBytes(s.lockupRatioTokensPerMillion, 8)
      && buf[32] == s.gsoStateBump && buf[33] == s.soAuthorityBump
      && buf[34] == s.xBaseMintBump && buf[35] == s.baseVaultBump
      && buf[36..44] == LeBytes(s.strike, 8)
      && buf[44] == s.soNameLengthBytes
      && buf[SO_NAME_AT..SoStateOffset(s.soNameLengthBytes)] == CharCodes(s.projectName)
  {
    var h := EncodeHeader(s);
    var name := CharCodes(s.projectName);
    var buf := EncodeGsoState(s);
    var off := SoStateOffset(s.soNameLengthBytes);
    SliceOfAppendLeft(h + name, EncodeTrailer(s), 0, off);
    SliceOfAppendLeft(h, name, 0, 48);
    SliceOfAppendRight(h, name);
    assert buf[..off] == h + name;
    SliceOfAppendLeft(buf[..off], buf[off..], 0, 48);
    assert buf == buf[..off] + buf[off..];
    assert buf[0..48] == h;
    SliceOfAppendLeft(buf[..off], buf[off..], 48, off);
    assert buf[48..off] == name;
    EncodeHeaderLayout(s);
    SliceWithin(buf, 0, h, 8, 16);
    SliceWithin(buf, 0, h, 16, 24);
    SliceWithin(buf, 0, h, 24, 32);
    SliceWithin(buf, 0, h, 36, 44);
    SliceWithin(buf, 0, h, 32, 36);
    assert buf[32..36][0] == buf[32] && buf[32..36][1] == buf[33];
    assert buf[32..36][2] == buf[34] && buf[32..36][3] == buf[35];
    SliceWithin(buf, 0, h, 44, 45);
    assert buf[44..45][0] == buf[44];
  }

  /** Where the encoding holds the trailer fields. */
  lemma EncodeGsoStateTail(s: GsoState)
    requires WellFormed(s)
    ensures var buf := EncodeGsoState(s);
      var off := SoStateOffset(s.soNameLengthBytes);
      && buf[off..off + 32] == s.stakingOptionsState
      && buf[off + 32..off + 64] == s.authority
      && buf[off + 64..off + 96] == s.baseMint
      && buf[off + 96..off + 104] == LeBytes(s.lockupPeriodEnd, 8)
  {
    var h := EncodeHeader(s);
    var name := CharCodes(s.projectName);
    var t := EncodeTrailer(s);
    var buf := EncodeGsoState(s);
    var off := SoStateOffset(s.soNameLengthBytes);
    SliceOfAppendRight(h + name, t);
    assert buf[off..off + |t|] == t;
    EncodeTrailerLayout(s);
    SliceWithin(buf, off, t, 0, 32);
    SliceWithin(buf, off, t, 32, 64);
    SliceWithin(buf, off, t, 64, 96);
    SliceWithin(buf, off, t, 96, 104);
  }

  /** A slice of a part placed at `at` is the same slice of the whole, shifted by `at`. */
  lemma SliceWithin(buf: seq<Byte>, at: nat, part: seq<Byte>, lo: nat, hi: nat)
    requires at + |part| <= |buf| && buf[at..at + |part|] == part && lo <= hi <= |part|
    ensures buf[at + lo..at + hi] == part[lo..hi]
  {
    forall i | 0 <= i < hi - lo
      ensures buf[at + lo..at + hi][i] == part[lo..hi][i]
    {
      assert buf[at + lo + i] == buf[at..at + |part|][lo + i];
    }
  }

  /** Two sequences with equal slices agree at every index of the slice. */
  lemma SliceAgrees(a: seq<Byte>, b: seq<Byte>, lo: nat, hi: nat)
    requires lo <= hi <= |a| && hi <= |b| && a[lo..hi] == b[lo..hi]
    ensures forall i :: lo <= i < hi ==> a[i] == b[i]
  {
    forall i | lo <= i < hi ensures a[i] == b[i] {
      assert a[i] == a[lo..hi][i - lo];
    }
  }

  /** Decoding the raw layout of a record gives the record back, field for field. */
  lemma ParseRawOfEncode(s: GsoState)
    requires WellFormed(s)
    ensures ParseRawGsoState(EncodeGsoState(s)) == Ok(s)
  {
    var buf := EncodeGsoState(s);
    var off := SoStateOffset(s.soNameLengthBytes);
    EncodeGsoStateLayout(s);
    LeField(buf, 8, s.periodNum);
    LeField(buf, 16, s.subscriptionPeriodEnd);
    LeField(buf, 24, s.lockupRatioTokensPerMillion);
    LeField(buf, 36, s.strike);
    LeField(buf, off + 96, s.lockupPeriodEnd);
    ReadThroughSubarray(buf, off + LOCKUP_PERIOD_END_REL, LOCKUP_REGION_SIZE);
    SubarrayInBounds(buf, SO_NAME_AT, off);
  }

  /** Decoding an encoded record returns that record with the compatibility rules applied. */
  lemma ParseOfEncode(s: GsoState)
    requires WellFormed(s)
    ensures ParseGsoState(EncodeGsoState(s)) == Ok(ApplyCompatibilityRules(s))
  {
    ParseRawOfEncode(s);
  }

  /** A record stored with the placeholder base mint decodes to the BONK mint, never to the placeholder. */
  lemma PlaceholderBaseMintDecodesToBonk(s: GsoState)
    requires WellFormed(s) && IsZeroKey(s.baseMint)
    ensures ParseGsoState(EncodeGsoState(s)).Ok?
    ensures ParseGsoState(EncodeGsoState(s)).value.baseMint == BONK_MINT_MAINNET
  {
    ParseOfEncode(s);
    BaseMintRuleCases(s.baseMint);
  }

  /** A record stored with lockup end 0 and subscription end T decodes with lockup end T. */
  lemma ZeroLockupDecodesToSubscriptionEnd(s: GsoState)
    requires WellFormed(s) && s.lockupPeriodEnd == 0
    ensures ParseGsoState(EncodeGsoState(s)).Ok?
    ensures ParseGsoState(EncodeGsoState(s)).value.lockupPeriodEnd == s.subscriptionPeriodEnd
  {
    ParseOfEncode(s);
  }

  /** An eight-byte field written from the value read at lo reproduces the bytes read. */
  lemma LeFieldAgrees(e: seq<Byte>, buf: seq<Byte>, lo: nat)
    requires lo + 8 <= |e| && lo + 8 <= |buf|
    requires e[lo..lo + 8] == LeBytes(LeValue(buf[lo..lo + 8]), 8)
    ensures forall i :: lo <= i < lo + 8 ==> e[i] == buf[i]
  {
    LeBytesOfLeValue(buf[lo..lo + 8]);
    SliceAgrees(e, buf, lo, lo + 8);
  }

  /** A record whose header fields hold the values read from a buffer encodes to its bytes 8 to 45. */
  lemma EncodeMatchesHeader(buf: seq<Byte>, s: GsoState)
    requires 45 <= |buf|
    requires && s.periodNum == LeValue(buf[8..16])
             && s.subscriptionPeriodEnd == LeValue(buf[16..24])
             && s.lockupRatioTokensPerMillion == LeValue(buf[24..32])
             && s.gsoStateBump == buf[32] && s.soAuthorityBump == buf[33]
             && s.xBaseMintBump == buf[34] && s.baseVaultBump == buf[35]
             && s.strike == LeValue(buf[36..44])
             && s.soNameLengthBytes == buf[44]
    ensures forall i :: 8 <= i < 45 ==> EncodeHeader(s)[i] == buf[i]
  {
    var e := EncodeHeader(s);
    EncodeHeaderLayout(s);
    LeFieldAgrees(e, buf, 8);
    LeFieldAgrees(e, buf, 16);
    LeFieldAgrees(e, buf, 24);
    LeFieldAgrees(e, buf, 36);
  }

  /** A record whose name holds the characters read from a buffer encodes to its bytes 48 to off. */
  lemma EncodeMatchesName(buf: seq<Byte>, s: GsoState)
    requires WellFormed(s)
    requires SoStateOffset(s.soNameLengthBytes) <= |buf|
    requires forall i :: 0 <= i < |s.projectName| ==> s.projectName[i] as int == buf[SO_NAME_AT + i]
    ensures forall i :: SO_NAME_AT <= i < SoStateOffset(s.soNameLengthBytes) ==> EncodeGsoState(s)[i] == buf[i]
  {
    var e := EncodeGsoState(s);
    var name := CharCodes(s.projectName);
    assert e == EncodeHeader(s) + name + EncodeTrailer(s);
    forall i | SO_NAME_AT <= i < SoStateOffset(s.soNameLengthBytes)
      ensures e[i] == buf[i]
    {
      assert e[i] == name[i - SO_NAME_AT];
    }
  }

  /** A record whose trailer holds the values read from a buffer encodes to its bytes off to off + 104. */
  lemma EncodeMatchesTrailer(buf: seq<Byte>, s: GsoState)
    requires WellFormed(s)
    requires SoStateOffset(s.soNameLengthBytes) + 104 <= |buf|
    requires var off := SoStateOffset(s.soNameLengthBytes);
             && s.stakingOptionsState == buf[off..off + 32]
             && s.authority == buf[off + 32..off + 64]
             && s.baseMint == buf[off + 64..off + 96]
             && s.lockupPeriodEnd == LeValue(buf[off + 96..off + 104])
    ensures var off := SoStateOffset(s.soNameLengthBytes);
      forall i :: off <= i < off + 104 ==> EncodeGsoState(s)[i] == buf[i]
  {
    var e := EncodeGsoState(s);
    var off := SoStateOffset(s.soNameLengthBytes);
    EncodeGsoStateLayout(s);
    LeFieldAgrees(e, buf, off + 96);
    SliceAgrees(e, buf, off, off + 32);
    SliceAgrees(e, buf, off + 32, off + 64);
    SliceAgrees(e, buf, off + 64, off + 96);
  }

  /** A buffer long enough for every read decodes. */
  lemma ParseRawGsoStateSucceeds(buf: seq<Byte>)
    requires SO_NAME_LENGTH_AT < |buf| && MinDecodableLength(buf[SO_NAME_LENGTH_AT]) <= |buf|
    ensures ParseRawGsoState(buf).Ok?
  {
    ParseGsoStateSucceedsIff(buf);
  }

  /**
   * Every byte the decoder reads is determined by the record it returns:
   * re-encoding the raw record reproduces the buffer at offsets 8..45 and
   * 48..48+n+104. The discriminator (0..8), the three bytes after the name
   * length (45..48) and everything after the lockup end are never read.
   */
  lemma EncodeOfParseRaw(buf: seq<Byte>)
    requires SO_NAME_LENGTH_AT < |buf| && MinDecodableLength(buf[SO_NAME_LENGTH_AT]) <= |buf|
    ensures ParseRawGsoState(buf).Ok?
    ensures WellFormed(ParseRawGsoState(buf).value)
    ensures var e := EncodeGsoState(ParseRawGsoState(buf).value);
      var off := SO_NAME_AT + buf[SO_NAME_LENGTH_AT];
      && off + 104 <= |buf| && |e| == off + 128
      && forall i :: 8 <= i < 45 || 48 <= i < off + 104 ==> e[i] == buf[i]
  {
    ParseRawGsoStateSucceeds(buf);
    var s := ParseRawGsoState(buf).value;
    ParseRawGsoStateHeader(buf);
    ParseRawGsoStateName(buf);
    ParseRawGsoStateTrailer(buf);
    EncodeMatchesHeader(buf, s);
    EncodeMatchesName(buf, s);
    EncodeMatchesTrailer(buf, s);
    var e := EncodeGsoState(s);
    var h := EncodeHeader(s);
    assert e[0..SO_NAME_AT] == h[0..SO_NAME_AT];
    SliceAgrees(e, h, 0, SO_NAME_AT);
  }
}
