/**
 * The decoder of the on-chain GSO state record (parseGsoState). Fields sit
 * at fixed offsets as little-endian u64s and u8s, followed by a name whose
 * length is the byte at offset 44; the three 32-byte keys and the lockup
 * end then sit at offsets that depend on that length. Two backwards
 * compatibility rules are applied to what the bytes say: an all-zero base
 * mint becomes the BONK mint, and a zero lockup end becomes the
 * subscription end.
 */
module Utils {
  import opened Bytes
  import opened Wrappers
  import opened Buffer

  /** A public key, as its 32 raw bytes. */
  type Key = k: seq<Byte> | |k| == KEY_SIZE witness ZERO_KEY

  const KEY_SIZE: nat := 32

  /** The system program's key, whose base58 form is thirty-two '1's. */
  const ZERO_KEY: seq<Byte> := [
    0, 0, 0, 0, 0, 0, 0, 0, 0, 0, 0, 0, 0, 0, 0, 0,
    0, 0, 0, 0, 0, 0, 0, 0, 0, 0, 0, 0, 0, 0, 0, 0]

  /** The raw bytes of the key DezXAZ8z7PnrnRJjz3wXBoRgixCa6xjnB7YaB1pPB263. */
  const BONK_MINT_MAINNET: Key := [
    188, 7, 197, 110, 96, 173, 61, 63,
    23, 115, 130, 234, 198, 84, 143, 186,
    31, 211, 44, 253, 144, 202, 2, 179,
    231, 207, 161, 133, 253, 206, 115, 152
  ]

  // Offsets of the fixed header, from the start of the buffer.
  const PERIOD_NUM_AT: nat := 8
  const SUBSCRIPTION_PERIOD_END_AT: nat := 16
  const LOCKUP_RATIO_AT: nat := 24
  const GSO_STATE_BUMP_AT: nat := 32
  const SO_AUTHORITY_BUMP_AT: nat := 33
  const X_BASE_MINT_BUMP_AT: nat := 34
  const BASE_VAULT_BUMP_AT: nat := 35
  const STRIKE_AT: nat := 36
  const SO_NAME_LENGTH_AT: nat := 44
  const SO_NAME_AT: nat := 48

  // Offsets of the trailer, from the end of the name.
  const AUTHORITY_REL: nat := 32
  const BASE_MINT_REL: nat := 64
  const LOCKUP_PERIOD_END_REL: nat := 96
  /** The lockup end is the first eight bytes of a 32-byte reserved region. */
  const LOCKUP_REGION_SIZE: nat := 32

  /** Where the staking-options state key starts, for a name of n bytes. */
  function SoStateOffset(n: Byte): nat {
    SO_NAME_AT + n
  }

  /** The length a buffer needs for its last read, the lockup end, to fit. */
  function MinDecodableLength(n: Byte): nat {
    SoStateOffset(n) + LOCKUP_PERIOD_END_REL + 8
  }

  /** The decoded record. */
  datatype GsoState = GsoState(
    periodNum: U64,
    subscriptionPeriodEnd: U64,
    lockupRatioTokensPerMillion: U64,
    gsoStateBump: Byte,
    soAuthorityBump: Byte,
    xBaseMintBump: Byte,
    baseVaultBump: Byte,
    strike: U64,
    soNameLengthBytes: Byte,
    projectName: string,
    stakingOptionsState: Key,
    authority: Key,
    baseMint: Key,
    lockupPeriodEnd: U64)

  /** String.fromCharCode over a byte view: one character per byte, no re-encoding. */
  function FromCharCodes(codes: seq<Byte>): (s: string)
    ensures |s| == |codes|
    ensures forall i :: 0 <= i < |s| ==> s[i] as int == codes[i]
  {
    seq(|codes|, i requires 0 <= i < |codes| => codes[i] as char)
  }

  /** The character codes of a string of one-byte characters: the inverse of FromCharCodes. */
  function CharCodes(name: string): (codes: seq<Byte>)
    requires forall i :: 0 <= i < |name| ==> name[i] as int < 256
    ensures |codes| == |name|
    ensures FromCharCodes(codes) == name
  {
    seq(|name|, i requires 0 <= i < |name| => name[i] as int)
  }

  /** Every byte string is the code sequence of the string it decodes to. */
  lemma CharCodesOfFromCharCodes(codes: seq<Byte>)
    ensures CharCodes(FromCharCodes(codes)) == codes
  {
    var name := FromCharCodes(codes);
    assert forall i :: 0 <= i < |codes| ==> CharCodes(name)[i] == codes[i];
  }

  /** The record exactly as its bytes say, before the compatibility rules. */
  function ParseRawGsoState(buf: seq<Byte>): Result<GsoState, ReadError> {
    var periodNum :- ReadBigUInt64LE(buf, PERIOD_NUM_AT);
    var subscriptionPeriodEnd :- ReadBigUInt64LE(buf, SUBSCRIPTION_PERIOD_END_AT);
    var lockupRatioTokensPerMillion :- ReadBigUInt64LE(buf, LOCKUP_RATIO_AT);
    var gsoStateBump :- ReadUInt8(buf, GSO_STATE_BUMP_AT);
    var soAuthorityBump :- ReadUInt8(buf, SO_AUTHORITY_BUMP_AT);
    var xBaseMintBump :- ReadUInt8(buf, X_BASE_MINT_BUMP_AT);
    var baseVaultBump :- ReadUInt8(buf, BASE_VAULT_BUMP_AT);
    var strike :- ReadBigUInt64LE(buf, STRIKE_AT);
    var soNameLengthBytes :- ReadUInt8(buf, SO_NAME_LENGTH_AT);
    var projectName := FromCharCodes(Subarray(buf, SO_NAME_AT, SO_NAME_AT + soNameLengthBytes));
    var off := SoStateOffset(soNameLengthBytes);
    // Building a key from a view cannot fail, so reading the lockup end
    // before the keys are built changes nothing observable.
    var lockupPeriodEnd :- ReadBigUInt64LE(
      Subarray(buf, off + LOCKUP_PERIOD_END_REL, off + LOCKUP_PERIOD_END_REL + LOCKUP_REGION_SIZE), 0);
    var stakingOptionsState := Subarray(buf, off, off + KEY_SIZE);
    var authority := Subarray(buf, off + AUTHORITY_REL, off + AUTHORITY_REL + KEY_SIZE);
    var baseMint := Subarray(buf, off + BASE_MINT_REL, off + BASE_MINT_REL + KEY_SIZE);
    Ok(GsoState(
      periodNum, subscriptionPeriodEnd, lockupRatioTokensPerMillion,
      gsoStateBump, soAuthorityBump, xBaseMintBump, baseVaultBump,
      strike, soNameLengthBytes, projectName,
      stakingOptionsState, authority, baseMint, lockupPeriodEnd))
  }

  /** Rule A: the placeholder all-zero base mint stands for the BONK mint. */
  function BaseMintRule(raw: Key): Key {
    if raw == ZERO_KEY then BONK_MINT_MAINNET else raw
  }

  /** Rule B: records without a lockup end use their subscription end. */
  function LockupPeriodEndRule(raw: U64, subscriptionPeriodEnd: U64): U64 {
    if raw == 0 then subscriptionPeriodEnd else raw
  }

  /** Both compatibility rules, applied after the raw fields are extracted. */
  function ApplyCompatibilityRules(s: GsoState): GsoState {
    s.(baseMint := BaseMintRule(s.baseMint),
       lockupPeriodEnd := LockupPeriodEndRule(s.lockupPeriodEnd, s.subscriptionPeriodEnd))
  }

  /** parseGsoState: decode a GSO state account buffer. */
  function ParseGsoState(buf: seq<Byte>): Result<GsoState, ReadError> {
    var raw :- ParseRawGsoState(buf);
    Ok(ApplyCompatibilityRules(raw))
  }

  /** True when every byte of the key is zero, i.e. its base58 form is all '1's. */
  predicate IsZeroKey(k: Key) {
    forall i :: 0 <= i < KEY_SIZE ==> k[i] == 0
  }

  lemma ZeroKeyIsOnlyZeroKey(k: Key)
    ensures IsZeroKey(k) <==> k == ZERO_KEY
  {
    if IsZeroKey(k) {
      assert forall i :: 0 <= i < KEY_SIZE ==> k[i] == ZERO_KEY[i];
    }
  }

  /** Rule A: the placeholder becomes the BONK mint, any other key is kept. */
  lemma BaseMintRuleCases(raw: Key)
    ensures IsZeroKey(raw) ==> BaseMintRule(raw) == BONK_MINT_MAINNET
    ensures !IsZeroKey(raw) ==> BaseMintRule(raw) == raw
    ensures !IsZeroKey(BaseMintRule(raw))
  {
    ZeroKeyIsOnlyZeroKey(raw);
    assert BONK_MINT_MAINNET[0] != 0;
  }

  /** Rule B: a zero lockup end becomes the subscription end, any other value is kept. */
  lemma LockupPeriodEndRuleCases(raw: U64, subscriptionPeriodEnd: U64)
    ensures raw == 0 ==> LockupPeriodEndRule(raw, subscriptionPeriodEnd) == subscriptionPeriodEnd
    ensures raw != 0 ==> LockupPeriodEndRule(raw, subscriptionPeriodEnd) == raw
    ensures LockupPeriodEndRule(raw, subscriptionPeriodEnd) == 0 ==> subscriptionPeriodEnd == 0
  {
  }

  /** Applying the compatibility rules to a record they already produced changes nothing. */
  lemma CompatibilityRulesIdempotent(s: GsoState)
    ensures ApplyCompatibilityRules(ApplyCompatibilityRules(s)) == ApplyCompatibilityRules(s)
  {
    BaseMintRuleCases(s.baseMint);
    ZeroKeyIsOnlyZeroKey(BaseMintRule(s.baseMint));
  }

  /** The rules touch nothing but the base mint and the lockup end. */
  lemma CompatibilityRulesFrame(s: GsoState)
    ensures ApplyCompatibilityRules(s).(baseMint := s.baseMint, lockupPeriodEnd := s.lockupPeriodEnd) == s
  {
  }

  /**
   * Decoding succeeds exactly when every read fits: the header up to the
   * name length byte, and then the name, the three keys and the eight
   * bytes of the lockup end.
   */
  lemma ParseGsoStateSucceedsIff(buf: seq<Byte>)
    ensures ParseGsoState(buf).Ok?
        <==> SO_NAME_LENGTH_AT < |buf| && MinDecodableLength(buf[SO_NAME_LENGTH_AT]) <= |buf|
  {
    if SO_NAME_LENGTH_AT < |buf| {
      var off := SoStateOffset(buf[SO_NAME_LENGTH_AT]);
      ReadThroughSubarray(buf, off + LOCKUP_PERIOD_END_REL, LOCKUP_REGION_SIZE);
    }
  }

  /** A short buffer fails at the first read that does not fit, and no record is returned. */
  lemma ParseGsoStateFailsAtFirstShortRead(buf: seq<Byte>)
    ensures |buf| < 16 ==> ParseGsoState(buf) == Err(OutOfRange(PERIOD_NUM_AT))
    ensures 16 <= |buf| < 24 ==> ParseGsoState(buf) == Err(OutOfRange(SUBSCRIPTION_PERIOD_END_AT))
    ensures 24 <= |buf| < 32 ==> ParseGsoState(buf) == Err(OutOfRange(LOCKUP_RATIO_AT))
    ensures |buf| == 32 ==> ParseGsoState(buf) == Err(OutOfRange(GSO_STATE_BUMP_AT))
    ensures |buf| == 33 ==> ParseGsoState(buf) == Err(OutOfRange(SO_AUTHORITY_BUMP_AT))
    ensures |buf| == 34 ==> ParseGsoState(buf) == Err(OutOfRange(X_BASE_MINT_BUMP_AT))
    ensures |buf| == 35 ==> ParseGsoState(buf) == Err(OutOfRange(BASE_VAULT_BUMP_AT))
    ensures 36 <= |buf| < 44 ==> ParseGsoState(buf) == Err(OutOfRange(STRIKE_AT))
    ensures |buf| == 44 ==> ParseGsoState(buf) == Err(OutOfRange(SO_NAME_LENGTH_AT))
    // The last read is at the start of the 32-byte view of the lockup region.
    ensures SO_NAME_LENGTH_AT < |buf| < MinDecodableLength(buf[SO_NAME_LENGTH_AT]) ==>
      ParseGsoState(buf) == Err(OutOfRange(0))
  {
    if SO_NAME_LENGTH_AT < |buf| {
      var off := SoStateOffset(buf[SO_NAME_LENGTH_AT]);
      ReadThroughSubarray(buf, off + LOCKUP_PERIOD_END_REL, LOCKUP_REGION_SIZE);
    }
  }

  /** The raw fixed header: three u64s, four bump bytes, the strike and the name length. */
  lemma ParseRawGsoStateHeader(buf: seq<Byte>)
    requires ParseRawGsoState(buf).Ok?
    ensures var s := ParseRawGsoState(buf).value;
      && s.periodNum == LeValue(buf[8..16])
      && s.subscriptionPeriodEnd == LeValue(buf[16..24])
      && s.lockupRatioTokensPerMillion == LeValue(buf[24..32])
      && s.gsoStateBump == buf[32]
      && s.soAuthorityBump == buf[33]
      && s.xBaseMintBump == buf[34]
      && s.baseVaultBump == buf[35]
      && s.strike == LeValue(buf[36..44])
      && s.soNameLengthBytes == buf[44]
  {
  }

  /** The raw name: buf[44] characters whose codes are the bytes from offset 48 on. */
  lemma ParseRawGsoStateName(buf: seq<Byte>)
    requires ParseRawGsoState(buf).Ok?
    ensures var s := ParseRawGsoState(buf).value;
      && |s.projectName| == buf[SO_NAME_LENGTH_AT]
      && forall i :: 0 <= i < |s.projectName| ==> s.projectName[i] as int == buf[SO_NAME_AT + i]
  {
    ParseGsoStateSucceedsIff(buf);
  }

  /** The raw trailer, at offsets that follow the name: three keys and the lockup end as stored. */
  lemma ParseRawGsoStateTrailer(buf: seq<Byte>)
    requires ParseRawGsoState(buf).Ok?
    ensures var s := ParseRawGsoState(buf).value;
      var off := SO_NAME_AT + buf[SO_NAME_LENGTH_AT];
      && off + 104 <= |buf|
      && s.stakingOptionsState == buf[off..off + 32]
      && s.authority == buf[off + 32..off + 64]
      && s.baseMint == buf[off + 64..off + 96]
      && s.lockupPeriodEnd == LeValue(buf[off + 96..off + 104])
  {
    var off := SoStateOffset(buf[SO_NAME_LENGTH_AT]);
    ParseGsoStateSucceedsIff(buf);
    ReadThroughSubarray(buf, off + LOCKUP_PERIOD_END_REL, LOCKUP_REGION_SIZE);
  }

  /** The fixed header of a decoded record: three u64s, four bump bytes, the strike and the name length. */
  lemma ParseGsoStateHeader(buf: seq<Byte>)
    requires ParseGsoState(buf).Ok?
    ensures var s := ParseGsoState(buf).value;
      && s.periodNum == LeValue(buf[8..16])
      && s.subscriptionPeriodEnd == LeValue(buf[16..24])
      && s.lockupRatioTokensPerMillion == LeValue(buf[24..32])
      && s.gsoStateBump == buf[32]
      && s.soAuthorityBump == buf[33]
      && s.xBaseMintBump == buf[34]
      && s.baseVaultBump == buf[35]
      && s.strike == LeValue(buf[36..44])
      && s.soNameLengthBytes == buf[44]
  {
    ParseRawGsoStateHeader(buf);
  }

  /** The name of a decoded record: buf[44] characters whose codes are the bytes from offset 48 on. */
  lemma ParseGsoStateName(buf: seq<Byte>)
    requires ParseGsoState(buf).Ok?
    ensures var s := ParseGsoState(buf).value;
      && |s.projectName| == buf[SO_NAME_LENGTH_AT]
      && forall i :: 0 <= i < |s.projectName| ==> s.projectName[i] as int == buf[SO_NAME_AT + i]
  {
    ParseRawGsoStateName(buf);
  }

  /**
   * The trailer of a decoded record, at offsets that follow the name: the
   * two keys as stored, the base mint and the lockup end after rules A and B.
   */
  lemma ParseGsoStateTrailer(buf: seq<Byte>)
    requires ParseGsoState(buf).Ok?
    ensures var s := ParseGsoState(buf).value;
      var off := SO_NAME_AT + buf[SO_NAME_LENGTH_AT];
      && off + 104 <= |buf|
      && s.stakingOptionsState == buf[off..off + 32]
      && s.authority == buf[off + 32..off + 64]
      && s.baseMint == BaseMintRule(buf[off + 64..off + 96])
      && var lockup := LeValue(buf[off + 96..off + 104]);
         s.lockupPeriodEnd == if lockup == 0 then LeValue(buf[16..24]) else lockup
  {
    ParseRawGsoStateHeader(buf);
    ParseRawGsoStateTrailer(buf);
  }

  /** A decoded record never carries the placeholder base mint nor, unless its subscription end is 0, a zero lockup end. */
  lemma ParseGsoStateCompatible(buf: seq<Byte>)
    requires ParseGsoState(buf).Ok?
    ensures !IsZeroKey(ParseGsoState(buf).value.baseMint)
    ensures ParseGsoState(buf).value.lockupPeriodEnd == 0 ==> ParseGsoState(buf).value.subscriptionPeriodEnd == 0
  {
    var raw := ParseRawGsoState(buf).value;
    BaseMintRuleCases(raw.baseMint);
  }

  /** A buffer whose name length byte is 5 and whose name bytes spell ABCDE decodes to that name. */
  lemma ParseGsoStateNameExample(buf: seq<Byte>)
    requires |buf| >= 157 && buf[SO_NAME_LENGTH_AT] == 5 && buf[48..53] == [65, 66, 67, 68, 69]
    ensures SoStateOffset(buf[SO_NAME_LENGTH_AT]) == 53
    ensures ParseGsoState(buf).Ok? && ParseGsoState(buf).value.projectName == "ABCDE"
  {
    ParseGsoStateSucceedsIff(buf);
    ParseGsoStateName(buf);
    var name := ParseGsoState(buf).value.projectName;
    assert forall i :: 0 <= i < 5 ==> buf[48 + i] == buf[48..53][i];
    assert name == "ABCDE";
  }
}
