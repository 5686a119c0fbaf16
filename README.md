# GSO state decoder and seed encoder, in Dafny

This project models the two pieces of logic in the GSO ("Staking Options
with lockup") client SDK:

- **`parseGsoState`**. It decodes the raw bytes of a GSO state account into a
  typed record. The header sits at fixed byte offsets: three little-endian
  u64s at 8, 16 and 24, four bump bytes at 32..35, the strike (u64) at 36,
  and the name length byte at 44. The project name starts at 48. With
  `off = 48 + n`, where `n` is the name length, the trailer holds the
  staking-options state key at `off`, the authority at `off + 32`, the base
  mint at `off + 64`, and the lockup end (u64) as the first 8 bytes of a
  32-byte region at `off + 96`. Two backwards-compatibility rules are then
  applied:
  - rule A: an all-zero base mint, the system key `111…1` in base58,
    becomes the BONK mint;
  - rule B: a zero lockup end becomes the subscription end.
- **`GSO.toBeBytes`**. It turns a number into the 8 big-endian bytes used as
  the `period_num` seed of the GSO state address. It is computed with
  JavaScript's 32-bit shift operators.

Layout of the project:

- `wrappers.dfy` (`Wrappers`): the `Result` type.
- `bytes.dfy` (`Bytes`): bytes, u64, little- and big-endian values and
  encoders, and their round trips.
- `buffer.dfy` (`Buffer`): the three Node `Buffer` operations the decoder
  uses. These are `readUInt8`, `readBigUInt64LE` (with Node's
  low-half/high-half composition) and `subarray` (with clamping). A read
  that does not fit fails with `OutOfRange(offset)`.
- `utils.dfy` (`Utils`): the record, the layout constants, the raw decoder
  `ParseRawGsoState` (what the bytes say), the name conversion `FromCharCodes` with its inverse `CharCodes`, the two rules, `ParseGsoState`,
  and the lemmas about them.
- `utils_encode.dfy` (`UtilsEncode`): an encoder for the same layout. It is
  the decoder's partner for stating round trips. It is not part of the
  source.
- `gso.dfy` (`Gso`): `ToBeBytes` with ECMAScript `ToInt32`/`ToUint32`,
  `<<`, `>>>` and the `Uint8Array.from` conversion, and its lemmas.

The decoder is a pure function, so it never writes to the buffer and the
same bytes always give the same record. Dafny functions have this property
by construction, so no lemma states it.

Facts about the code that the model keeps:

- The decoder needs only `48 + n + 104` bytes. The last read takes the
  first 8 bytes of the 32-byte view at `off + 96`, and a clamped view of at
  least 8 bytes is enough for it.
- Nothing checks `n` beyond the reads themselves.
- Name bytes become characters one to one, with no UTF-8 validation.
- Bytes 45..47 are never read.

## Model

| member | source | states |
|---|---|---|
| `Buffer.ReadBigUInt64LE` | src/utils.ts:7-9 | succeeds exactly when the 8 bytes at the offset exist; the value composed from a low and a high 32-bit half equals the little-endian u64 of those bytes; otherwise fails with `OutOfRange(offset)` |
| `Buffer.ReadUInt8` | src/utils.ts:10-15 | succeeds exactly when the offset is inside the buffer, and its value is the little-endian value of the one byte there, the one-byte case of the codec the u64 reads use; otherwise `OutOfRange(offset)` |
| `Buffer.Subarray` | src/utils.ts:19-36 | a view's length is the requested length clamped to the buffer's end (empty past the end), and its bytes are the buffer's from the start offset |
| `Buffer.ReadThroughSubarray` | src/utils.ts:35-37 | reading a u64 at offset 0 of a view of at least 8 bytes succeeds exactly when reading the buffer at the view's start does, with the same value |
| `Buffer.ReadMaxU64` | src/utils.ts:7-9 | eight 0xFF bytes read as 2^64 - 1, with no overflow or sign confusion |
| `Utils.CharCodesOfFromCharCodes` | src/utils.ts:16-20 | the name decoding loses nothing: taking the character codes of a decoded name gives back the stored bytes |
| `Utils.ParseGsoStateSucceedsIff` | src/utils.ts:6-41 | decoding succeeds if and only if the buffer has more than 44 bytes and at least `48 + buf[44] + 104` |
| `Utils.ParseGsoStateFailsAtFirstShortRead` | src/utils.ts:7-37 | a short buffer fails at the first read that does not fit (8, 16, 24, 32, 33, 34, 35, 36, 44, then offset 0 of the lockup view) and no record is returned |
| `Utils.ParseRawGsoStateHeader` | src/utils.ts:7-15 | period number, subscription end and lockup ratio are the LE u64s of bytes [8,16), [16,24), [24,32); the bumps are bytes 32..35; strike is the LE u64 of [36,44); name length is byte 44 |
| `Utils.ParseRawGsoStateName` | src/utils.ts:15-20 | the raw name has `buf[44]` characters and character i has code `buf[48 + i]` |
| `Utils.ParseRawGsoStateTrailer` | src/utils.ts:21-37 | with `off = 48 + buf[44]`: the buffer has `off + 104` bytes, and the three raw keys are bytes [off, off+32), [off+32, off+64), [off+64, off+96), and the raw lockup end is the LE u64 of [off+96, off+104) |
| `Utils.ParseGsoStateHeader` | src/utils.ts:7-15 | the decoded record's header fields are the same byte-level values as the raw ones, with strike 0 decoded like any other value |
| `Utils.ParseGsoStateName` | src/utils.ts:16-20 | the decoded name has `buf[44]` characters whose codes are `buf[48..48+n)`, with no re-encoding |
| `Utils.ParseGsoStateTrailer` | src/utils.ts:21-41 | the staking-options key and the authority are the stored bytes; the base mint is rule A of the stored bytes; the lockup end is the stored LE u64, or the subscription end when that value is 0 |
| `Utils.ParseGsoStateCompatible` | src/utils.ts:28-41 | a decoded record never carries the all-zero base mint, and its lockup end is 0 only when its subscription end is 0 |
| `Utils.ZeroKeyIsOnlyZeroKey` | src/utils.ts:31 | a key has every byte zero if and only if it is the system key that the base58 comparison tests for |
| `Utils.BaseMintRuleCases` | src/utils.ts:28-34 | rule A: an all-zero key becomes the BONK mint, any other key is kept unchanged, and the result is never all-zero |
| `Utils.LockupPeriodEndRuleCases` | src/utils.ts:35-41 | rule B: 0 becomes the subscription end, any other value is kept, and the result is 0 only if the subscription end is 0 |
| `Utils.CompatibilityRulesIdempotent` | src/utils.ts:28-41 | applying the two rules to a record they produced changes nothing |
| `Utils.CompatibilityRulesFrame` | src/utils.ts:28-57 | the rules change no field but the base mint and the lockup end |
| `Utils.ParseGsoStateNameExample` | src/utils.ts:15-21 | a buffer of at least 157 bytes with name length 5 and name bytes `ABCDE` decodes to the name "ABCDE", and the trailer starts at 53 |
| `Utils.CharCodes` | src/utils.ts:16-20 | the inverse of the one-byte-per-character name decoding |
| `UtilsEncode.EncodeGsoStateLayout` | src/utils.ts:7-37 | the encoder puts every field at the offset and width the decoder reads it from, and the encoding is `48 + n + 128` bytes long |
| `UtilsEncode.ParseRawOfEncode` | src/utils.ts:6-41 | the raw decode of an encoded well-formed record is exactly that record |
| `UtilsEncode.ParseOfEncode` | src/utils.ts:6-58 | decoding an encoded well-formed record returns it with rules A and B applied |
| `UtilsEncode.PlaceholderBaseMintDecodesToBonk` | src/utils.ts:28-34 | a record stored with the all-zero base mint decodes to the BONK mint, never to the placeholder |
| `UtilsEncode.ZeroLockupDecodesToSubscriptionEnd` | src/utils.ts:35-41 | a record stored with lockup end 0 and subscription end T decodes with lockup end T |
| `UtilsEncode.EncodeOfParseRaw` | src/utils.ts:7-37 | on every buffer long enough to decode (more than 44 bytes and at least `48 + buf[44] + 104`), the raw decode succeeds and re-encoding it reproduces the buffer at every byte the decoder reads (8..45 and 48..off+104), so the result depends on nothing else |
| `Gso.ToBeBytes` | src/gso.ts:76-83 | always exactly 8 bytes, each in 0..255 |
| `Gso.TopByteFits` | src/gso.ts:78-82 | every `z >>> 24` is below 256, so `Uint8Array.from` stores it unchanged |
| `Gso.Uint32OfShiftLeft` | src/gso.ts:79 | `v << k` for k = 8, 16, 24 agrees modulo 2^32 with the unsigned 32-bit form of v times 2^k |
| `Gso.WordBytes` | src/gso.ts:79-81 | the four `>>> 24` values of `v, v << 8, v << 16, v << 24` are the big-endian bytes of v wrapped to 32 bits |
| `Gso.ToBeBytesHalves` | src/gso.ts:77-81 | for every integer x, bytes 0..3 encode `floor(x / 2^32)` wrapped to 32 bits and bytes 4..7 encode x wrapped to 32 bits |
| `Gso.ToBeBytesOfU64` | src/gso.ts:77-81 | for 0 <= x < 2^64, bytes 0..3 are the big-endian encoding of `floor(x / 2^32)` and bytes 4..7 that of `x mod 2^32` |
| `Gso.ToBeBytesIsBeBytes` | src/gso.ts:76-83 | for every integer x the result is the 8-byte big-endian encoding of `x mod 2^64` |
| `Gso.ToBeBytesRoundTrip` | src/gso.ts:76-83 | for 0 <= x < 2^64, the sum of `b[i] * 256^(7-i)` is x |
| `Gso.ToBeBytesOfBeValue` | src/gso.ts:76-83 | any 8 bytes are the encoding of their own big-endian value |
| `Gso.PeriodNumSeed` | src/gso.ts:92 | `toBeBytes(1)` is seven zero bytes followed by 1 |
| `Bytes.LeValueOfLeBytes` | src/utils.ts:7-9 | decoding the n-byte little-endian encoding of v < 256^n gives v |
| `Bytes.LeBytesOfLeValue` | src/utils.ts:7-9 | encoding the little-endian value of a byte string gives the string back |
| `Bytes.BeValueOfBeBytes` | src/gso.ts:76-83 | decoding the n-byte big-endian encoding of v < 256^n gives v |
| `Bytes.BeBytesOfBeValue` | src/gso.ts:76-83 | encoding the big-endian value of a byte string gives the string back |

## Left out

- The `GSO` constructor, `state`, `xBaseMint`, `baseVault` and the `create*Instruction` methods (src/gso.ts:45-278). These are RPC connections, program-derived address hashing and instruction building through foreign libraries and an interface file that is not part of this model.
- The `Number(...)` conversions of the u64 reads. They round values above 2^53 because they are IEEE doubles. The model keeps every u64 field exact.
- Base58 encoding and `PublicKey` construction. A key is its 32 raw bytes, and the comparison with `'111…1'` becomes "every byte is zero". `Utils.BONK_MINT_MAINNET` holds the 32 bytes that the base58 string `DezXAZ8z7PnrnRJjz3wXBoRgixCa6xjnB7YaB1pPB263` denotes. Dafny does not prove that decoding.
- Building a key from a view shorter than 32 bytes. This happens only on inputs whose last read then fails, so no record is returned for them.
- Node's distinction between its two error codes, and its error messages. A failed read is `OutOfRange` with the offset handed to that read. For the last read, that offset is 0 within the 32-byte view.
- `Gso.ToBeBytes`: the input is an integer, so non-integral numbers (fractions, NaN and ±Infinity) are not modelled. On every integral input the model is exact, including negative integers and integers of 2^64 or more.
- tests/gso.test.ts is a live-network test with no local behaviour to model.
