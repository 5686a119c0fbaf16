/**
 * The three operations of Node's Buffer that the record decoder uses:
 * readUInt8, readBigUInt64LE and subarray. A buffer is an immutable byte
 * sequence; every read is bounds-checked and fails with OutOfRange
 * instead of reading past the end.
 */
module Buffer {
  import opened Bytes
  import opened Wrappers

  /** The offset handed to the read that did not fit. */
  datatype ReadError = OutOfRange(offset: nat)

  /** buf.readUInt8(off): the one-byte case of the little-endian reads. */
  function ReadUInt8(buf: seq<Byte>, off: nat): (r: Result<Byte, ReadError>)
    ensures r.Ok? <==> off < |buf|
    ensures r.Ok? ==> r.value == LeValue(buf[off..off + 1]) == buf[off]
    ensures r.Err? ==> r.error == OutOfRange(off)
  {
    if off < |buf| then Ok(buf[off]) else Err(OutOfRange(off))
  }

  /**
   * buf.readBigUInt64LE(off): checks that the first and the last of the
   * eight bytes exist, then composes a low and a high 32-bit half.
   */
  function ReadBigUInt64LE(buf: seq<Byte>, off: nat): (r: Result<U64, ReadError>)
    ensures r.Ok? <==> off + 8 <= |buf|
    ensures r.Ok? ==> r.value == LeValue(buf[off..off + 8])
    ensures r.Err? ==> r.error == OutOfRange(off)
  {
    if off + 7 < |buf| then
      var lo := buf[off] as int + buf[off + 1] as int * 0x100 + buf[off + 2] as int * 0x1_0000
        + buf[off + 3] as int * 0x100_0000;
      var hi := buf[off + 4] as int + buf[off + 5] as int * 0x100 + buf[off + 6] as int * 0x1_0000
        + buf[off + 7] as int * 0x100_0000;
      LeValueOfEight(buf[off..off + 8]);
      Ok(lo + hi * TWO_32)
    else
      Err(OutOfRange(off))
  }

  /** buf.subarray(start, end): a view clamped to the buffer's bounds. */
  function Subarray(buf: seq<Byte>, start: nat, end: nat): (v: seq<Byte>)
    ensures |v| == if start >= |buf| || end <= start then 0
                   else if end <= |buf| then end - start else |buf| - start
    ensures forall i :: 0 <= i < |v| ==> v[i] == buf[start + i]
  {
    var s := if start <= |buf| then start else |buf|;
    var e := if end <= |buf| then end else |buf|;
    if s <= e then buf[s..e] else []
  }

  /** A view that lies inside the buffer is exactly that slice. */
  lemma SubarrayInBounds(buf: seq<Byte>, start: nat, end: nat)
    requires start <= end <= |buf|
    ensures Subarray(buf, start, end) == buf[start..end]
  {
  }

  /** Reading at the start of a view reads the same bytes as reading the buffer. */
  lemma ReadThroughSubarray(buf: seq<Byte>, start: nat, width: nat)
    requires width >= 8
    ensures ReadBigUInt64LE(Subarray(buf, start, start + width), 0).Ok?
        <==> ReadBigUInt64LE(buf, start).Ok?
    ensures ReadBigUInt64LE(buf, start).Ok? ==>
        ReadBigUInt64LE(Subarray(buf, start, start + width), 0).value
          == ReadBigUInt64LE(buf, start).value
  {
    var v := Subarray(buf, start, start + width);
    if start + 8 <= |buf| {
      assert v[0..8] == buf[start..start + 8];
    }
  }

  /** The largest u64: eight 0xFF bytes read back without overflow or sign confusion. */
  lemma ReadMaxU64()
    ensures ReadBigUInt64LE([0xFF, 0xFF, 0xFF, 0xFF, 0xFF, 0xFF, 0xFF, 0xFF], 0)
        == Ok(0xFFFF_FFFF_FFFF_FFFF)
  {
  }
}
