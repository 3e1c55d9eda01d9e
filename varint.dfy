/** The variable-length integer reader `getInt`.

    A marker byte below 0xD0 carries its value inline as `marker - 1`.
    Otherwise the low four bits of `marker + 1` form a presence mask: for each
    set bit i, least significant first, one more byte is read and stored at
    offset 3 - i of a zeroed 4-byte accumulator, which is then read as an
    unsigned little-endian 32-bit integer. */
module VarIntReader {
  import opened Framing

  /** Markers below this value are inline values. */
  const INLINE_LIMIT: int := 0xD0

  /** A successful read: the decoded integer and the position just past the
      last byte consumed (the reader's `position` afterwards). */
  datatype Read = Read(value: int, next: nat)

  /** The presence mask `(marker + 1) & 0xF`; on a non-negative value the
      bitwise and with 0xF is the remainder modulo 16. */
  function MaskOf(marker: byte): (mask: nat)
    ensures mask < 16
  {
    (marker as int + 1) % 16
  }

  /** Bit i of the mask is set. */
  predicate Bit(mask: nat, i: nat)
    requires i < 4
  {
    if i == 0 then mask % 2 == 1
    else if i == 1 then (mask / 2) % 2 == 1
    else if i == 2 then (mask / 4) % 2 == 1
    else (mask / 8) % 2 == 1
  }

  /** The source's test `marker & (1 << i)` on the 4-bit mask; it agrees with `Bit`. */
  method MaskHasBit(mask: nat, i: nat) returns (set_: bool)
    requires mask < 16 && i < 4
    ensures set_ == Bit(mask, i)
  {
    set_ := (mask as bv8) & (1 << i) != 0;
  }

  /** Number of set bits of the mask strictly below bit i: how many payload
      bytes have been read before the one for bit i. */
  function Rank(mask: nat, i: nat): (r: nat)
    requires i <= 4
    ensures r <= i
  {
    if i == 0 then 0 else Rank(mask, i - 1) + (if Bit(mask, i - 1) then 1 else 0)
  }

  /** Number of set bits among the mask's four bits. */
  function PopCount(mask: nat): nat
  {
    Rank(mask, 4)
  }

  lemma {:induction false} RankMonotone(mask: nat, i: nat, j: nat)
    requires i <= j <= 4
    ensures Rank(mask, i) <= Rank(mask, j)
    ensures i < j && Bit(mask, i) ==> Rank(mask, i) < Rank(mask, j)
    decreases j
  {
    if i < j {
      RankMonotone(mask, i, j - 1);
    }
  }

  /** Number of bytes the reader consumes for a given marker, the marker included. */
  function Width(marker: byte): (w: nat)
    ensures 1 <= w <= 5
  {
    if marker as int < INLINE_LIMIT then 1 else 1 + PopCount(MaskOf(marker))
  }

  /** Byte k of the 4-byte accumulator, whose payload bytes start at `start`:
      the byte read for mask bit 3 - k, or zero when that bit is clear. */
  function Slot(buf: seq<byte>, start: nat, mask: nat, k: nat): byte
    requires k < 4
  {
    var j := start + Rank(mask, 3 - k);
    if Bit(mask, 3 - k) && j < |buf| then buf[j] else 0
  }

  /** `readUInt32LE`: four bytes, least significant first. */
  function LE32(b0: byte, b1: byte, b2: byte, b3: byte): (n: nat)
    ensures n < 0x1_0000_0000
  {
    b0 as int + 0x100 * b1 as int + 0x1_0000 * b2 as int + 0x100_0000 * b3 as int
  }

  /** The first byte of a little-endian read is the value's low byte, the
      last byte its high byte. */
  lemma LE32Ends(b0: byte, b1: byte, b2: byte, b3: byte)
    ensures LE32(b0, b1, b2, b3) % 0x100 == b0 as int
    ensures LE32(b0, b1, b2, b3) / 0x100_0000 == b3 as int
  {
  }

  /** What `getInt` yields when its cursor stands at `pos` of `buf`. */
  function ReadVarInt(buf: seq<byte>, pos: nat): (r: Result<Read>)
    ensures r.Ok? ==> pos < r.value.next <= |buf|
    ensures r.Ok? ==> -1 <= r.value.value < 0x1_0000_0000
    ensures r.Ok? && r.value.value < 0 ==> buf[pos] == 0
  {
    if pos >= |buf| then Err(Truncated)
    else if buf[pos] as int < INLINE_LIMIT then Ok(Read(buf[pos] as int - 1, pos + 1))
    else
      ReadPresent(buf, pos + 1, MaskOf(buf[pos]))
  }

  /** The reader consumes the marker and one byte per set mask bit, and fails
      exactly when those bytes run past the end of the buffer. */
  lemma ReadVarIntConsumes(buf: seq<byte>, pos: nat)
    ensures ReadVarInt(buf, pos).Err? <==> pos >= |buf| || pos + Width(buf[pos]) > |buf|
    ensures ReadVarInt(buf, pos).Ok? ==> ReadVarInt(buf, pos).value.next == pos + Width(buf[pos])
  {
  }

  /** Reading at the end of the buffer fails; an inline marker is one byte. */
  lemma ReadShortForms(buf: seq<byte>, pos: nat)
    ensures pos >= |buf| ==> ReadVarInt(buf, pos) == Err(Truncated)
    ensures pos < |buf| && buf[pos] as int < INLINE_LIMIT
        ==> ReadVarInt(buf, pos) == Ok(Read(buf[pos] as int - 1, pos + 1))
  {
  }

  /** Marker 0xD7 sets only mask bit 3: one payload byte, the value's low byte. */
  lemma ReadOneByte(buf: seq<byte>, pos: nat)
    requires pos + 1 < |buf| && buf[pos] == 0xD7
    ensures ReadVarInt(buf, pos) == Ok(Read(buf[pos + 1] as int, pos + 2))
  {
    assert MaskOf(buf[pos]) == 8;
    assert Rank(8, 3) == 0 && PopCount(8) == 1;
  }

  /** Marker 0xDB sets mask bits 2 and 3: two payload bytes, the first of
      them the more significant. */
  lemma ReadTwoBytes(buf: seq<byte>, pos: nat)
    requires pos + 2 < |buf| && buf[pos] == 0xDB
    ensures ReadVarInt(buf, pos)
         == Ok(Read(buf[pos + 1] as int * 256 + buf[pos + 2] as int, pos + 3))
  {
    assert MaskOf(buf[pos]) == 12;
    assert Rank(12, 2) == 0 && Rank(12, 3) == 1 && PopCount(12) == 2;
  }

  /** The value of a non-inline marker's payload: the mask's bytes, starting at
      `start`, gathered into the accumulator and read little-endian. */
  function ReadPresent(buf: seq<byte>, start: nat, mask: nat): (r: Result<Read>)
    requires mask < 16
    ensures r.Err? <==> start + PopCount(mask) > |buf|
    ensures r.Err? ==> r.error == Truncated
    ensures r.Ok? ==> r.value.next == start + PopCount(mask) && 0 <= r.value.value < 0x1_0000_0000
  {
    if start + PopCount(mask) > |buf| then Err(Truncated)
    else Ok(Read(LE32(Slot(buf, start, mask, 0), Slot(buf, start, mask, 1),
                      Slot(buf, start, mask, 2), Slot(buf, start, mask, 3)),
                 start + PopCount(mask)))
  }

  /** `getInt` over an explicit buffer and position: read the marker, advance
      the position, and either return the inline value or gather the payload. */
  method GetInt(buf: seq<byte>, pos: nat) returns (r: Result<Read>)
    ensures r == ReadVarInt(buf, pos)
  {
    var position := pos;
    if position >= |buf| {
      return Err(Truncated);
    }
    var marker := buf[position];
    position := position + 1;
    if marker as int < INLINE_LIMIT {
      return Ok(Read(marker as int - 1, position));
    }
    r := GatherPresent(buf, position, (marker as int + 1) % 16);
  }

  /** The accumulator after mask bits 0 .. i - 1 have been processed. */
  function Filled(buf: seq<byte>, start: nat, mask: nat, i: nat): (acc: seq<byte>)
    ensures |acc| == 4
  {
    seq(4, k requires 0 <= k < 4 => if 3 - k < i then Slot(buf, start, mask, k) else 0)
  }

  lemma FilledStep(buf: seq<byte>, start: nat, mask: nat, i: nat)
    requires i < 4
    ensures Filled(buf, start, mask, i + 1)
         == Filled(buf, start, mask, i)[3 - i := Slot(buf, start, mask, 3 - i)]
  {
  }

  /** The loop of `getInt`: a zeroed 4-byte accumulator receives one byte per
      set mask bit i, at offset 3 - i, and is read as a little-endian u32. */
  method GatherPresent(buf: seq<byte>, start: nat, mask: nat) returns (r: Result<Read>)
    requires mask < 16 && start <= |buf|
    ensures r == ReadPresent(buf, start, mask)
  {
    var position := start;
    var acc := new byte[4](_ => 0);
    for i := 0 to 4
      invariant position == start + Rank(mask, i) <= |buf|
      invariant acc[..] == Filled(buf, start, mask, i)
    {
      FilledStep(buf, start, mask, i);
      var present := MaskHasBit(mask, i);
      if present {
        if position >= |buf| {
          RankMonotone(mask, i + 1, 4);
          return Err(Truncated);
        }
        acc[3 - i] := buf[position];
        position := position + 1;
      }
    }
    r := Ok(Read(LE32(acc[0], acc[1], acc[2], acc[3]), position));
  }

  /** 256 to the power k. */
  function Pow256(k: nat): (r: nat)
    ensures r >= 1
  {
    if k == 0 then 1 else 0x100 * Pow256(k - 1)
  }

  /** A reference reading of a non-inline payload, written as a sum over the
      mask bits below i: the byte read for a set bit j weighs 256^(3 - j), a
      clear bit contributes nothing. */
  function WeightedSum(buf: seq<byte>, start: nat, mask: nat, i: nat): nat
    requires i <= 4 && start + PopCount(mask) <= |buf|
  {
    if i == 0 then 0
    else
      WeightedSum(buf, start, mask, i - 1) +
      if Bit(mask, i - 1) then
        RankMonotone(mask, i - 1, 4);
        buf[start + Rank(mask, i - 1)] as int * Pow256(3 - (i - 1))
      else 0
  }

  /** The accumulator read little-endian is the weighted sum of the payload
      bytes: mask bit i gives its byte the weight 256^(3 - i). */
  lemma ReadPresentIsWeightedSum(buf: seq<byte>, start: nat, mask: nat)
    requires mask < 16 && start + PopCount(mask) <= |buf|
    ensures ReadPresent(buf, start, mask)
         == Ok(Read(WeightedSum(buf, start, mask, 4), start + PopCount(mask)))
  {
    assert Pow256(1) == 0x100 && Pow256(2) == 0x1_0000 && Pow256(3) == 0x100_0000;
    RankMonotone(mask, 0, 4);
    RankMonotone(mask, 1, 4);
    RankMonotone(mask, 2, 4);
    RankMonotone(mask, 3, 4);
    assert WeightedSum(buf, start, mask, 1) == Slot(buf, start, mask, 3) as int * 0x100_0000;
    assert WeightedSum(buf, start, mask, 2)
        == WeightedSum(buf, start, mask, 1) + Slot(buf, start, mask, 2) as int * 0x1_0000;
    assert WeightedSum(buf, start, mask, 3)
        == WeightedSum(buf, start, mask, 2) + Slot(buf, start, mask, 1) as int * 0x100;
    assert WeightedSum(buf, start, mask, 4)
        == WeightedSum(buf, start, mask, 3) + Slot(buf, start, mask, 0) as int;
  }

  /** Byte k (weight 256^k) of a value. */
  function ByteOf(n: nat, k: nat): byte
    requires k < 4
  {
    (if k == 0 then n % 0x100
     else if k == 1 then n / 0x100 % 0x100
     else if k == 2 then n / 0x100 / 0x100 % 0x100
     else n / 0x100 / 0x100 / 0x100 % 0x100) as byte
  }

  /** The four bytes of a 32-bit value, read little-endian, give back the value. */
  lemma {:induction false} BytesOfValue(n: nat)
    requires n < 0x1_0000_0000
    ensures LE32(ByteOf(n, 0), ByteOf(n, 1), ByteOf(n, 2), ByteOf(n, 3)) == n
  {
    var q1 := n / 0x100;
    var q2 := q1 / 0x100;
    var q3 := q2 / 0x100;
    SplitByte(n);
    SplitByte(q1);
    SplitByte(q2);
    assert q3 < 0x100;
  }

  lemma SplitByte(x: nat)
    ensures x == 0x100 * (x / 0x100) + x % 0x100
  {
  }

  /** The presence mask announcing exactly the non-zero bytes of n: bit i
      stands for byte 3 - i. */
  function MaskFor(n: nat): (mask: nat)
    ensures mask < 16
  {
    (if ByteOf(n, 3) != 0 then 1 else 0) + (if ByteOf(n, 2) != 0 then 2 else 0) +
    (if ByteOf(n, 1) != 0 then 4 else 0) + (if ByteOf(n, 0) != 0 then 8 else 0)
  }

  /** The non-zero bytes of n announced by mask bits i .. 3, in reading order. */
  function PayloadFrom(n: nat, i: nat): seq<byte>
    requires i <= 4
    decreases 4 - i
  {
    if i == 4 then []
    else (if ByteOf(n, 3 - i) != 0 then [ByteOf(n, 3 - i)] else []) + PayloadFrom(n, i + 1)
  }

  /** An encoding of n that the reader accepts: inline when n + 1 is below
      0xD0, otherwise a marker whose mask announces the non-zero bytes of n,
      followed by those bytes. */
  function EncodeVarInt(n: nat): (e: seq<byte>)
    requires n < 0x1_0000_0000
    ensures 1 <= |e| <= 5
  {
    if n + 1 < INLINE_LIMIT then [(n + 1) as byte]
    else [(0xCF + MaskFor(n)) as byte] + PayloadFrom(n, 0)
  }

  lemma MaskForBits(n: nat, i: nat)
    requires i < 4
    ensures Bit(MaskFor(n), i) <==> ByteOf(n, 3 - i) != 0
  {
  }

  lemma {:induction false} PayloadSplit(n: nat, i: nat)
    requires i <= 4
    ensures |PayloadFrom(n, 0)| == Rank(MaskFor(n), i) + |PayloadFrom(n, i)|
    ensures PayloadFrom(n, 0)[Rank(MaskFor(n), i)..] == PayloadFrom(n, i)
  {
    if i > 0 {
      PayloadSplit(n, i - 1);
      MaskForBits(n, i - 1);
    }
  }

  /** A value too large for the inline form gets a marker at or above 0xD0
      whose presence mask is `MaskFor(n)`. */
  lemma {:induction false} MarkerOfEncoding(n: nat)
    requires INLINE_LIMIT <= n + 1 && n < 0x1_0000_0000
    ensures 0xCF + MaskFor(n) < 0x100
    ensures INLINE_LIMIT <= 0xCF + MaskFor(n)
    ensures MaskOf((0xCF + MaskFor(n)) as byte) == MaskFor(n)
  {
    BytesOfValue(n);
  }

  /** With the payload of n in place at `start`, the accumulator slots hold the bytes of n. */
  lemma {:induction false} SlotsOfPayload(n: nat, buf: seq<byte>, start: nat)
    requires start + |PayloadFrom(n, 0)| <= |buf|
    requires buf[start..start + |PayloadFrom(n, 0)|] == PayloadFrom(n, 0)
    ensures forall k :: 0 <= k < 4 ==> Slot(buf, start, MaskFor(n), k) == ByteOf(n, k)
  {
    var mask, payload := MaskFor(n), PayloadFrom(n, 0);
    forall k | 0 <= k < 4
      ensures Slot(buf, start, mask, k) == ByteOf(n, k)
    {
      MaskForBits(n, 3 - k);
      PayloadSplit(n, 3 - k);
      if Bit(mask, 3 - k) {
        assert buf[start + Rank(mask, 3 - k)] == payload[Rank(mask, 3 - k)];
      }
    }
  }

  /** The payload carries one byte per set mask bit. */
  lemma PayloadLength(n: nat)
    ensures PopCount(MaskFor(n)) == |PayloadFrom(n, 0)|
  {
    PayloadSplit(n, 4);
  }

  /** Where the marker and the payload of a non-inline encoding sit in a buffer. */
  lemma EncodedLayout(n: nat, pre: seq<byte>, post: seq<byte>)
    requires INLINE_LIMIT <= n + 1 && n < 0x1_0000_0000
    ensures |pre| + 1 + |PayloadFrom(n, 0)| <= |pre + EncodeVarInt(n) + post|
    ensures (pre + EncodeVarInt(n) + post)[|pre|] == (0xCF + MaskFor(n)) as byte
    ensures (pre + EncodeVarInt(n) + post)[|pre| + 1..|pre| + 1 + |PayloadFrom(n, 0)|]
         == PayloadFrom(n, 0)
    ensures |EncodeVarInt(n)| == 1 + |PayloadFrom(n, 0)|
    ensures forall k :: 0 <= k < 4 ==>
              Slot(pre + EncodeVarInt(n) + post, |pre| + 1, MaskFor(n), k) == ByteOf(n, k)
  {
    MarkerOfEncoding(n);
    var marker, payload := [(0xCF + MaskFor(n)) as byte], PayloadFrom(n, 0);
    assert pre + EncodeVarInt(n) + post == pre + marker + payload + post;
    SlotsOfPayload(n, pre + EncodeVarInt(n) + post, |pre| + 1);
  }

  lemma RoundTripPresent(n: nat, pre: seq<byte>, post: seq<byte>)
    requires INLINE_LIMIT <= n + 1 && n < 0x1_0000_0000
    ensures ReadVarInt(pre + EncodeVarInt(n) + post, |pre|)
         == Ok(Read(n, |pre| + |EncodeVarInt(n)|))
  {
    hide EncodeVarInt, PayloadFrom, MaskFor, Slot, ByteOf, LE32, Rank, Bit, MaskOf;
    var buf := pre + EncodeVarInt(n) + post;
    var mask, start := MaskFor(n), |pre| + 1;
    MarkerOfEncoding(n);
    EncodedLayout(n, pre, post);
    PayloadLength(n);
    BytesOfValue(n);
    assert ReadVarInt(buf, |pre|) == ReadPresent(buf, start, mask);
  }

  /** Reading an encoded value back, wherever it sits in a buffer, yields the
      value and stops right after its encoding. */
  lemma VarIntRoundTrip(n: nat, pre: seq<byte>, post: seq<byte>)
    requires n < 0x1_0000_0000
    ensures ReadVarInt(pre + EncodeVarInt(n) + post, |pre|)
         == Ok(Read(n, |pre| + |EncodeVarInt(n)|))
  {
    if n + 1 >= INLINE_LIMIT {
      RoundTripPresent(n, pre, post);
    } else {
      assert (pre + EncodeVarInt(n) + post)[|pre|] == (n + 1) as byte;
    }
  }
}
