/**
 * The stored form of a special event: the packed 8-byte record, `data`
 * then `timestamp`, each a little-endian 32-bit word whatever the host's
 * byte order (the htole32 / le32toh calls of the header), the timestamp in
 * two's complement.
 */
module Wire {

  import opened CInt
  import opened SpecialEvent

  /** A 32-bit word as its four bytes, least significant first. */
  function Bytes32(w: bv32): (b: seq<bv8>)
    ensures |b| == 4
  {
    [(w & 0xFF) as bv8, ((w >> 8) & 0xFF) as bv8, ((w >> 16) & 0xFF) as bv8, (w >> 24) as bv8]
  }

  /** Four bytes, least significant first, as a 32-bit word. */
  function Word32(b: seq<bv8>): bv32
    requires |b| == 4
  {
    Assemble(b[0], b[1], b[2], b[3])
  }

  function Assemble(b0: bv8, b1: bv8, b2: bv8, b3: bv8): bv32
  {
    (b0 as bv32) | ((b1 as bv32) << 8) | ((b2 as bv32) << 16) | ((b3 as bv32) << 24)
  }

  lemma WordOfBytes(w: bv32)
    ensures Word32(Bytes32(w)) == w
  {
  }

  lemma BytesOfWord(b: seq<bv8>)
    requires |b| == 4
    ensures Bytes32(Word32(b)) == b
  {
    AssembleBytes(b[0], b[1], b[2], b[3]);
  }

  lemma AssembleBytes(b0: bv8, b1: bv8, b2: bv8, b3: bv8)
    ensures Bytes32(Assemble(b0, b1, b2, b3)) == [b0, b1, b2, b3]
  {
  }

  /** The unsigned value of four little-endian bytes. */
  function Value(b: seq<bv8>): (u: nat)
    requires |b| == 4
    ensures u < 0x1_0000_0000
  {
    Horner(b[0] as int, b[1] as int, b[2] as int, b[3] as int)
  }

  function Horner(d0: nat, d1: nat, d2: nat, d3: nat): nat
  {
    d0 + 0x100 * (d1 + 0x100 * (d2 + 0x100 * d3))
  }

  /** The four base-256 digits of an unsigned 32-bit value, least significant first. */
  function BytesOf(u: nat): (b: seq<bv8>)
    requires u < 0x1_0000_0000
  {
    [Digit(u % 0x100), Digit((u / 0x100) % 0x100), Digit((u / 0x1_0000) % 0x100), Digit(u / 0x100_0000)]
  }

  /**
   * A number below 256 as a byte, built from its two hexadecimal digits:
   * a direct `d as bv8` leaves the solver to relate integers and
   * bit-vectors; building the byte from two hexadecimal digits avoids that.
   */
  function Digit(d: nat): (x: bv8)
    requires d < 0x100
    ensures x as int == d
  {
    var hi, lo := Nibble(d / 0x10), Nibble(d % 0x10);
    NibblesValue(hi, lo);
    (hi << 4) | lo
  }

  function Nibble(n: nat): (x: bv8)
    requires n < 0x10
    ensures x as int == n
  {
    if n < 8 then
      if n < 4 then (if n == 0 then 0 else if n == 1 then 1 else if n == 2 then 2 else 3)
      else (if n == 4 then 4 else if n == 5 then 5 else if n == 6 then 6 else 7)
    else
      if n < 12 then (if n == 8 then 8 else if n == 9 then 9 else if n == 10 then 10 else 11)
      else (if n == 12 then 12 else if n == 13 then 13 else if n == 14 then 14 else 15)
  }

  lemma NibblesValue(hi: bv8, lo: bv8)
    requires hi < 0x10 && lo < 0x10
    ensures ((hi << 4) | lo) as int == 0x10 * (hi as int) + lo as int
  {
  }

  lemma {:induction false} ValueOfBytes(u: nat)
    requires u < 0x1_0000_0000
    ensures Value(BytesOf(u)) == u
  {
    var d0, d1, d2, d3 := u % 0x100, (u / 0x100) % 0x100, (u / 0x1_0000) % 0x100, u / 0x100_0000;
    DivSteps(u);
    assert Value(BytesOf(u)) == Horner(d0, d1, d2, d3);
  }

  lemma DivSteps(u: nat)
    requires u < 0x1_0000_0000
    ensures u / 0x100_0000 < 0x100
    ensures u == Horner(u % 0x100, (u / 0x100) % 0x100, (u / 0x1_0000) % 0x100, u / 0x100_0000)
  {
    var q1, q2 := u / 0x100, u / 0x1_0000;
    assert q2 == q1 / 0x100;
    assert u / 0x100_0000 == q2 / 0x100;
  }

  lemma {:induction false} BytesOfValue(b: seq<bv8>)
    requires |b| == 4
    ensures BytesOf(Value(b)) == b
  {
    var d0, d1, d2, d3 := b[0] as int, b[1] as int, b[2] as int, b[3] as int;
    HornerDigits(d0, d1, d2, d3);
    ByteRoundTrip(b[0]);
    ByteRoundTrip(b[1]);
    ByteRoundTrip(b[2]);
    ByteRoundTrip(b[3]);
  }

  lemma HornerDigits(d0: nat, d1: nat, d2: nat, d3: nat)
    requires d0 < 0x100 && d1 < 0x100 && d2 < 0x100 && d3 < 0x100
    ensures var u := Horner(d0, d1, d2, d3);
      u % 0x100 == d0 && (u / 0x100) % 0x100 == d1 && (u / 0x1_0000) % 0x100 == d2 && u / 0x100_0000 == d3
  {
    var u := Horner(d0, d1, d2, d3);
    assert u / 0x100 == d1 + 0x100 * (d2 + 0x100 * d3);
    assert u / 0x1_0000 == (u / 0x100) / 0x100;
    assert u / 0x100_0000 == (u / 0x1_0000) / 0x100;
  }

  lemma ByteRoundTrip(x: bv8)
    ensures (x as int) as bv8 == x
  {
  }

  /** The two's complement bits of an int32_t. */
  function Bits(x: int32): bv32
  {
    Word32(BytesOf(if x >= 0 then x else x + 0x1_0000_0000))
  }

  /** The int32_t whose two's complement bits these are. */
  function Signed(w: bv32): int32
  {
    var u := Value(Bytes32(w));
    if u < 0x8000_0000 then u else u - 0x1_0000_0000
  }

  /** Every int32_t survives the trip through its bits. */
  lemma SignedBits(x: int32)
    ensures Signed(Bits(x)) == x
  {
    var u: nat := if x >= 0 then x else x + 0x1_0000_0000;
    BytesOfWord(BytesOf(u));
    ValueOfBytes(u);
  }

  /** Every bit pattern is the two's complement of exactly one int32_t. */
  lemma BitsSigned(w: bv32)
    ensures Bits(Signed(w)) == w
  {
    BytesOfValue(Bytes32(w));
    WordOfBytes(w);
  }

  /** The 8 stored bytes of a record: `data` at offsets 0-3, `timestamp` at offsets 4-7. */
  function EncodeEvent(e: Event): (b: seq<bv8>)
    ensures |b| == 8
    ensures b[..4] == Bytes32(e.data)
    ensures b[4..] == Bytes32(Bits(e.timestamp))
  {
    Bytes32(e.data) + Bytes32(Bits(e.timestamp))
  }

  /** The record stored in 8 bytes. */
  function DecodeEvent(b: seq<bv8>): Event
    requires |b| == 8
  {
    Event(Word32(b[..4]), Signed(Word32(b[4..])))
  }

  /** Decoding the stored bytes of a record gives the record back. */
  lemma DecodeEncode(e: Event)
    ensures DecodeEvent(EncodeEvent(e)) == e
  {
    var b := EncodeEvent(e);
    assert b[..4] == Bytes32(e.data) && b[4..] == Bytes32(Bits(e.timestamp));
    WordOfBytes(e.data);
    WordOfBytes(Bits(e.timestamp));
    SignedBits(e.timestamp);
  }

  /** Every 8 bytes are the stored form of the record they decode to. */
  lemma EncodeDecode(b: seq<bv8>)
    requires |b| == 8
    ensures EncodeEvent(DecodeEvent(b)) == b
  {
    BytesOfWord(b[..4]);
    BytesOfWord(b[4..]);
    BitsSigned(Word32(b[4..]));
    assert b == b[..4] + b[4..];
  }

  /**
   * The four fields of a record - valid mark, type, payload, timestamp -
   * survive a trip through the stored bytes.
   */
  lemma FieldsRoundTrip(valid: bool, t: bv8, payload: bv32, timestamp: int32)
    requires t <= 0x7F && payload <= 0xFF_FFFF
    ensures var e := DecodeEvent(EncodeEvent(Event(Pack(valid, t, payload), timestamp)));
      IsValid(e.data) == valid && GetType(e.data) == t && GetData(e.data) == payload &&
      e.timestamp == timestamp
  {
    DecodeEncode(Event(Pack(valid, t, payload), timestamp));
  }
}
