/**
 * The special event record of libcaer: a 32-bit `data` word that packs a
 * valid mark (bit 0), a 7-bit type (bits 1-7) and a 24-bit payload
 * (bits 8-31), and a signed 32-bit timestamp that is kept non-negative.
 *
 * This module holds the pure half of the header: the bit-field constants,
 * the getters, the word-level effect of every setter, and the widening of a
 * 31-bit timestamp to 64 bits.  Words are the host's logical values; the
 * little-endian storage order is handled in module Wire.
 */
module SpecialEvent {

  import opened CInt

  /** Bit 0 of `data` is the valid mark. */
  const ValidMarkShift: bv32 := 0
  const ValidMarkMask: bv32 := 1
  /** Up to 128 types, in bits 1-7. */
  const TypeShift: bv32 := 1
  const TypeMask: bv32 := 0x0000_007F
  /** 24 bits of payload, in bits 8-31. */
  const DataShift: bv32 := 8
  const DataMask: bv32 := 0x00FF_FFFF
  /** Timestamps are limited to 31 bits; the overflow counter supplies the rest. */
  const TsOverflowShift: nat := 31

  /** The six type identifiers libcaer names; the other values up to 127 are free. */
  const TimestampWrap: bv8 := 0
  const TimestampReset: bv8 := 1
  const ExternalInputRisingEdge: bv8 := 2
  const ExternalInputFallingEdge: bv8 := 3
  const ExternalInputPulse: bv8 := 4
  const DvsRowOnly: bv8 := 5

  /** One record: the packed word and the timestamp, both as logical values. */
  datatype Event = Event(data: bv32, timestamp: int32)

  /** The all-zero record a freshly allocated packet holds. */
  const Zero: Event := Event(0, 0)

  /** Bits 1-7 and bits 8-31 of the word, as masks in place. */
  const TypeBits: bv32 := 0x0000_00FE
  const DataBits: bv32 := 0xFFFF_FF00

  /** caerSpecialEventIsValid: bit 0 of the word. */
  predicate IsValid(data: bv32)
  {
    (data >> ValidMarkShift) & ValidMarkMask != 0
  }

  /** caerSpecialEventGetType: a value in 0..127 read from bits 1-7. */
  function GetType(data: bv32): (t: bv8)
    ensures t <= 0x7F
  {
    ((data >> TypeShift) & TypeMask) as bv8
  }

  /** caerSpecialEventGetData: a value below 2^24 read from bits 8-31. */
  function GetData(data: bv32): (d: bv32)
    ensures d <= 0xFF_FFFF
  {
    (data >> DataShift) & DataMask
  }

  /**
   * The three fields laid out in one word: the reference layout of a record,
   * against which the getters and setters are checked.
   */
  function Pack(valid: bool, t: bv8, payload: bv32): (w: bv32)
    requires t <= 0x7F && payload <= 0xFF_FFFF
    ensures IsValid(w) == valid && GetType(w) == t && GetData(w) == payload
  {
    PackReadsValid(valid, t, payload);
    PackReadsType(valid, t, payload);
    PackReadsData(valid, t, payload);
    Layout(valid, t, payload)
  }

  function Layout(valid: bool, t: bv8, payload: bv32): bv32
  {
    (payload << DataShift) | (LowByte(valid, t) as bv32)
  }

  /** Bits 0-7 of the layout: the valid mark below the type. */
  function LowByte(valid: bool, t: bv8): bv8
  {
    (t << TypeShift) | (if valid then 1 else 0)
  }

  lemma PackReadsValid(valid: bool, t: bv8, payload: bv32)
    ensures IsValid(Layout(valid, t, payload)) == valid
  {
  }

  lemma PackReadsType(valid: bool, t: bv8, payload: bv32)
    requires t <= 0x7F
    ensures GetType(Layout(valid, t, payload)) == t
  {
  }

  lemma PackReadsData(valid: bool, t: bv8, payload: bv32)
    requires payload <= 0xFF_FFFF
    ensures GetData(Layout(valid, t, payload)) == payload
  {
    ReadAboveLowByte(LowByte(valid, t), payload);
  }

  lemma ReadAboveLowByte(low: bv8, payload: bv32)
    requires payload <= 0xFF_FFFF
    ensures GetData((payload << DataShift) | (low as bv32)) == payload
  {
  }

  /** Every word is the packing of its three fields, so the codec loses nothing. */
  lemma PackFields(w: bv32)
    ensures Pack(IsValid(w), GetType(w), GetData(w)) == w
  {
  }

  /** `(U32T(type) & TYPE_MASK) << TYPE_SHIFT`: the type moved into bits 1-7. */
  function TypeField(t: bv8): (f: bv32)
    ensures f & !TypeBits == 0
  {
    ((t as bv32) & TypeMask) << TypeShift
  }

  /** `(U32T(data) & DATA_MASK) << DATA_SHIFT`: the payload moved into bits 8-31. */
  function DataField(payload: bv32): (f: bv32)
    ensures f & !DataBits == 0
  {
    (payload & DataMask) << DataShift
  }

  /**
   * caerSpecialEventSetType: the new type is masked to 7 bits and ORed into
   * the word without clearing bits 1-7 first.  So no bit is ever cleared,
   * the valid mark and the payload stay, and the type read back is the OR
   * of the old type and the new one.
   */
  function SetType(data: bv32, t: bv8): (r: bv32)
    ensures r & data == data
    ensures r == Pack(IsValid(data), GetType(data) | (t & 0x7F), GetData(data))
  {
    OrTypeField(data, t);
    data | TypeField(t)
  }

  lemma OrTypeField(data: bv32, t: bv8)
    ensures data | TypeField(t) == Pack(IsValid(data), GetType(data) | (t & 0x7F), GetData(data))
  {
    PackFields(data);
  }

  /**
   * caerSpecialEventSetData: the payload is masked to 24 bits and ORed into
   * bits 8-31, with the same non-clearing behaviour as SetType.
   */
  function SetData(data: bv32, payload: bv32): (r: bv32)
    ensures r & data == data
    ensures r == Pack(IsValid(data), GetType(data), GetData(data) | (payload & DataMask))
  {
    OrDataField(data, payload);
    data | DataField(payload)
  }

  lemma OrDataField(data: bv32, payload: bv32)
    ensures data | DataField(payload) == Pack(IsValid(data), GetType(data), GetData(data) | (payload & DataMask))
  {
    PackFields(data);
  }

  /** The word after caerSpecialEventValidate sets the valid mark: only bit 0 changes. */
  function MarkValid(data: bv32): (r: bv32)
    ensures r == Pack(true, GetType(data), GetData(data))
  {
    PackFields(data);
    data | (1 << ValidMarkShift)
  }

  /** The word after caerSpecialEventInvalidate clears the valid mark: only bit 0 changes. */
  function MarkInvalid(data: bv32): (r: bv32)
    ensures r == Pack(false, GetType(data), GetData(data))
  {
    PackFields(data);
    data & !(1 << ValidMarkShift)
  }

  /** On a zeroed word, SetType then GetType gives back the type masked to 7 bits. */
  lemma SetTypeOnZero(t: bv8)
    ensures GetType(SetType(0, t)) == t & 0x7F
    ensures !IsValid(SetType(0, t)) && GetData(SetType(0, t)) == 0
  {
    assert GetType(0) == 0 && GetData(0) == 0;
  }

  /** On a zeroed word, SetData then GetData gives back the payload masked to 24 bits. */
  lemma SetDataOnZero(payload: bv32)
    ensures GetData(SetData(0, payload)) == payload & DataMask
    ensures !IsValid(SetData(0, payload)) && GetType(SetData(0, payload)) == 0
  {
    assert GetType(0) == 0 && GetData(0) == 0;
  }

  /**
   * Setting type and payload once each on a zeroed word and validating it
   * builds the packed layout of the three fields.
   */
  lemma SetFieldsOnZero(t: bv8, payload: bv32)
    requires t <= 0x7F && payload <= 0xFF_FFFF
    ensures SetData(SetType(0, t), payload) == Pack(false, t, payload)
    ensures MarkValid(SetData(SetType(0, t), payload)) == Pack(true, t, payload)
  {
    var w := SetType(0, t);
    SetTypeOnZero(t);
    assert GetData(w) | (payload & DataMask) == payload;
    var v := SetData(w, payload);
    assert v == Pack(false, t, payload);
  }

  /**
   * Validate then Invalidate restores an invalid word, and Invalidate then
   * Validate restores a valid one.
   */
  lemma MarkRoundTrip(data: bv32)
    ensures !IsValid(data) ==> MarkInvalid(MarkValid(data)) == data
    ensures IsValid(data) ==> MarkValid(MarkInvalid(data)) == data
  {
    PackFields(data);
  }

  /**
   * The setters do not clear before they OR: a second SetType on a slot
   * that already holds a type reads back the OR of both, not the new type.
   */
  lemma SetTypeTwiceMerges(t1: bv8, t2: bv8)
    ensures GetType(SetType(SetType(0, t1), t2)) == (t1 | t2) & 0x7F
  {
    SetTypeOnZero(t1);
  }

  /** caerSpecialEventGetTimestamp: the stored timestamp, as it is. */
  function GetTimestamp(e: Event): int32
  {
    e.timestamp
  }

  /**
   * caerSpecialEventSetTimestamp: a negative value is refused and the old
   * timestamp stays; any other value is stored as it is.
   */
  function SetTimestamp(e: Event, timestamp: int32): (r: Event)
    ensures r.data == e.data
    ensures timestamp >= 0 ==> GetTimestamp(r) == timestamp
    ensures timestamp < 0 ==> r == e
    ensures GetTimestamp(e) >= 0 ==> GetTimestamp(r) >= 0
  {
    if timestamp < 0 then e else e.(timestamp := timestamp)
  }

  /**
   * caerSpecialEventGetTimestamp64: the overflow counter shifted up by 31
   * bits, ORed with the timestamp, both widened with U64T and the result
   * read back with I64T.  A negative timestamp would sign-extend over the
   * counter's bits.
   */
  function GetTimestamp64(timestamp: int32, tsOverflow: int32): int64
  {
    var hi := ShiftLeft(U64(tsOverflow), TsOverflowShift);
    var lo := U64(timestamp);
    Pow2At64();
    OrBound(hi, lo, 64);
    I64(Or(hi, lo))
  }

  /**
   * For a stored (non-negative) timestamp and any int32 counter the 64-bit
   * timestamp is overflow * 2^31 + timestamp: its low 31 bits give back the
   * timestamp and the bits above give back the counter.
   */
  lemma Timestamp64Value(timestamp: int32, overflow: int32)
    requires timestamp >= 0
    ensures GetTimestamp64(timestamp, overflow) == overflow * 0x8000_0000 + timestamp
    ensures GetTimestamp64(timestamp, overflow) % 0x8000_0000 == timestamp
    ensures GetTimestamp64(timestamp, overflow) / 0x8000_0000 == overflow
  {
    Pow2At64();
    var c := U64(overflow) % Pow2(33);
    ShiftKeepsCounter(overflow);
    OrDisjoint(c, timestamp, 31);
    ShlIsMultiply(c, 31);
    var wide := overflow * 0x8000_0000 + timestamp;
    var hi := ShiftLeft(U64(overflow), TsOverflowShift);
    assert Or(hi, U64(timestamp)) == U64(overflow * 0x8000_0000) + timestamp;
    if overflow >= 0 {
      assert U64(overflow * 0x8000_0000) + timestamp == wide < TwoTo63;
    } else {
      assert U64(overflow * 0x8000_0000) + timestamp == wide + TwoTo64 >= TwoTo63;
    }
    assert GetTimestamp64(timestamp, overflow) == wide;
    SplitAt31(overflow, timestamp);
  }

  /** Division by 2^31 takes a value apart into the parts it was built from. */
  lemma SplitAt31(hi: int, lo: nat)
    requires lo < 0x8000_0000
    ensures (hi * 0x8000_0000 + lo) % 0x8000_0000 == lo
    ensures (hi * 0x8000_0000 + lo) / 0x8000_0000 == hi
  {
  }

  /**
   * An int32 counter loses no bits when shifted up by 31 within 64 bits:
   * the shifted uint64 is U64T of overflow * 2^31, which is the counter's
   * low 33 bits (its sign-extended form) moved up by 31 places.
   */
  lemma ShiftKeepsCounter(overflow: int32)
    ensures ShiftLeft(U64(overflow), TsOverflowShift) == U64(overflow * 0x8000_0000)
    ensures ShiftLeft(U64(overflow), TsOverflowShift) == Shl(U64(overflow) % Pow2(33), 31)
  {
    Pow2At64();
    var c := U64(overflow) % Pow2(33);
    ShlIsMultiply(c, 31);
    if overflow >= 0 {
      assert c == overflow;
    } else {
      assert c == overflow + 0x2_0000_0000;
      assert c * 0x8000_0000 == overflow * 0x8000_0000 + TwoTo64;
    }
  }

  /**
   * A negative timestamp sign-extends through U64T, its one-bits cover every
   * bit the counter could occupy, and the result is the timestamp itself
   * whatever the counter.  So a stored negative timestamp would hide the
   * counter; the guard in caerSpecialEventSetTimestamp keeps one from being
   * stored.
   */
  lemma NegativeTimestampHidesOverflow(timestamp: int32, overflow: int32)
    requires timestamp < 0
    ensures GetTimestamp64(timestamp, overflow) == timestamp
  {
    Pow2At64();
    var c := U64(overflow) % Pow2(33);
    var ones := Pow2(33) - 1;
    var low := timestamp + 0x8000_0000;
    ShlIsMultiply(ones, 31);
    assert U64(timestamp) == Shl(ones, 31) + low;
    OrShifted(c, ones, low, 31);
    OrAllOnes(c, 33);
  }
}
