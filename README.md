# libcaer special events, in Dafny

This project models the special event record of libcaer and the packet that
holds such records, as defined in `include/events/special.h`.

A special event is an 8-byte record with two parts:

- a 32-bit `data` word that packs a valid mark (bit 0), a 7-bit type (bits 1-7)
  and a 24-bit payload (bits 8-31);
- a signed 32-bit `timestamp`, which the setter keeps non-negative (31 bits).

A packet is an event packet header followed by `capacity` records. The model
keeps four header values:

- `capacity`, fixed;
- `tsOverflow`, the timestamp overflow counter, read-only here;
- `eventNumber`, the number of validations so far;
- `eventValid`, the number of records valid now.

The modules are:

- `CInt` (`c_int.dfy`): the C integer arithmetic the header relies on, written
  out on unbounded integers. This covers `int32_t` and `int64_t`, the `U64T`
  and `I64T` casts (modulo 2^64), a left shift within 64 bits, and bitwise OR
  on naturals.
- `SpecialEvent` (`special_event.dfy`): the pure half of the header.
  - The bit-field constants.
  - The getters `IsValid`, `GetType`, `GetData` and `GetTimestamp`.
  - What each setter does to the word: `SetType` and `SetData` OR bits in
    without clearing first; `MarkValid` and `MarkInvalid` flip bit 0.
  - The timestamp guard `SetTimestamp`.
  - The 64-bit widening `GetTimestamp64`, computed as
    `I64T((U64T(overflow) << 31) | U64T(ts))`.
  - A reference layout `Pack`, against which the getters and setters are
    proved.
- `SpecialEventPacket` (`special_event_packet.dfy`): the class `Packet`. It
  holds the header fields and an `array` of records that its methods change in
  place. Its methods are `GetEvent`, `SetType`, `SetData`, `SetTimestamp`,
  `Validate` and `Invalidate`; `Timestamp64` reads the widened timestamp of a
  record. The packet invariant `Valid()` says three things:
  - `0 <= eventValid <= eventNumber`;
  - `eventValid` is the number of records whose valid mark is set;
  - no stored timestamp is negative.
  Every method keeps this invariant.
- `Wire` (`wire.dfy`): the stored form of a record. This is 8 bytes, `data`
  then `timestamp`, each little-endian (`htole32` / `le32toh`), the timestamp
  in two's complement. The module proves the round trips.

Some constants come from `common.h`, which is not part of this model. The
values used are:

- `VALID_MARK_SHIFT = 0` and `VALID_MARK_MASK = 1`, because the header says bit
  0 is the valid mark;
- `TS_OVERFLOW_SHIFT = 31`, because the header says timestamps are limited to
  31 bits.

A record pointer, `packet->events + n`, is modelled as the index `n` into the
packet's array. So the record operations of `Packet` take an index, and
`GetEvent` returns `Some(n)` or `None` (libcaer's `NULL`).

The code does not keep `eventNumber <= capacity`. `Validate` raises
`eventNumber` on every validation, and its comment at
`include/events/special.h:104` ("Only call this on (still) invalid events!")
asks callers to validate each slot only while it is still unused, but nothing
enforces this. Validating one slot, invalidating it and validating it again
raises `eventNumber` twice, so it can exceed the capacity.
`SpecialEventPacket.RevalidateOneSlot` shows this on a one-slot packet. The
invariant proved is therefore `0 <= eventValid <= eventNumber` together with
the exact count of valid records.

## Model

| member | source | states |
|---|---|---|
| `SpecialEvent.GetType` | include/events/special.h:133-135 | the type read from bits 1-7 always lies in 0..127 |
| `SpecialEvent.GetData` | include/events/special.h:141-143 | the payload read from bits 8-31 always lies below 2^24 |
| `SpecialEvent.IsValid` | include/events/special.h:95-97 | bit 0 of the word; its contract is stated by `Pack` (the mark packed is the mark read) and `PackFields` (the mark read, with type and payload, rebuilds the word) |
| `SpecialEvent.GetTimestamp` | include/events/special.h:73-75 | the stored timestamp as it is; its contract is stated by `SetTimestamp` (a non-negative value set is the value read) and `Wire.DecodeEncode` (the little-endian read gives back the value stored) |
| `SpecialEvent.GetTimestamp64` | include/events/special.h:77-80 | the counter widened with U64T and shifted left by 31, ORed with the widened timestamp and read back with I64T; its contract is stated by `Timestamp64Value` (the value is overflow * 2^31 + ts for a stored timestamp) and `NegativeTimestampHidesOverflow` (a negative timestamp hides the counter) |
| `SpecialEvent.Pack` | include/events/special.h:18-27 | the layout of valid mark, type and payload in one word; `IsValid`, `GetType` and `GetData` read back exactly the three fields packed |
| `SpecialEvent.PackFields` | include/events/special.h:95-143 | every data word is the packing of its own valid mark, type and payload as read by IsValid, GetType and GetData, so the three getters together lose nothing |
| `SpecialEvent.TypeField` | include/events/special.h:138 | the masked and shifted type has no bit outside bits 1-7 |
| `SpecialEvent.DataField` | include/events/special.h:146 | the masked and shifted payload has no bit outside bits 8-31 |
| `SpecialEvent.SetType` | include/events/special.h:137-139 | the new word keeps every bit of the old word (OR without clearing); the valid mark and payload are unchanged; the type read back is the old type OR the new type masked to 7 bits |
| `SpecialEvent.SetData` | include/events/special.h:145-147 | the new word keeps every bit of the old word; the valid mark and type are unchanged; the payload read back is the old payload OR the new one masked to 24 bits |
| `SpecialEvent.MarkValid` | include/events/special.h:101 | setting the valid mark makes the record valid and leaves type and payload as they were |
| `SpecialEvent.MarkInvalid` | include/events/special.h:119 | clearing the valid mark makes the record invalid and leaves type and payload as they were |
| `SpecialEvent.SetTypeOnZero` | include/events/special.h:133-139 | on a zeroed word, SetType then GetType returns the type masked to 7 bits; the word stays invalid with payload 0 |
| `SpecialEvent.SetDataOnZero` | include/events/special.h:141-147 | on a zeroed word, SetData then GetData returns the payload masked to 24 bits; the word stays invalid with type 0 |
| `SpecialEvent.SetFieldsOnZero` | include/events/special.h:99-147 | setting type and payload once each on a zeroed word gives the layout of those fields, and validating it gives the valid layout |
| `SpecialEvent.MarkRoundTrip` | include/events/special.h:99-131 | validate then invalidate gives back an invalid word; invalidate then validate gives back a valid word |
| `SpecialEvent.SetTypeTwiceMerges` | include/events/special.h:137-139 | a second SetType on a slot reads back the OR of both types, not the new one (the setters do not clear) |
| `SpecialEvent.SetTimestamp` | include/events/special.h:83-93 | a non-negative timestamp is stored and read back by GetTimestamp; a negative one leaves the record unchanged; `data` is never touched; a non-negative stored timestamp stays non-negative |
| `SpecialEvent.Timestamp64Value` | include/events/special.h:77-82 | for a non-negative timestamp and every int32 counter, the 64-bit timestamp is overflow * 2^31 + ts; its low 31 bits give back ts, and dividing it by 2^31 gives back the counter |
| `SpecialEvent.ShiftKeepsCounter` | include/events/special.h:79 | shifting any int32 counter, sign-extended by U64T, left by 31 within 64 bits loses no bit: the result is U64T of overflow * 2^31 |
| `SpecialEvent.NegativeTimestampHidesOverflow` | include/events/special.h:77-90 | a negative timestamp sign-extends through U64T and the widened result is the timestamp itself whatever the counter; so a stored negative timestamp would hide the counter, and the setter's guard keeps one from being stored |
| `SpecialEventPacket.CountValidUpdate` | include/events/special.h:99-131 | replacing one record changes the number of valid records by exactly the change in that record's valid mark |
| `SpecialEventPacket.CountValidZero` | include/events/special.h:56 | a packet whose records are all zero holds no valid record |
| `SpecialEventPacket.Packet.constructor` | include/events/special.h:56 | a new packet has the given capacity and overflow counter, all records zeroed (so invalid), both counters 0, and satisfies the packet invariant |
| `SpecialEventPacket.Packet.GetEvent` | include/events/special.h:58-71 | returns nothing exactly when n < 0 or n >= capacity, and otherwise record n; eventNumber and eventValid play no part |
| `SpecialEventPacket.Packet.Timestamp64` | include/events/special.h:77-80 | the widened timestamp of record i is tsOverflow * 2^31 + its timestamp, for every header overflow counter, and both parts can be recovered from it |
| `SpecialEventPacket.Packet.SetType` | include/events/special.h:137-139 | only record i changes, and only its data word, to the OR described by SpecialEvent.SetType; the packet invariant holds |
| `SpecialEventPacket.Packet.SetData` | include/events/special.h:145-147 | only record i changes, and only its data word, to the OR described by SpecialEvent.SetData; the packet invariant holds |
| `SpecialEventPacket.Packet.SetTimestamp` | include/events/special.h:83-93 | a negative timestamp leaves every record unchanged; otherwise only record i's timestamp changes; the invariant (including non-negative timestamps) holds |
| `SpecialEventPacket.Packet.Validate` | include/events/special.h:99-115 | on an invalid record: only its valid mark is set, and eventNumber and eventValid each rise by 1. On a valid record: nothing changes. eventValid still counts the valid records and stays at most eventNumber |
| `SpecialEventPacket.Packet.Invalidate` | include/events/special.h:117-131 | on a valid record: only its valid mark is cleared, eventValid falls by 1, and eventNumber stays. On an invalid record: nothing changes. The invariant holds |
| `SpecialEventPacket.ResetMarkerRound` | include/events/special.h:58-131 | capacity 4, overflow 0. Slot 4 is out of range. Record 0 is set to type timestamp-reset, payload 0, time 1000, then validated: both counters are 1 and the 64-bit timestamp is 1000. Invalidating it then gives eventValid 0 and eventNumber 1 |
| `SpecialEventPacket.RevalidateOneSlot` | include/events/special.h:99-131 | validate, invalidate and validate again on a one-slot packet leave eventNumber at 2, above the capacity, with eventValid 1 |
| `Wire.WordOfBytes` | include/events/special.h:73-75 | decoding the four little-endian bytes of a word gives the word back |
| `Wire.BytesOfWord` | include/events/special.h:92 | every four bytes are the little-endian encoding of the word they decode to |
| `Wire.SignedBits` | include/events/special.h:44 | every int32_t survives the trip through its two's complement bits |
| `Wire.BitsSigned` | include/events/special.h:44 | every 32-bit pattern is the two's complement of the int32_t it reads as |
| `Wire.EncodeEvent` | include/events/special.h:42-45 | a record is stored in 8 bytes: bytes 0-3 are its data word and bytes 4-7 the two's complement bits of its timestamp, each least significant byte first |
| `Wire.DecodeEvent` | include/events/special.h:73-75 | the `le32toh` reads of a stored record; its contract is stated by `DecodeEncode` and `EncodeDecode`, which make it the inverse of `EncodeEvent` |
| `Wire.DecodeEncode` | include/events/special.h:42-45 | decoding the stored bytes of a record gives the record back |
| `Wire.EncodeDecode` | include/events/special.h:42-45 | every 8 bytes are the stored form of the record they decode to |
| `Wire.FieldsRoundTrip` | include/events/special.h:18-45 | valid mark, type, payload and timestamp all survive a trip through the 8 stored bytes |

## Left out

- The `caerLog` diagnostics and the `LIBCAER_LOG_NONE` switch are left out. They only affect what is observed, so each error path is a plain no-op here.
- `caerSpecialEventPacketAllocate` is only declared in the header, and its body is memory allocation. The `Packet` constructor stands for it: the capacity is fixed, every record is zeroed and both counters start at 0. The event source argument is not modelled.
- The rest of the event packet header (`common.h`) is not part of this model. Only its capacity, overflow counter, event number and valid event number appear, as plain fields.
- Packed memory layout and host byte order: records hold logical 32-bit values, and `Wire` gives their 8-byte little-endian form separately. The packet's own header bytes are not modelled.
- SpecialEventPacket.Packet.Validate: requires `eventNumber < INT32_MAX` when the record is invalid. The source does not handle counter overflow, and the model does not model the wrap-around.
- The meaning of the special event type identifiers (timestamp wrap, reset, external input edges, row-only) is left out. These are labels only; the model declares their values as constants.
- Aliasing of record pointers is not modelled, because a record is named by its index in the packet. Two packets never share records.
