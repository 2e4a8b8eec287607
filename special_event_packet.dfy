/**
 * A special event packet: the header fields this part of libcaer reads and
 * writes (capacity, timestamp overflow, event number, valid event number)
 * and a fixed-capacity array of records, changed in place.
 *
 * A record pointer, `packet->events + n` in libcaer, is modelled as the
 * index n into the packet's array; the record operations therefore take
 * the packet and an index.
 */
module SpecialEventPacket {

  import opened CInt
  import opened SpecialEvent

  datatype Option<T> = None | Some(value: T)

  /** 1 for a record whose valid mark is set, 0 otherwise. */
  function Indicator(e: Event): nat
  {
    if IsValid(e.data) then 1 else 0
  }

  /** The number of records whose valid mark is set. */
  function CountValid(s: seq<Event>): (n: nat)
    ensures n <= |s|
  {
    if s == [] then 0 else Indicator(s[0]) + CountValid(s[1..])
  }

  /**
   * Replacing one record changes the count of valid records by the change
   * in that record's valid mark and by nothing else.
   */
  lemma {:induction false} CountValidUpdate(s: seq<Event>, i: nat, e: Event)
    requires i < |s|
    ensures CountValid(s[i := e]) + Indicator(s[i]) == CountValid(s) + Indicator(e)
  {
    if i > 0 {
      CountValidUpdate(s[1..], i - 1, e);
      assert s[i := e][1..] == s[1..][i - 1 := e];
    }
  }

  /** A freshly allocated packet holds no valid record. */
  lemma {:induction false} CountValidZero(s: seq<Event>)
    requires forall k :: 0 <= k < |s| ==> s[k] == Zero
    ensures CountValid(s) == 0
  {
    if s != [] {
      CountValidZero(s[1..]);
    }
  }

  class Packet {
    /** The number of record slots, fixed when the packet is allocated. */
    const capacity: int32
    /** The header's timestamp overflow counter, read-only here. */
    const tsOverflow: int32
    /** Records ever validated in this packet. */
    var eventNumber: int32
    /** Records currently valid. */
    var eventValid: int32
    const events: array<Event>

    /**
     * The header agrees with the records: eventValid counts the valid
     * records and never exceeds eventNumber; and no stored timestamp is
     * negative.
     */
    ghost predicate Valid()
      reads this, events
    {
      events.Length == capacity &&
      0 <= eventValid <= eventNumber &&
      eventValid == CountValid(events[..]) &&
      forall k :: 0 <= k < events.Length ==> events[k].timestamp >= 0
    }

    /** Stands for caerSpecialEventPacketAllocate: every slot zeroed, both counters 0. */
    constructor (capacity: int32, tsOverflow: int32)
      requires capacity >= 0
      ensures Valid() && fresh(events)
      ensures this.capacity == capacity && this.tsOverflow == tsOverflow
      ensures eventNumber == 0 && eventValid == 0
      ensures forall k :: 0 <= k < events.Length ==> events[k] == Zero
    {
      this.capacity := capacity;
      this.tsOverflow := tsOverflow;
      eventNumber := 0;
      eventValid := 0;
      events := new Event[capacity](_ => Zero);
      new;
      CountValidZero(events[..]);
    }

    /**
     * caerSpecialEventPacketGetEvent: the record at offset n, or nothing when
     * n lies outside [0, capacity).  Only the capacity is consulted, so
     * records that were never validated, or were invalidated, stay reachable.
     */
    method GetEvent(n: int32) returns (r: Option<nat>)
      requires Valid()
      ensures r.None? <==> n < 0 || n >= capacity
      ensures r.Some? ==> r.value == n && r.value < events.Length
    {
      if n < 0 || n >= capacity {
        return None;
      }
      return Some(n);
    }

    /**
     * caerSpecialEventGetTimestamp64 on record i: the header's overflow
     * counter supplies the bits above the record's 31-bit timestamp.
     */
    function Timestamp64(i: nat): (t: int64)
      reads this, events
      requires Valid() && i < events.Length
      ensures t == tsOverflow * 0x8000_0000 + events[i].timestamp
      ensures t % 0x8000_0000 == events[i].timestamp && t / 0x8000_0000 == tsOverflow
    {
      Timestamp64Value(events[i].timestamp, tsOverflow);
      GetTimestamp64(events[i].timestamp, tsOverflow)
    }

    /** caerSpecialEventSetType on record i: the type is ORed into bits 1-7. */
    method SetType(i: nat, t: bv8)
      requires Valid() && i < events.Length
      modifies events
      ensures Valid()
      ensures events[..] == old(events[..])[i := old(events[i]).(data := SpecialEvent.SetType(old(events[i].data), t))]
    {
      var e := events[i];
      events[i] := e.(data := SpecialEvent.SetType(e.data, t));
      CountValidUpdate(old(events[..]), i, events[i]);
    }

    /** caerSpecialEventSetData on record i: the payload is ORed into bits 8-31. */
    method SetData(i: nat, payload: bv32)
      requires Valid() && i < events.Length
      modifies events
      ensures Valid()
      ensures events[..] == old(events[..])[i := old(events[i]).(data := SpecialEvent.SetData(old(events[i].data), payload))]
    {
      var e := events[i];
      events[i] := e.(data := SpecialEvent.SetData(e.data, payload));
      CountValidUpdate(old(events[..]), i, events[i]);
    }

    /** caerSpecialEventSetTimestamp on record i: a negative timestamp leaves the record as it was. */
    method SetTimestamp(i: nat, timestamp: int32)
      requires Valid() && i < events.Length
      modifies events
      ensures Valid()
      ensures events[..] == old(events[..])[i := SpecialEvent.SetTimestamp(old(events[i]), timestamp)]
      ensures timestamp < 0 ==> events[..] == old(events[..])
    {
      if timestamp < 0 {
        return;
      }
      events[i] := events[i].(timestamp := timestamp);
      CountValidUpdate(old(events[..]), i, events[i]);
    }

    /**
     * caerSpecialEventValidate on record i.  An invalid record gets its valid
     * mark, and eventNumber and eventValid each go up by one; on a record
     * that is already valid nothing changes.
     */
    method Validate(i: nat)
      requires Valid() && i < events.Length
      requires !IsValid(events[i].data) ==> eventNumber < Int32Max
      modifies this, events
      ensures Valid()
      ensures old(IsValid(events[i].data)) ==>
        events[..] == old(events[..]) && eventNumber == old(eventNumber) && eventValid == old(eventValid)
      ensures !old(IsValid(events[i].data)) ==>
        events[..] == old(events[..])[i := old(events[i]).(data := MarkValid(old(events[i].data)))] &&
        eventNumber == old(eventNumber) + 1 && eventValid == old(eventValid) + 1
    {
      var e := events[i];
      if !IsValid(e.data) {
        events[i] := e.(data := MarkValid(e.data));
        CountValidUpdate(old(events[..]), i, events[i]);
        eventNumber := eventNumber + 1;
        eventValid := eventValid + 1;
      }
    }

    /**
     * caerSpecialEventInvalidate on record i.  A valid record loses its valid
     * mark and eventValid goes down by one, while eventNumber stays; on a
     * record that is already invalid nothing changes.
     */
    method Invalidate(i: nat)
      requires Valid() && i < events.Length
      modifies this, events
      ensures Valid()
      ensures !old(IsValid(events[i].data)) ==>
        events[..] == old(events[..]) && eventNumber == old(eventNumber) && eventValid == old(eventValid)
      ensures old(IsValid(events[i].data)) ==>
        events[..] == old(events[..])[i := old(events[i]).(data := MarkInvalid(old(events[i].data)))] &&
        eventNumber == old(eventNumber) && eventValid == old(eventValid) - 1
    {
      var e := events[i];
      if IsValid(e.data) {
        events[i] := e.(data := MarkInvalid(e.data));
        CountValidUpdate(old(events[..]), i, events[i]);
        eventValid := eventValid - 1;
      }
    }
  }

  /**
   * A producer's round on a packet of capacity 4 with overflow counter 0:
   * record 0 becomes a timestamp-reset marker with payload 0 at time 1000
   * and is validated, then invalidated.  Slot 4 is out of range.
   */
  method ResetMarkerRound() returns (outOfRange: bool, ts64: int64, numberValidated: int32,
                                     validValidated: int32, numberAfter: int32, validAfter: int32)
    ensures outOfRange
    ensures ts64 == 1000
    ensures numberValidated == 1 && validValidated == 1
    ensures numberAfter == 1 && validAfter == 0
  {
    var p := new Packet(4, 0);
    var slot := p.GetEvent(0);
    var none := p.GetEvent(4);
    outOfRange := none.None?;
    var i := slot.value;
    p.SetType(i, TimestampReset);
    p.SetData(i, 0);
    p.SetTimestamp(i, 1000);
    SetFieldsOnZero(TimestampReset, 0);
    p.Validate(i);
    numberValidated, validValidated := p.eventNumber, p.eventValid;
    assert GetType(p.events[i].data) == TimestampReset && IsValid(p.events[i].data);
    Timestamp64Value(p.events[i].timestamp, p.tsOverflow);
    ts64 := GetTimestamp64(p.events[i].timestamp, p.tsOverflow);
    p.Invalidate(i);
    numberAfter, validAfter := p.eventNumber, p.eventValid;
  }

  /**
   * eventNumber counts validations, not slots: validating, invalidating and
   * validating again the one slot of a one-slot packet leaves eventNumber at
   * 2, above the capacity.
   */
  method RevalidateOneSlot() returns (capacity: int32, number: int32, valid: int32)
    ensures capacity == 1 && number == 2 && valid == 1
    ensures number > capacity
  {
    var p := new Packet(1, 0);
    p.Validate(0);
    p.Invalidate(0);
    p.Validate(0);
    capacity, number, valid := p.capacity, p.eventNumber, p.eventValid;
  }
}
