/**
 * Layout of one alert slot in the alerts blob: the token bytes, the scheduled
 * time as 8 little-endian bytes, the duration as 4 little-endian bytes and the
 * alert type as 1 byte (ports/Storage/src/aia_storage_config.c, AiaStoreAlert
 * and AiaLoadAlert).
 */
module AlertCodec {
  import opened Bytes
  import opened CStrings

  /**
   * AIA_ALERT_TOKEN_CHARS. Its header belongs to the client SDK, which is not
   * part of this model; 16 is used here. Nothing below depends on the value
   * except the capacity arithmetic of the alerts entry.
   */
  const TOKEN: nat := 16

  /** AIA_SIZE_OF_ALERT_IN_BYTES: token, uint64 time, uint32 duration, uint8 type. */
  const SLOT: nat := 29

  /** Offsets of the three numeric fields inside a slot. */
  const TimeAt: nat := TOKEN
  const DurationAt: nat := TOKEN + 8
  const TypeAt: nat := TOKEN + 12

  /** One persisted alert: AiaTimepointSeconds_t, AiaDurationMs_t and a uint8_t type. */
  datatype Alert = Alert(token: seq<byte>, scheduledTime: uint64, duration: uint32, alertType: byte)

  /** A token the table can hold: exactly TOKEN bytes, none of them NUL. */
  predicate ValidToken(t: seq<byte>) {
    |t| == TOKEN && NoNul(t, 0 as byte)
  }

  /** The bytes AiaStoreAlert writes into the slot it chose. */
  function EncodeSlot(a: Alert): (s: seq<byte>)
    requires |a.token| == TOKEN
    ensures |s| == SLOT
  {
    a.token + LeEncode(a.scheduledTime, 8) + LeEncode(a.duration, 4) + [a.alertType]
  }

  /**
   * `(unsigned)b << (8 * i)` as AiaLoadAlert writes it. For i >= 4 the shift
   * count reaches the width of `unsigned`, which C leaves undefined; this
   * model reads such a shift as dropping every bit past bit 31.
   */
  function UnsignedShl(b: byte, i: nat): nat {
    (b as nat * Pow256(i)) % TwoTo32
  }

  function Min(a: nat, b: nat): nat {
    if a < b then a else b
  }

  /** Shifts by 0, 8, 16 or 24 bits lose nothing. */
  lemma ShlLow(b: byte, i: nat)
    requires i < 4
    ensures UnsignedShl(b, i) == b as nat * Pow256(i)
  {
    assert Pow256(i) <= Pow256(3) by {
      if i < 3 { Pow256Add(i, 3 - i); MulMono(1, Pow256(3 - i), Pow256(i)); }
    }
    MulMono(b as int, 255, Pow256(i));
    MulMono(Pow256(i), Pow256(3), 255);
    DivModUnique(b as nat * Pow256(i), TwoTo32, 0, b as nat * Pow256(i));
  }

  /** Shifts by 32 bits or more leave nothing in an `unsigned`. */
  lemma ShlHigh(b: byte, i: nat)
    requires i >= 4
    ensures UnsignedShl(b, i) == 0
  {
    Pow256Add(4, i - 4);
    assert b as nat * Pow256(i) == (b as nat * Pow256(i - 4)) * TwoTo32;
    DivModUnique(b as nat * Pow256(i), TwoTo32, b as nat * Pow256(i - 4), 0);
  }

  /**
   * The value the loop `v |= (unsigned)s[i] << (8 * i)` builds from `v == 0`.
   * The byte lanes are disjoint, so each `|=` adds. Only the first four bytes
   * survive.
   */
  function AccumulateUnsigned(s: seq<byte>): (r: nat)
    ensures r == LeDecode(s[..Min(|s|, 4)])
    ensures r < TwoTo32
  {
    Pow256Mono(Min(|s|, 4), 4);
    if s == [] then 0
    else
      var k := |s| - 1;
      assert s[..k][..Min(k, 4)] == s[..Min(k, 4)];
      if k < 4 then
        ShlLow(s[k], k);
        assert s[..k + 1][..k] == s[..k];
        AccumulateUnsigned(s[..k]) + UnsignedShl(s[k], k)
      else
        ShlHigh(s[k], k);
        AccumulateUnsigned(s[..k]) + UnsignedShl(s[k], k)
  }

  /**
   * What AiaLoadAlert reads out of a slot, as written: the scheduled time
   * keeps only its low four bytes.
   */
  function DecodeSlot(slot: seq<byte>): (a: Alert)
    requires |slot| >= SLOT
    ensures a.token == slot[..TOKEN]
    ensures a.scheduledTime == LeDecode(slot[TimeAt..TimeAt + 4])
    ensures a.duration == LeDecode(slot[DurationAt..DurationAt + 4])
    ensures a.alertType == slot[TypeAt]
  {
    assert slot[TimeAt..TimeAt + 8][..4] == slot[TimeAt..TimeAt + 4];
    assert slot[DurationAt..DurationAt + 4][..4] == slot[DurationAt..DurationAt + 4];
    assert Pow256(4) == TwoTo32;
    Alert(slot[..TOKEN],
          AccumulateUnsigned(slot[TimeAt..TimeAt + 8]),
          AccumulateUnsigned(slot[DurationAt..DurationAt + 4]),
          slot[TypeAt])
  }

  /** Decoding with a 64-bit accumulator, as the shift at line 436 evidently intends. */
  function DecodeSlotWide(slot: seq<byte>): (a: Alert)
    requires |slot| >= SLOT
    ensures a.token == slot[..TOKEN]
    ensures a.scheduledTime == LeDecode(slot[TimeAt..TimeAt + 8])
    ensures a.duration == LeDecode(slot[DurationAt..DurationAt + 4])
    ensures a.alertType == slot[TypeAt]
  {
    assert Pow256(8) == TwoTo64 && Pow256(4) == TwoTo32;
    Alert(slot[..TOKEN],
          LeDecode(slot[TimeAt..TimeAt + 8]),
          LeDecode(slot[DurationAt..DurationAt + 4]),
          slot[TypeAt])
  }

  lemma EncodeSlotFields(a: Alert)
    requires |a.token| == TOKEN
    ensures EncodeSlot(a)[..TOKEN] == a.token
    ensures EncodeSlot(a)[TimeAt..TimeAt + 8] == LeEncode(a.scheduledTime, 8)
    ensures EncodeSlot(a)[DurationAt..DurationAt + 4] == LeEncode(a.duration, 4)
    ensures EncodeSlot(a)[TypeAt] == a.alertType
  {
  }

  /**
   * Storing then loading an alert gives it back, except that the scheduled
   * time comes back modulo 2^32.
   */
  lemma DecodeEncodeKeepsLow32(a: Alert)
    requires |a.token| == TOKEN
    ensures DecodeSlot(EncodeSlot(a)) == a.(scheduledTime := a.scheduledTime % TwoTo32)
  {
    var s := EncodeSlot(a);
    EncodeSlotFields(a);
    assert s[TimeAt..TimeAt + 4] == LeEncode(a.scheduledTime, 8)[..4];
    LeEncodePrefix(a.scheduledTime, 8, 4);
    LeDecodeEncode(a.scheduledTime, 4);
    LeRoundTrip(a.duration, 4);
  }

  /** The round trip of the slot format, for every time below 2^32. */
  lemma RoundTrip(a: Alert)
    requires |a.token| == TOKEN && a.scheduledTime < TwoTo32
    ensures DecodeSlot(EncodeSlot(a)) == a
  {
    DecodeEncodeKeepsLow32(a);
    DivModUnique(a.scheduledTime, TwoTo32, 0, a.scheduledTime);
  }

  /**
   * An alert scheduled 2^32 seconds after the NTP epoch (February 2036)
   * loads back with time 0.
   */
  lemma HighTimeBytesLost(a: Alert)
    requires |a.token| == TOKEN && a.scheduledTime == TwoTo32
    ensures DecodeSlot(EncodeSlot(a)).scheduledTime == 0 != a.scheduledTime
  {
    DecodeEncodeKeepsLow32(a);
  }

  /** With a 64-bit accumulator every alert round-trips. */
  lemma WideRoundTrip(a: Alert)
    requires |a.token| == TOKEN
    ensures DecodeSlotWide(EncodeSlot(a)) == a
  {
    EncodeSlotFields(a);
    LeRoundTrip(a.scheduledTime, 8);
    LeRoundTrip(a.duration, 4);
  }
}
