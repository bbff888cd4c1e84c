/**
 * The sample blob store of the storage port
 * (ports/Storage/src/aia_storage_config.c): a fixed table of three byte
 * buffers, each with a capacity and a used length, looked up by key; the
 * shared-secret and alert operations built on it.
 */
module Storage {
  import opened Wrappers
  import opened CStrings
  import opened Bytes
  import opened AlertCodec
  import opened AlertTable

  const SharedSecretKey: CString := "AiaSharedSecretStorageKey"
  const AllAlertsKey: CString := "AiaAllAlertsStorageKey"
  const TopicRootKey: CString := "AiaTopicRootKey"

  /** AIA_BLOB_STORAGE_KEY_MAX and the three entries of `blobstorage_key_e`. */
  const EntryCount: nat := 3
  const SharedSecretEntry: nat := 0
  const AllAlertsEntry: nat := 1
  const TopicRootEntry: nat := 2

  function EntryKey(k: nat): CString
    requires k < EntryCount
  {
    if k == SharedSecretEntry then SharedSecretKey
    else if k == AllAlertsEntry then AllAlertsKey
    else TopicRootKey
  }

  /** BLOBSTORAGE_SHAREDKEY_SIZE, BLOBSTORAGE_ALERTKEY_SIZE, BLOBSTORAGE_TOPICROOT_SIZE */
  function Capacity(k: nat): nat
    requires k < EntryCount
  {
    if k == SharedSecretEntry then 32 else if k == AllAlertsEntry then 64 else 16
  }

  /**
   * The key test of the lookup loops, `strncmp(key, entryKey, strlen(key)) == 0`:
   * it holds exactly when `key` is a prefix of the entry's key.
   */
  predicate KeyMatches(key: CString, entryKey: CString): (r: bool)
    ensures r <==> key <= entryKey
  {
    StrnEqIsPrefix(key, entryKey, '\0');
    StrnEq(key + ['\0'], entryKey + ['\0'], |key|, '\0')
  }

  /** The entry the lookup loop settles on, starting at entry k. */
  function LookupFrom(key: CString, k: nat): (r: nat)
    requires k <= EntryCount
    ensures k <= r <= EntryCount
    ensures r < EntryCount ==> key <= EntryKey(r)
    ensures forall j :: k <= j < r ==> !(key <= EntryKey(j))
    decreases EntryCount - k
  {
    if k == EntryCount || KeyMatches(key, EntryKey(k)) then k else LookupFrom(key, k + 1)
  }

  /** The first entry whose key starts with `key`, or EntryCount when there is none. */
  function Lookup(key: CString): (r: nat)
    ensures r <= EntryCount
    ensures r < EntryCount ==> key <= EntryKey(r)
    ensures forall j :: 0 <= j < r ==> !(key <= EntryKey(j))
  {
    LookupFrom(key, 0)
  }

  /**
   * Each table key selects its own entry, and so does every prefix of the
   * shared-secret key, the empty key included.
   */
  lemma LookupOfTableKeys()
    ensures Lookup(SharedSecretKey) == SharedSecretEntry
    ensures Lookup(AllAlertsKey) == AllAlertsEntry
    ensures Lookup(TopicRootKey) == TopicRootEntry
    ensures forall key: CString :: key <= SharedSecretKey ==> Lookup(key) == SharedSecretEntry
  {
    assert AllAlertsKey[3] != SharedSecretKey[3];
    assert TopicRootKey[3] != SharedSecretKey[3];
    assert TopicRootKey[3] != AllAlertsKey[3];
  }

  /**
   * The alerts entry's 64 bytes hold at most two alerts: storing a token the
   * scan does not find fits exactly while fewer than two slots are taken;
   * updating a found token always fits.
   */
  lemma AlertsCapacity(t: seq<byte>, a: Alert)
    requires Shaped(t) && |t| <= Capacity(AllAlertsEntry) && |a.token| == TOKEN
    ensures Found(t, a.token) ==> |StoredBlob(t, a)| <= Capacity(AllAlertsEntry)
    ensures !Found(t, a.token) ==>
              (|StoredBlob(t, a)| <= Capacity(AllAlertsEntry) <==> NumSlots(t) < 2)
  {
    if Found(t, a.token) {
      StoreUpdatesInPlace(t, a);
    } else {
      StoreInsertsAtFirstEmpty(t, a);
    }
  }

  /** The key loop `for( k = START; k < AIA_BLOB_STORAGE_KEY_MAX; ++k )` of the four blob routines. */
  method FindEntry(key: CString) returns (k: nat)
    ensures k == Lookup(key)
  {
    k := 0;
    while k < EntryCount && !KeyMatches(key, EntryKey(k))
      invariant k <= EntryCount
      invariant forall j :: 0 <= j < k ==> !(key <= EntryKey(j))
    {
      k := k + 1;
    }
  }

  /** The byte loops `p[bytePosition] = (v >> (i * 8))` of AiaStoreAlert, i = 0 .. n-1. */
  method WriteLittleEndian(buf: array<byte>, at: nat, v: nat, n: nat)
    requires at + n <= buf.Length
    modifies buf
    ensures buf[..] == Splice(old(buf[..]), at, LeEncode(v, n))
  {
    var bytePosition := at;
    var i := 0;
    while i < n
      invariant i <= n && bytePosition == at + i
      invariant buf[..] == old(buf[..])[..at] + LeEncode(v, n)[..i] + old(buf[..])[at + i..]
    {
      buf[bytePosition] := ((v / Pow256(i)) % 256) as byte;
      assert LeEncode(v, n)[..i + 1] == LeEncode(v, n)[..i] + [LeEncode(v, n)[i]];
      i := i + 1;
      bytePosition := bytePosition + 1;
    }
  }

  /**
   * The accumulation loops `*x |= buf[bytePosition] << (i * 8)` of
   * AiaLoadAlert, starting from `*x = 0`, with the shifted byte widened to
   * the destination's width (see AlertCodec.DecodeSlot for the loops as
   * written). The byte lanes are disjoint, so each `|=` adds its lane.
   */
  method ReadLittleEndian(buf: array<byte>, at: nat, n: nat) returns (v: nat)
    requires at + n <= buf.Length
    ensures v == LeDecode(buf[at..at + n])
  {
    v := 0;
    var bytePosition := at;
    var i := 0;
    while i < n
      invariant i <= n && bytePosition == at + i
      invariant v == LeDecode(buf[at..at + i])
    {
      assert buf[at..at + i + 1][..i] == buf[at..at + i];
      v := v + buf[bytePosition] as nat * Pow256(i);
      i := i + 1;
      bytePosition := bytePosition + 1;
    }
  }

  /**
   * The scan loop of AiaStoreAlert over the scratch buffer (the alerts blob
   * `t` followed by one zeroed slot): it stops at the first slot whose first
   * byte is 0 or whose token compares equal, and reports that slot's offset
   * and whether it was a match.
   */
  method ScanForSlot(allAlertsBuffer: array<byte>, token: seq<byte>, ghost t: seq<byte>)
    returns (startingOffset: nat, updatingExistingAlert: bool)
    requires Shaped(t) && allAlertsBuffer[..] == t + Zeros(SLOT)
    ensures startingOffset == Scan(t, token) * SLOT
    ensures updatingExistingAlert == Found(t, token)
  {
    var alertsBytesWithNewAlert := allAlertsBuffer.Length;
    startingOffset := alertsBytesWithNewAlert - SLOT;
    updatingExistingAlert := false;
    var bytePosition := 0;
    ghost var slot := 0;
    while bytePosition < alertsBytesWithNewAlert
      invariant bytePosition == slot * SLOT && slot <= Scan(t, token)
      invariant !updatingExistingAlert
    {
      startingOffset := bytePosition;
      if allAlertsBuffer[bytePosition] == 0 {
        assert slot < NumSlots(t) ==> StopsAt(t, token, slot);
        break;
      }
      assert slot < NumSlots(t);
      assert allAlertsBuffer[bytePosition..bytePosition + TOKEN] == TokenAt(t, slot);
      if StrnEq(allAlertsBuffer[bytePosition..bytePosition + TOKEN], token, TOKEN, 0) {
        assert StopsAt(t, token, slot);
        updatingExistingAlert := true;
        break;
      }
      bytePosition := bytePosition + SLOT;
      slot := slot + 1;
    }
  }

  /** `s` with the bytes from `at` on overwritten by `x`, as a `memcpy` leaves it. */
  function Splice(s: seq<byte>, at: nat, x: seq<byte>): (r: seq<byte>)
    requires at + |x| <= |s|
    ensures |r| == |s|
  {
    s[..at] + x + s[at + |x|..]
  }

  /** Two writes side by side are one write of both. */
  lemma SpliceAdjacent(s: seq<byte>, at: nat, x: seq<byte>, y: seq<byte>)
    requires at + |x| + |y| <= |s|
    ensures Splice(Splice(s, at, x), at + |x|, y) == Splice(s, at, x + y)
  {
    var l := Splice(Splice(s, at, x), at + |x|, y);
    var r := Splice(s, at, x + y);
    forall i | 0 <= i < |s| ensures l[i] == r[i] {
      if i < at {
      } else if i < at + |x| {
        assert l[i] == x[i - at] == (x + y)[i - at];
      } else if i < at + |x| + |y| {
        assert l[i] == y[i - at - |x|] == (x + y)[i - at];
      }
    }
  }

  /** The token `memcpy` and the three field loops of AiaStoreAlert: one encoded slot at `at`. */
  method WriteSlot(buf: array<byte>, at: nat, a: Alert)
    requires |a.token| == TOKEN && at + SLOT <= buf.Length
    modifies buf
    ensures buf[..] == Splice(old(buf[..]), at, EncodeSlot(a))
  {
    forall i | 0 <= i < TOKEN {
      buf[at + i] := a.token[i];
    }
    assert buf[..] == Splice(old(buf[..]), at, a.token);
    var time, dur, typ := LeEncode(a.scheduledTime, 8), LeEncode(a.duration, 4), [a.alertType];
    WriteLittleEndian(buf, at + TimeAt, a.scheduledTime, 8);
    SpliceAdjacent(old(buf[..]), at, a.token, time);
    WriteLittleEndian(buf, at + DurationAt, a.duration, 4);
    SpliceAdjacent(old(buf[..]), at, a.token + time, dur);
    WriteLittleEndian(buf, at + TypeAt, a.alertType as nat, 1);
    assert LeEncode(a.alertType as nat, 1) == typ;
    SpliceAdjacent(old(buf[..]), at, a.token + time + dur, typ);
  }

  /**
   * The scan loop of AiaDeleteAlert over a copy of the alerts blob `t`: at
   * the first slot whose first byte is 0 it stops; at the first slot whose
   * token compares equal it `memmove`s every later byte one slot to the left
   * and stops.
   */
  method ScanAndRemove(allAlertsBuffer: array<byte>, token: seq<byte>, ghost t: seq<byte>)
    returns (deletingExistingAlert: bool)
    requires Shaped(t) && allAlertsBuffer[..] == t
    modifies allAlertsBuffer
    ensures deletingExistingAlert == Found(t, token)
    ensures deletingExistingAlert ==> |t| >= SLOT && allAlertsBuffer[..|t| - SLOT] == DeletedBlob(t, token)
    ensures !deletingExistingAlert ==> allAlertsBuffer[..] == t
  {
    var allAlertsBytes := allAlertsBuffer.Length;
    deletingExistingAlert := false;
    var bytePosition := 0;
    ghost var slot := 0;
    while bytePosition < allAlertsBytes
      invariant bytePosition == slot * SLOT && slot <= Scan(t, token)
      invariant !deletingExistingAlert && allAlertsBuffer[..] == t
    {
      if allAlertsBuffer[bytePosition] == 0 {
        assert slot < NumSlots(t) ==> StopsAt(t, token, slot);
        break;
      }
      assert slot < NumSlots(t);
      assert allAlertsBuffer[bytePosition..bytePosition + TOKEN] == TokenAt(t, slot);
      if StrnEq(allAlertsBuffer[bytePosition..bytePosition + TOKEN], token, TOKEN, 0) {
        assert StopsAt(t, token, slot);
        ShiftLeftOneSlot(allAlertsBuffer, bytePosition);
        assert DeletedBlob(t, token) == t[..bytePosition] + t[bytePosition + SLOT..];
        deletingExistingAlert := true;
        break;
      }
      bytePosition := bytePosition + SLOT;
      slot := slot + 1;
    }
  }

  /**
   * The `memmove` of AiaDeleteAlert: every byte after the slot at `at` moves
   * one slot to the left.
   */
  method ShiftLeftOneSlot(buf: array<byte>, at: nat)
    requires at + SLOT <= buf.Length
    modifies buf
    ensures buf[..buf.Length - SLOT] == old(buf[..at]) + old(buf[at + SLOT..])
  {
    forall i | at <= i < buf.Length - SLOT {
      buf[i] := buf[i + SLOT];
    }
  }

  /**
   * AiaLoadAlert: decode the slot at the front of `allAlertsBuffer`. A null
   * pointer is an absent array or a false `has…` flag; the three numeric
   * out-parameters are the method's results. The scheduled time is read with
   * a 64-bit accumulator (AlertCodec.DecodeSlotWide).
   */
  method LoadAlert(alertToken: array?<byte>, alertTokenLen: nat,
                   hasScheduledTime: bool, hasDuration: bool, hasAlertType: bool,
                   allAlertsBuffer: array?<byte>)
    returns (ok: bool, scheduledTime: uint64, duration: uint32, alertType: byte)
    requires alertToken != null && alertTokenLen == TOKEN ==> alertToken.Length >= TOKEN
    requires allAlertsBuffer != null && alertTokenLen == TOKEN ==> allAlertsBuffer.Length >= SLOT
    requires alertToken == null || alertToken != allAlertsBuffer
    modifies alertToken
    ensures ok <==> alertToken != null && hasScheduledTime && hasDuration && hasAlertType
                    && allAlertsBuffer != null && alertTokenLen == TOKEN
    ensures ok ==> Alert(alertToken[..TOKEN], scheduledTime, duration, alertType)
                   == DecodeSlotWide(allAlertsBuffer[..SLOT])
    ensures ok ==> alertToken[TOKEN..] == old(alertToken[TOKEN..])
    ensures !ok && alertToken != null ==> alertToken[..] == old(alertToken[..])
  {
    scheduledTime, duration, alertType := 0, 0, 0;
    if alertToken == null || !hasScheduledTime || !hasDuration || !hasAlertType
       || allAlertsBuffer == null || alertTokenLen != TOKEN {
      return false, scheduledTime, duration, alertType;
    }
    ghost var slot := allAlertsBuffer[..SLOT];
    forall i | 0 <= i < alertTokenLen {
      alertToken[i] := allAlertsBuffer[i];
    }
    assert alertToken[..TOKEN] == slot[..TOKEN];
    var bytePosition := alertTokenLen;
    var v := ReadLittleEndian(allAlertsBuffer, bytePosition, 8);
    assert v == LeDecode(slot[TimeAt..TimeAt + 8]) by {
      assert allAlertsBuffer[TimeAt..TimeAt + 8] == slot[TimeAt..TimeAt + 8];
    }
    assert Pow256(8) == TwoTo64 && Pow256(4) == TwoTo32;
    scheduledTime := scheduledTime + v;
    bytePosition := bytePosition + 8;
    v := ReadLittleEndian(allAlertsBuffer, bytePosition, 4);
    assert v == LeDecode(slot[DurationAt..DurationAt + 4]) by {
      assert allAlertsBuffer[DurationAt..DurationAt + 4] == slot[DurationAt..DurationAt + 4];
    }
    duration := duration + v;
    bytePosition := bytePosition + 4;
    v := ReadLittleEndian(allAlertsBuffer, bytePosition, 1);
    assert v == slot[TypeAt] as nat by {
      var one := allAlertsBuffer[TypeAt..TypeAt + 1];
      assert one == [slot[TypeAt]];
      assert LeDecode(one) == LeDecode(one[..0]) + one[0] as nat * Pow256(0);
    }
    alertType := ((alertType as nat + v) % 256) as byte;
    assert allAlertsBuffer[..SLOT] == slot;
    assert DecodeSlotWide(slot).token == alertToken[..TOKEN];
    assert DecodeSlotWide(slot).scheduledTime == scheduledTime;
    assert DecodeSlotWide(slot).duration == duration;
    assert DecodeSlotWide(slot).alertType == alertType;
    return true, scheduledTime, duration, alertType;
  }

  /**
   * The `blobstorage` table. Each entry owns a fixed byte array (its
   * `storage`, whose length is its `capacity`); `usedLen` is the mutable
   * `used_len` column.
   */
  class BlobStorage {
    const sharedKey: array<byte>
    const alertKey: array<byte>
    const topicRoot: array<byte>
    var usedLen: seq<nat>

    function Storage(k: nat): array<byte>
      requires k < EntryCount
    {
      if k == SharedSecretEntry then sharedKey else if k == AllAlertsEntry then alertKey else topicRoot
    }

    function Repr(): set<object> {
      {sharedKey, alertKey, topicRoot}
    }

    predicate Valid()
      reads this
    {
      sharedKey.Length == Capacity(SharedSecretEntry)
      && alertKey.Length == Capacity(AllAlertsEntry)
      && topicRoot.Length == Capacity(TopicRootEntry)
      && sharedKey != alertKey && alertKey != topicRoot && sharedKey != topicRoot
      && |usedLen| == EntryCount
      && forall k :: 0 <= k < EntryCount ==> usedLen[k] <= Capacity(k)
    }

    /** The bytes an entry currently holds: its first `used_len` bytes. */
    function Blob(k: nat): seq<byte>
      requires Valid() && k < EntryCount
      reads this, Repr()
    {
      Storage(k)[..usedLen[k]]
    }

    /** The static initial table: zeroed buffers, the alerts entry holding one byte. */
    constructor ()
      ensures Valid() && fresh(Repr())
      ensures usedLen == [0, 1, 0]
      ensures sharedKey[..] == Zeros(32) && alertKey[..] == Zeros(64) && topicRoot[..] == Zeros(16)
      ensures Blob(AllAlertsEntry) == [0] && WellFormed(Blob(AllAlertsEntry))
    {
      sharedKey := new byte[32](_ => 0);
      alertKey := new byte[64](_ => 0);
      topicRoot := new byte[16](_ => 0);
      usedLen := [0, 1, 0];
    }

    /** AiaStoreBlob */
    method StoreBlob(key: CString, blob: Option<seq<byte>>) returns (ok: bool)
      requires Valid()
      modifies this, Repr()
      ensures Valid()
      ensures ok <==> blob.Some? && Lookup(key) < EntryCount && |blob.value| <= Capacity(Lookup(key))
      ensures ok ==> usedLen == old(usedLen)[Lookup(key) := |blob.value|]
                     && Storage(Lookup(key))[..] == blob.value + old(Storage(Lookup(key))[..])[|blob.value|..]
                     && Blob(Lookup(key)) == blob.value
      ensures !ok ==> usedLen == old(usedLen)
      ensures forall k :: 0 <= k < EntryCount && (!ok || k != Lookup(key)) ==>
                Storage(k)[..] == old(Storage(k)[..])
    {
      if blob.None? {
        return false;
      }
      var k := FindEntry(key);
      if k == EntryCount {
        return false;
      }
      var storage := Storage(k);
      if storage.Length < |blob.value| {
        return false;
      }
      forall i | 0 <= i < |blob.value| {
        storage[i] := blob.value[i];
      }
      usedLen := usedLen[k := |blob.value|];
      assert storage[..] == blob.value + old(storage[..])[|blob.value|..];
      return true;
    }

    /** AiaLoadBlob: copy an entry's used bytes into the caller's buffer of `size` bytes. */
    method LoadBlob(key: CString, blob: array?<byte>, size: nat) returns (ok: bool)
      requires Valid()
      requires blob != null ==> size <= blob.Length && blob !in Repr()
      modifies blob
      ensures ok <==> blob != null && Lookup(key) < EntryCount && usedLen[Lookup(key)] <= size
      ensures ok ==> blob[..] == Blob(Lookup(key)) + old(blob[..])[usedLen[Lookup(key)]..]
      ensures !ok && blob != null ==> blob[..] == old(blob[..])
    {
      if blob == null {
        return false;
      }
      var k := FindEntry(key);
      if k == EntryCount {
        return false;
      }
      if usedLen[k] > size {
        return false;
      }
      var storage := Storage(k);
      forall i | 0 <= i < usedLen[k] {
        blob[i] := storage[i];
      }
      return true;
    }

    /** AiaBlobExists: true for any key that selects an entry, whatever that entry holds. */
    method BlobExists(key: CString) returns (existed: bool)
      ensures existed <==> exists k :: 0 <= k < EntryCount && key <= EntryKey(k)
    {
      var k := FindEntry(key);
      existed := k < EntryCount;
    }

    /** AiaGetBlobSize: the entry's used length, or 0 for a key that selects no entry. */
    method GetBlobSize(key: CString) returns (size: nat)
      requires Valid()
      ensures Lookup(key) < EntryCount ==> size == usedLen[Lookup(key)]
      ensures Lookup(key) == EntryCount ==> size == 0
    {
      var k := FindEntry(key);
      size := if k < EntryCount then usedLen[k] else 0;
    }

    /** AiaStoreSecret */
    method StoreSecret(sharedSecret: Option<seq<byte>>) returns (ok: bool)
      requires Valid()
      modifies this, Repr()
      ensures Valid()
      ensures ok <==> sharedSecret.Some? && |sharedSecret.value| <= Capacity(SharedSecretEntry)
      ensures ok ==> Blob(SharedSecretEntry) == sharedSecret.value
                     && usedLen == old(usedLen)[SharedSecretEntry := |sharedSecret.value|]
      ensures !ok ==> usedLen == old(usedLen) && sharedKey[..] == old(sharedKey[..])
      ensures alertKey[..] == old(alertKey[..]) && topicRoot[..] == old(topicRoot[..])
    {
      LookupOfTableKeys();
      ok := StoreBlob(SharedSecretKey, sharedSecret);
      assert Storage(AllAlertsEntry) == alertKey && Storage(TopicRootEntry) == topicRoot;
      assert Storage(SharedSecretEntry) == sharedKey;
    }

    /** AiaLoadSecret */
    method LoadSecret(sharedSecret: array?<byte>, size: nat) returns (ok: bool)
      requires Valid()
      requires sharedSecret != null ==> size <= sharedSecret.Length && sharedSecret !in Repr()
      modifies sharedSecret
      ensures ok <==> sharedSecret != null && usedLen[SharedSecretEntry] <= size
      ensures ok ==> sharedSecret[..] == Blob(SharedSecretEntry) + old(sharedSecret[..])[usedLen[SharedSecretEntry]..]
      ensures !ok && sharedSecret != null ==> sharedSecret[..] == old(sharedSecret[..])
    {
      LookupOfTableKeys();
      ok := LoadBlob(SharedSecretKey, sharedSecret, size);
    }

    /** AiaAlertsBlobExists: the alerts key is always in the table. */
    method AlertsBlobExists() returns (existed: bool)
      ensures existed
    {
      existed := BlobExists(AllAlertsKey);
      LookupOfTableKeys();
      assert AllAlertsKey <= EntryKey(AllAlertsEntry);
    }

    /** AiaGetAlertsSize */
    method GetAlertsSize() returns (size: nat)
      requires Valid()
      ensures size == |Blob(AllAlertsEntry)|
    {
      LookupOfTableKeys();
      size := GetBlobSize(AllAlertsKey);
    }

    /**
     * AiaLoadAlerts. The not-exists branch answers `size == 0`; the alerts key
     * is always in the table, so the result is that of loading its blob.
     */
    method LoadAlerts(allAlerts: array?<byte>, size: nat) returns (ok: bool)
      requires Valid()
      requires allAlerts != null ==> size <= allAlerts.Length && allAlerts !in Repr()
      modifies allAlerts
      ensures ok <==> allAlerts != null && |Blob(AllAlertsEntry)| <= size
      ensures ok ==> allAlerts[..] == Blob(AllAlertsEntry) + old(allAlerts[..])[|Blob(AllAlertsEntry)|..]
      ensures !ok && allAlerts != null ==> allAlerts[..] == old(allAlerts[..])
    {
      var existed := AlertsBlobExists();
      if !existed {
        return size == 0;
      }
      LookupOfTableKeys();
      ok := LoadBlob(AllAlertsKey, allAlerts, size);
    }
  
    /**
     * AiaStoreAlert: read the alerts blob into a scratch buffer one slot
     * longer (zeroed by the allocator), scan it slot by slot for the first
     * slot that is empty or holds the token, write the record there and store
     * the buffer back, at the old length when the token was found and one slot
     * longer otherwise. `allocSucceeds` stands for the allocator's answer.
     */
    method StoreAlert(alertToken: Option<seq<byte>>, scheduledTime: uint64, duration: uint32,
                      alertType: byte, allocSucceeds: bool) returns (ok: bool)
      requires Valid() && Shaped(Blob(AllAlertsEntry))
      modifies this, Repr()
      ensures Valid()
      ensures ok <==> alertToken.Some? && |alertToken.value| == TOKEN && allocSucceeds
                      && |StoredBlob(old(Blob(AllAlertsEntry)),
                                     Alert(alertToken.value, scheduledTime, duration, alertType))|
                         <= Capacity(AllAlertsEntry)
      ensures ok ==> var c := StoredBlob(old(Blob(AllAlertsEntry)),
                                         Alert(alertToken.value, scheduledTime, duration, alertType));
                     Blob(AllAlertsEntry) == c
                     && usedLen == old(usedLen)[AllAlertsEntry := |c|]
                     && alertKey[..] == c + old(alertKey[..])[|c|..]
      ensures !ok ==> usedLen == old(usedLen) && alertKey[..] == old(alertKey[..])
      ensures sharedKey[..] == old(sharedKey[..]) && topicRoot[..] == old(topicRoot[..])
    {
      if alertToken.None? {
        return false;
      }
      var token := alertToken.value;
      if |token| != TOKEN {
        return false;
      }
      var allAlertsBytes := GetAlertsSize();
      var alertsBytesWithNewAlert := allAlertsBytes + SLOT;
      var startingOffset := allAlertsBytes;
      var updatingExistingAlert := false;
      if !allocSucceeds {
        return false;
      }
      var allAlertsBuffer := new byte[alertsBytesWithNewAlert](_ => 0);
      var loaded := LoadAlerts(allAlertsBuffer, allAlertsBytes);
      if !loaded {
        return false;
      }
      ghost var t := Blob(AllAlertsEntry);
      assert allAlertsBuffer[..] == t + Zeros(SLOT);
      var a := Alert(token, scheduledTime, duration, alertType);

      startingOffset, updatingExistingAlert := ScanForSlot(allAlertsBuffer, token, t);
      if startingOffset == alertsBytesWithNewAlert {
        return false;
      }
      WriteSlot(allAlertsBuffer, startingOffset, a);

      var storeSize := if updatingExistingAlert then allAlertsBytes else alertsBytesWithNewAlert;
      assert allAlertsBuffer[..storeSize] == StoredBlob(t, a);
      LookupOfTableKeys();
      ok := StoreBlob(AllAlertsKey, Some(allAlertsBuffer[..storeSize]));
      assert Storage(SharedSecretEntry) == sharedKey && Storage(TopicRootEntry) == topicRoot;
      assert Storage(AllAlertsEntry) == alertKey;
    }
  
    /**
     * AiaDeleteAlert: read the alerts blob into a scratch buffer, remove the
     * token's slot if the scan finds it, and store the buffer back, one slot
     * shorter after a removal and unchanged otherwise.
     */
    method DeleteAlert(alertToken: Option<seq<byte>>, allocSucceeds: bool) returns (ok: bool)
      requires Valid() && Shaped(Blob(AllAlertsEntry))
      modifies this, Repr()
      ensures Valid()
      ensures ok <==> alertToken.Some? && |alertToken.value| == TOKEN && allocSucceeds
      ensures ok ==> var d := DeletedBlob(old(Blob(AllAlertsEntry)), alertToken.value);
                     Blob(AllAlertsEntry) == d
                     && usedLen == old(usedLen)[AllAlertsEntry := |d|]
                     && alertKey[..] == d + old(alertKey[..])[|d|..]
      ensures !ok ==> usedLen == old(usedLen) && alertKey[..] == old(alertKey[..])
      ensures sharedKey[..] == old(sharedKey[..]) && topicRoot[..] == old(topicRoot[..])
    {
      if alertToken.None? {
        return false;
      }
      var token := alertToken.value;
      if |token| != TOKEN {
        return false;
      }
      var allAlertsBytes := GetAlertsSize();
      var deletingExistingAlert := false;
      if !allocSucceeds {
        return false;
      }
      var allAlertsBuffer := new byte[allAlertsBytes](_ => 0);
      var loaded := LoadAlerts(allAlertsBuffer, allAlertsBytes);
      if !loaded {
        return false;
      }
      ghost var t := Blob(AllAlertsEntry);
      assert allAlertsBuffer[..] == t;

      deletingExistingAlert := ScanAndRemove(allAlertsBuffer, token, t);

      var storeSize: nat := if deletingExistingAlert then allAlertsBytes - SLOT else allAlertsBytes;
      assert allAlertsBuffer[..storeSize] == DeletedBlob(t, token);
      LookupOfTableKeys();
      ok := StoreBlob(AllAlertsKey, Some(allAlertsBuffer[..storeSize]));
      assert Storage(SharedSecretEntry) == sharedKey && Storage(TopicRootEntry) == topicRoot;
      assert Storage(AllAlertsEntry) == alertKey;
    }
  }
}
