/**
 * The alerts blob as AiaStoreAlert and AiaDeleteAlert see it: a run of
 * SLOT-byte slots, scanned from the front for the first slot that is empty
 * (first byte 0) or holds the requested token. These functions give the blob
 * each operation hands back to the blob store, and the lemmas state what that
 * blob means for the table.
 */
module AlertTable {
  import opened Bytes
  import opened CStrings
  import opened AlertCodec

  /** The zero-filled tail AiaCalloc adds to the scratch buffer. */
  function Zeros(n: nat): (z: seq<byte>)
    ensures |z| == n && forall i :: 0 <= i < n ==> z[i] == 0
  {
    seq(n, _ => 0)
  }

  /** Number of complete slots in the blob. */
  function NumSlots(t: seq<byte>): nat {
    |t| / SLOT
  }

  /**
   * The shape every alerts blob keeps: complete slots, optionally followed by
   * a single 0x00 byte. The alerts entry of the blob table starts out as that
   * one byte.
   */
  predicate Shaped(t: seq<byte>) {
    |t| % SLOT == 0 || (|t| % SLOT == 1 && t[|t| - 1] == 0)
  }

  function SlotBytes(t: seq<byte>, k: nat): seq<byte>
    requires k < NumSlots(t)
  {
    t[k * SLOT .. k * SLOT + SLOT]
  }

  function TokenAt(t: seq<byte>, k: nat): seq<byte>
    requires k < NumSlots(t)
  {
    t[k * SLOT .. k * SLOT + TOKEN]
  }

  /** The complete slots, in order. */
  function Slots(t: seq<byte>): (s: seq<seq<byte>>)
    ensures |s| == NumSlots(t)
  {
    seq(NumSlots(t), k requires 0 <= k < NumSlots(t) => SlotBytes(t, k))
  }

  /**
   * The scan stops at slot k: its first byte is 0, or `strncmp` over TOKEN
   * bytes finds its token equal to `token`.
   */
  predicate StopsAt(t: seq<byte>, token: seq<byte>, k: nat)
    requires k < NumSlots(t)
  {
    t[k * SLOT] == 0 || StrnEq(TokenAt(t, k), token, TOKEN, 0 as byte)
  }

  /** The first slot from k on where the scan stops, or NumSlots(t) if none does. */
  function ScanFrom(t: seq<byte>, token: seq<byte>, k: nat): (r: nat)
    requires k <= NumSlots(t)
    ensures k <= r <= NumSlots(t)
    ensures forall j :: k <= j < r ==> !StopsAt(t, token, j)
    ensures r < NumSlots(t) ==> StopsAt(t, token, r)
    decreases NumSlots(t) - k
  {
    if k == NumSlots(t) || StopsAt(t, token, k) then k else ScanFrom(t, token, k + 1)
  }

  function Scan(t: seq<byte>, token: seq<byte>): (r: nat)
    ensures r <= NumSlots(t)
  {
    ScanFrom(t, token, 0)
  }

  /** Scan is the first slot that stops the scan: no other slot index satisfies that description. */
  lemma ScanIsFirst(t: seq<byte>, token: seq<byte>, k: nat)
    requires k <= NumSlots(t)
    requires forall j :: 0 <= j < k ==> !StopsAt(t, token, j)
    requires k < NumSlots(t) ==> StopsAt(t, token, k)
    ensures Scan(t, token) == k
  {
  }

  /** The scan stopped on a slot holding the token: store updates it, delete removes it. */
  predicate Found(t: seq<byte>, token: seq<byte>) {
    var k := Scan(t, token);
    k < NumSlots(t) && t[k * SLOT] != 0
  }

  /** The blob AiaStoreAlert hands back to the blob store. */
  function StoredBlob(t: seq<byte>, a: Alert): (c: seq<byte>)
    requires |a.token| == TOKEN
  {
    var k := Scan(t, a.token);
    var buffer := t + Zeros(SLOT);
    var written := buffer[..k * SLOT] + EncodeSlot(a) + buffer[k * SLOT + SLOT..];
    if Found(t, a.token) then written[..|t|] else written
  }

  /** The blob AiaDeleteAlert hands back to the blob store. */
  function DeletedBlob(t: seq<byte>, token: seq<byte>): (d: seq<byte>)
  {
    var k := Scan(t, token);
    if Found(t, token) then t[..k * SLOT] + t[k * SLOT + SLOT..] else t
  }

  /**
   * The table invariant: the shape above, every slot holds a valid token,
   * and no token occurs twice.
   */
  predicate WellFormed(t: seq<byte>) {
    Shaped(t)
    && (forall k :: 0 <= k < NumSlots(t) ==> ValidToken(TokenAt(t, k)))
    && (forall j, k :: 0 <= j < k < NumSlots(t) ==> TokenAt(t, j) != TokenAt(t, k))
  }

  /** The token is held by some slot. */
  predicate Present(t: seq<byte>, token: seq<byte>) {
    exists k :: 0 <= k < NumSlots(t) && TokenAt(t, k) == token
  }

  /**
   * In a well-formed table no slot is empty and no slot token holds a NUL, so
   * the scan stops at a slot exactly when that slot holds the token.
   */
  lemma StopsAtIffHolds(t: seq<byte>, token: seq<byte>, k: nat)
    requires WellFormed(t) && |token| == TOKEN && k < NumSlots(t)
    ensures StopsAt(t, token, k) <==> TokenAt(t, k) == token
  {
    assert TokenAt(t, k)[0] == t[k * SLOT];
    assert ValidToken(TokenAt(t, k));
    StrnEqIsEquality(TokenAt(t, k), token, 0 as byte);
  }

  /** So the scan stops exactly at the token's own slot, or runs off the end. */
  lemma FoundIffPresent(t: seq<byte>, token: seq<byte>)
    requires WellFormed(t) && |token| == TOKEN
    ensures Found(t, token) <==> Present(t, token)
    ensures Found(t, token) ==> TokenAt(t, Scan(t, token)) == token
    ensures !Found(t, token) ==> Scan(t, token) == NumSlots(t)
  {
    var k := Scan(t, token);
    if k < NumSlots(t) {
      StopsAtIffHolds(t, token, k);
      assert TokenAt(t, k)[0] == t[k * SLOT];
      assert ValidToken(TokenAt(t, k));
    }
    if Present(t, token) {
      var j :| 0 <= j < NumSlots(t) && TokenAt(t, j) == token;
      StopsAtIffHolds(t, token, j);
    }
  }

  /**
   * Update: the store finds the token in slot k, rewrites that slot and
   * nothing else, and hands back a blob of the same length.
   */
  lemma StoreUpdatesInPlace(t: seq<byte>, a: Alert)
    requires Shaped(t) && |a.token| == TOKEN && Found(t, a.token)
    ensures var k := Scan(t, a.token);
            var c := StoredBlob(t, a);
            |c| == |t| && k < NumSlots(c)
            && SlotBytes(c, k) == EncodeSlot(a)
            && forall i :: 0 <= i < |t| && (i < k * SLOT || k * SLOT + SLOT <= i) ==> c[i] == t[i]
  {
    var k := Scan(t, a.token);
    var c := StoredBlob(t, a);
    var e := EncodeSlot(a);
    assert c == t[..k * SLOT] + e + t[k * SLOT + SLOT..];
    assert c[k * SLOT .. k * SLOT + SLOT] == e;
  }

  /**
   * Insert: the token is not where the scan stopped, so the record goes into
   * the first empty slot (or just past the last complete one), every byte in
   * front of it is kept, and the blob grows by exactly one slot.
   */
  lemma StoreInsertsAtFirstEmpty(t: seq<byte>, a: Alert)
    requires Shaped(t) && |a.token| == TOKEN && !Found(t, a.token)
    ensures var k := Scan(t, a.token);
            var c := StoredBlob(t, a);
            |c| == |t| + SLOT && k < NumSlots(c)
            && (k == NumSlots(t) || t[k * SLOT] == 0)
            && (forall j :: 0 <= j < k ==> t[j * SLOT] != 0)
            && c[..k * SLOT] == t[..k * SLOT]
            && SlotBytes(c, k) == EncodeSlot(a)
            && forall i :: k * SLOT + SLOT <= i < |c| ==> c[i] == (if i < |t| then t[i] else 0)
  {
    var k := Scan(t, a.token);
    var c := StoredBlob(t, a);
    var buffer := t + Zeros(SLOT);
    assert c == buffer[..k * SLOT] + EncodeSlot(a) + buffer[k * SLOT + SLOT..];
    assert c[k * SLOT .. k * SLOT + SLOT] == EncodeSlot(a);
    forall j | 0 <= j < k ensures t[j * SLOT] != 0 {
      assert !StopsAt(t, a.token, j);
    }
  }

  /** Both store outcomes keep the blob's shape. */
  lemma StoreKeepsShape(t: seq<byte>, a: Alert)
    requires Shaped(t) && |a.token| == TOKEN
    ensures Shaped(StoredBlob(t, a))
  {
    var k := Scan(t, a.token);
    var c := StoredBlob(t, a);
    if Found(t, a.token) {
      StoreUpdatesInPlace(t, a);
      if |t| % SLOT == 1 {
        assert c[|c| - 1] == t[|t| - 1];
      }
    } else {
      StoreInsertsAtFirstEmpty(t, a);
      if |t| % SLOT == 1 {
        assert k * SLOT + SLOT <= |c| - 1;
        assert c[|c| - 1] == 0;
      }
    }
  }

  /** Blobs that share their first m slots' bytes share those slots. */
  lemma SlotsFromPrefix(c: seq<byte>, t: seq<byte>, m: nat)
    requires m <= NumSlots(c) && m <= NumSlots(t) && c[..m * SLOT] == t[..m * SLOT]
    ensures forall j :: 0 <= j < m ==> SlotBytes(c, j) == SlotBytes(t, j)
  {
    forall j | 0 <= j < m ensures SlotBytes(c, j) == SlotBytes(t, j) {
      assert SlotBytes(c, j) == c[..m * SLOT][j * SLOT .. j * SLOT + SLOT];
      assert SlotBytes(t, j) == t[..m * SLOT][j * SLOT .. j * SLOT + SLOT];
    }
  }

  /** Blobs whose tails agree from slot p of c and slot q of t share the slots that follow. */
  lemma SlotsFromSuffix(c: seq<byte>, t: seq<byte>, p: nat, q: nat)
    requires p * SLOT <= |c| && q * SLOT <= |t| && c[p * SLOT..] == t[q * SLOT..]
    ensures NumSlots(c) - p == NumSlots(t) - q
    ensures forall j :: p <= j < NumSlots(c) ==> SlotBytes(c, j) == SlotBytes(t, j - p + q)
  {
    assert |c| - p * SLOT == |t| - q * SLOT;
    forall j | p <= j < NumSlots(c) ensures SlotBytes(c, j) == SlotBytes(t, j - p + q) {
      var i := j - p;
      assert j * SLOT == p * SLOT + i * SLOT;
      assert (j - p + q) * SLOT == q * SLOT + i * SLOT;
      assert SlotBytes(c, j) == c[p * SLOT..][i * SLOT .. i * SLOT + SLOT];
      assert SlotBytes(t, j - p + q) == t[q * SLOT..][i * SLOT .. i * SLOT + SLOT];
    }
  }

  /**
   * Insert into a well-formed table: the new record lands right after the
   * last complete slot, every earlier slot is kept in order, and a trailing
   * 0x00 byte stays trailing.
   */
  lemma StoreAppends(t: seq<byte>, a: Alert)
    requires WellFormed(t) && ValidToken(a.token) && !Present(t, a.token)
    ensures var c := StoredBlob(t, a);
            c == t[..NumSlots(t) * SLOT] + EncodeSlot(a) + t[NumSlots(t) * SLOT..]
            && Slots(c) == Slots(t) + [EncodeSlot(a)]
            && c[NumSlots(c) * SLOT..] == t[NumSlots(t) * SLOT..]
  {
    FoundIffPresent(t, a.token);
    StoreInsertsAtFirstEmpty(t, a);
    var n := NumSlots(t);
    var c := StoredBlob(t, a);
    assert NumSlots(c) == n + 1;
    SlotsFromPrefix(c, t, n);
    assert Slots(c) == Slots(t) + [EncodeSlot(a)];
  }

  /**
   * Update in a well-formed table: the token's own slot now holds the new
   * record, every other slot and the trailing byte are kept.
   */
  lemma StoreReplaces(t: seq<byte>, a: Alert, k: nat)
    requires WellFormed(t) && |a.token| == TOKEN
    requires k < NumSlots(t) && TokenAt(t, k) == a.token
    ensures var c := StoredBlob(t, a);
            Slots(c) == Slots(t)[k := EncodeSlot(a)]
            && c[NumSlots(c) * SLOT..] == t[NumSlots(t) * SLOT..]
  {
    ScanFindsSlot(t, a.token, k);
    StoreReplacesFound(t, a);
  }

  /** The slot view of an update: the found slot is replaced, nothing else moves. */
  lemma StoreReplacesFound(t: seq<byte>, a: Alert)
    requires Shaped(t) && |a.token| == TOKEN && Found(t, a.token)
    ensures var c := StoredBlob(t, a);
            Slots(c) == Slots(t)[Scan(t, a.token) := EncodeSlot(a)]
            && c[NumSlots(c) * SLOT..] == t[NumSlots(t) * SLOT..]
  {
    var k := Scan(t, a.token);
    StoreUpdatesInPlace(t, a);
    var c := StoredBlob(t, a);
    assert c[..k * SLOT] == t[..k * SLOT];
    assert c[(k + 1) * SLOT..] == t[(k + 1) * SLOT..];
    SlotsFromPrefix(c, t, k);
    SlotsFromSuffix(c, t, k + 1, k + 1);
    assert Slots(c) == Slots(t)[k := EncodeSlot(a)];
  }

  lemma TokenOfSlot(t: seq<byte>, j: nat)
    requires j < NumSlots(t)
    ensures TokenAt(t, j) == SlotBytes(t, j)[..TOKEN]
  {
  }

  /**
   * The tokens after a store: slot k (the token's old slot, or the new last
   * slot) holds the stored token, every other slot keeps its token.
   */
  lemma TokensAfterStore(t: seq<byte>, a: Alert) returns (k: nat)
    requires WellFormed(t) && ValidToken(a.token)
    ensures Present(t, a.token) ==> k < NumSlots(t) && TokenAt(t, k) == a.token
    ensures !Present(t, a.token) ==> k == NumSlots(t)
    ensures NumSlots(StoredBlob(t, a)) == if k < NumSlots(t) then NumSlots(t) else NumSlots(t) + 1
    ensures SlotBytes(StoredBlob(t, a), k) == EncodeSlot(a)
    ensures forall j :: 0 <= j < NumSlots(StoredBlob(t, a)) ==>
              TokenAt(StoredBlob(t, a), j) == if j == k then a.token else TokenAt(t, j)
  {
    var c := StoredBlob(t, a);
    if Present(t, a.token) {
      k :| 0 <= k < NumSlots(t) && TokenAt(t, k) == a.token;
      StoreReplaces(t, a, k);
    } else {
      k := NumSlots(t);
      StoreAppends(t, a);
    }
    EncodeSlotFields(a);
    assert SlotBytes(c, k) == Slots(c)[k];
    forall j | 0 <= j < NumSlots(c)
      ensures TokenAt(c, j) == if j == k then a.token else TokenAt(t, j)
    {
      TokenOfSlot(c, j);
      assert SlotBytes(c, j) == Slots(c)[j];
      if j != k {
        TokenOfSlot(t, j);
        assert SlotBytes(t, j) == Slots(t)[j];
      }
    }
  }

  /** Storing a record with a valid token keeps the table invariant. */
  lemma StoreKeepsWellFormed(t: seq<byte>, a: Alert)
    requires WellFormed(t) && ValidToken(a.token)
    ensures WellFormed(StoredBlob(t, a))
  {
    var c := StoredBlob(t, a);
    StoreKeepsShape(t, a);
    var k := TokensAfterStore(t, a);
    forall j | 0 <= j < NumSlots(c) ensures ValidToken(TokenAt(c, j)) {
    }
    forall i, j | 0 <= i < j < NumSlots(c) ensures TokenAt(c, i) != TokenAt(c, j) {
      if i == k || j == k {
        var other := if i == k then j else i;
        assert TokenAt(c, other) == TokenAt(t, other);
        if Present(t, a.token) {
          assert TokenAt(t, other) != TokenAt(t, k);
        } else {
          assert TokenAt(t, other) != a.token;
        }
      }
    }
  }

  /**
   * After a store the token is found again, in a slot that decodes to the
   * stored record whenever its time is below 2^32, and always with a 64-bit
   * decoder.
   */
  lemma StoreThenLoad(t: seq<byte>, a: Alert)
    requires WellFormed(t) && ValidToken(a.token)
    ensures var c := StoredBlob(t, a);
            Found(c, a.token)
            && SlotBytes(c, Scan(c, a.token)) == EncodeSlot(a)
            && (a.scheduledTime < TwoTo32 ==> DecodeSlot(SlotBytes(c, Scan(c, a.token))) == a)
            && DecodeSlotWide(SlotBytes(c, Scan(c, a.token))) == a
  {
    var c := StoredBlob(t, a);
    StoreKeepsWellFormed(t, a);
    var k := TokensAfterStore(t, a);
    assert TokenAt(c, k) == a.token;
    assert Present(c, a.token);
    FoundIffPresent(c, a.token);
    assert Scan(c, a.token) == k;
    if a.scheduledTime < TwoTo32 {
      RoundTrip(a);
    }
    WideRoundTrip(a);
  }

  /** A blob is determined by its slots and the bytes after the last complete slot. */
  lemma BlobFromSlots(x: seq<byte>, y: seq<byte>)
    requires Slots(x) == Slots(y)
    requires x[NumSlots(x) * SLOT..] == y[NumSlots(y) * SLOT..]
    ensures x == y
  {
    var n := NumSlots(x);
    assert |x| == |y|;
    forall i | 0 <= i < |x| ensures x[i] == y[i] {
      if i < n * SLOT {
        var j, r := i / SLOT, i % SLOT;
        assert i == j * SLOT + r && j < n;
        assert x[i] == SlotBytes(x, j)[r] == Slots(x)[j][r];
        assert y[i] == SlotBytes(y, j)[r] == Slots(y)[j][r];
      } else {
        assert x[i] == x[n * SLOT..][i - n * SLOT];
        assert y[i] == y[n * SLOT..][i - n * SLOT];
      }
    }
  }

  /**
   * Delete of a found token: every byte after its slot moves one slot to the
   * left and the blob shrinks by exactly one slot. Delete of a token the
   * scan does not find hands back the blob unchanged.
   */
  lemma DeleteShiftsLeft(t: seq<byte>, token: seq<byte>)
    requires Shaped(t)
    ensures var k := Scan(t, token);
            var d := DeletedBlob(t, token);
            if Found(t, token) then
              |d| == |t| - SLOT
              && d[..k * SLOT] == t[..k * SLOT]
              && forall i :: k * SLOT <= i < |d| ==> d[i] == t[i + SLOT]
            else d == t
  {
  }

  /**
   * Delete in a shaped blob removes exactly the found slot: the other slots
   * keep their relative order and the trailing byte stays trailing.
   */
  lemma DeleteRemovesSlot(t: seq<byte>, token: seq<byte>)
    requires Shaped(t) && Found(t, token)
    ensures var k := Scan(t, token);
            var d := DeletedBlob(t, token);
            NumSlots(d) == NumSlots(t) - 1
            && Slots(d) == Slots(t)[..k] + Slots(t)[k + 1..]
            && d[NumSlots(d) * SLOT..] == t[NumSlots(t) * SLOT..]
  {
    var k := Scan(t, token);
    var d := DeletedBlob(t, token);
    var lo, hi := k * SLOT, k * SLOT + SLOT;
    assert d == t[..lo] + t[hi..];
    assert d[..lo] == t[..lo];
    assert d[lo..] == t[hi..];
    SlotsFromSuffix(d, t, k, k + 1);
    SlotsFromPrefix(d, t, k);
    SlotsWithout(Slots(d), Slots(t), k);
  }

  /** A sequence that agrees with `s` before k and with `s` shifted by one from k on is `s` without k. */
  lemma SlotsWithout(r: seq<seq<byte>>, s: seq<seq<byte>>, k: nat)
    requires k < |s| && |r| == |s| - 1
    requires forall j :: 0 <= j < k ==> r[j] == s[j]
    requires forall j :: k <= j < |r| ==> r[j] == s[j + 1]
    ensures r == s[..k] + s[k + 1..]
  {
  }

  /** Delete keeps the blob's shape. */
  lemma DeleteKeepsShape(t: seq<byte>, token: seq<byte>)
    requires Shaped(t)
    ensures Shaped(DeletedBlob(t, token))
  {
    if Found(t, token) {
      DeleteShiftsLeft(t, token);
      var d := DeletedBlob(t, token);
      if |t| % SLOT == 1 {
        assert d[|d| - 1] == t[|t| - 1];
      }
    }
  }

  /** The tokens after deleting the found slot: later slots move down by one. */
  lemma TokensAfterDelete(t: seq<byte>, token: seq<byte>)
    requires Shaped(t) && Found(t, token)
    ensures NumSlots(DeletedBlob(t, token)) == NumSlots(t) - 1
    ensures forall j :: 0 <= j < Scan(t, token) ==> TokenAt(DeletedBlob(t, token), j) == TokenAt(t, j)
    ensures forall j :: Scan(t, token) <= j < NumSlots(t) - 1 ==>
              TokenAt(DeletedBlob(t, token), j) == TokenAt(t, j + 1)
  {
    var k := Scan(t, token);
    var d := DeletedBlob(t, token);
    DeleteRemovesSlot(t, token);
    forall j | 0 <= j < NumSlots(t) - 1
      ensures TokenAt(d, j) == TokenAt(t, if j < k then j else j + 1)
    {
      TokenOfSlot(d, j);
      assert SlotBytes(d, j) == Slots(d)[j];
      var jt := if j < k then j else j + 1;
      TokenOfSlot(t, jt);
      assert Slots(d)[j] == Slots(t)[jt];
      assert SlotBytes(t, jt) == Slots(t)[jt];
    }
  }

  /** Delete keeps the table invariant, and afterwards no slot holds the token. */
  lemma DeleteKeepsWellFormed(t: seq<byte>, token: seq<byte>)
    requires WellFormed(t) && |token| == TOKEN
    ensures WellFormed(DeletedBlob(t, token))
    ensures !Present(DeletedBlob(t, token), token)
  {
    var d := DeletedBlob(t, token);
    DeleteKeepsShape(t, token);
    FoundIffPresent(t, token);
    if Found(t, token) {
      var k := Scan(t, token);
      TokensAfterDelete(t, token);
      forall j | 0 <= j < NumSlots(d) ensures ValidToken(TokenAt(d, j)) {
        var jt := if j < k then j else j + 1;
        assert TokenAt(d, j) == TokenAt(t, jt);
      }
      forall i, j | 0 <= i < j < NumSlots(d) ensures TokenAt(d, i) != TokenAt(d, j) {
        var it, jt := if i < k then i else i + 1, if j < k then j else j + 1;
        assert TokenAt(d, i) == TokenAt(t, it) && TokenAt(d, j) == TokenAt(t, jt);
      }
      forall j | 0 <= j < NumSlots(d) ensures TokenAt(d, j) != token {
        var jt := if j < k then j else j + 1;
        assert TokenAt(d, j) == TokenAt(t, jt) && jt != k;
      }
    }
  }

  /** Storing a new token and then deleting it gives back the blob exactly. */
  lemma StoreThenDeleteRestores(t: seq<byte>, a: Alert)
    requires WellFormed(t) && ValidToken(a.token) && !Present(t, a.token)
    ensures DeletedBlob(StoredBlob(t, a), a.token) == t
  {
    var c := StoredBlob(t, a);
    StoreAppends(t, a);
    StoreKeepsWellFormed(t, a);
    StoreThenLoad(t, a);
    var k := TokensAfterStore(t, a);
    FoundIffPresent(c, a.token);
    assert Scan(c, a.token) == NumSlots(t);
    DeleteRemovesSlot(c, a.token);
    var d := DeletedBlob(c, a.token);
    assert Slots(d) == Slots(t);
    BlobFromSlots(d, t);
  }

  /** In a well-formed table the scan stops exactly at the slot holding the token. */
  lemma ScanFindsSlot(t: seq<byte>, token: seq<byte>, k: nat)
    requires WellFormed(t) && |token| == TOKEN
    requires k < NumSlots(t) && TokenAt(t, k) == token
    ensures Found(t, token) && Scan(t, token) == k
  {
    FoundIffPresent(t, token);
  }

  /** Storing one token leaves every other absent token absent. */
  lemma StoreKeepsOthersAbsent(t: seq<byte>, a: Alert, token: seq<byte>)
    requires WellFormed(t) && ValidToken(a.token)
    requires !Present(t, token) && token != a.token
    ensures !Present(StoredBlob(t, a), token)
  {
    var c := StoredBlob(t, a);
    var k := TokensAfterStore(t, a);
    forall j | 0 <= j < NumSlots(c) ensures TokenAt(c, j) != token {
      if j != k {
        assert TokenAt(c, j) == TokenAt(t, j);
      }
    }
  }

  /**
   * Storing two new tokens and then deleting the first leaves the table as
   * if only the second had been stored: its record moves down into the
   * freed slot.
   */
  lemma StoreTwoDeleteFirst(t: seq<byte>, a: Alert, b: Alert)
    requires WellFormed(t) && ValidToken(a.token) && ValidToken(b.token)
    requires !Present(t, a.token) && !Present(t, b.token) && a.token != b.token
    ensures DeletedBlob(StoredBlob(StoredBlob(t, a), b), a.token) == StoredBlob(t, b)
  {
    var n := NumSlots(t);
    var c1 := StoredBlob(t, a);
    StoreKeepsWellFormed(t, a);
    StoreKeepsOthersAbsent(t, a, b.token);
    StoreAppends(t, a);
    var c2 := StoredBlob(c1, b);
    StoreKeepsWellFormed(c1, b);
    StoreAppends(c1, b);
    assert Slots(c2) == Slots(t) + [EncodeSlot(a), EncodeSlot(b)];
    assert TokenAt(c2, n) == a.token by {
      TokenOfSlot(c2, n);
      assert SlotBytes(c2, n) == Slots(c2)[n];
      EncodeSlotFields(a);
    }
    ScanFindsSlot(c2, a.token, n);
    DeleteRemovesSlot(c2, a.token);
    StoreAppends(t, b);
    var d := DeletedBlob(c2, a.token);
    assert Slots(d) == Slots(t) + [EncodeSlot(b)];
    BlobFromSlots(d, StoredBlob(t, b));
  }

  /**
   * The alerts blob starts as the single byte 0: the first store makes it
   * one slot followed by that byte, and deleting that token brings it back.
   */
  lemma FirstStoreAndDelete(a: Alert)
    requires ValidToken(a.token)
    ensures StoredBlob([0], a) == EncodeSlot(a) + [0]
    ensures DeletedBlob(StoredBlob([0], a), a.token) == [0]
  {
    var t: seq<byte> := [0];
    assert WellFormed(t) && !Present(t, a.token);
    StoreAppends(t, a);
    assert t[..0] == [] && t[0..] == t;
    StoreThenDeleteRestores(t, a);
  }

  /**
   * Storing twice under one token leaves one slot for it, holding the second
   * record: the table is as if only the second store had happened.
   */
  lemma StoreSameTokenTwice(t: seq<byte>, a: Alert, b: Alert)
    requires WellFormed(t) && ValidToken(a.token) && b.token == a.token
    ensures StoredBlob(StoredBlob(t, a), b) == StoredBlob(t, b)
  {
    var c := StoredBlob(t, a);
    StoreKeepsWellFormed(t, a);
    var k := TokensAfterStore(t, a);
    StoreReplaces(c, b, k);
    if Present(t, a.token) {
      StoreReplaces(t, a, k);
      StoreReplaces(t, b, k);
    } else {
      StoreAppends(t, a);
      StoreAppends(t, b);
    }
    BlobFromSlots(StoredBlob(c, b), StoredBlob(t, b));
  }
}
