# AIA FreeRTOS porting kit: storage, registration, LWA and clock ports in Dafny

This project models four port files of the Alexa Voice Service Integration
for AWS IoT (AIA) FreeRTOS porting kit, and proves what they promise.

- **Storage port** (`ports/Storage/src/aia_storage_config.c`):
  - **Blob table.** The sample blob store is a fixed table of three byte buffers: the shared secret (32 bytes), the alerts (64 bytes) and the topic root (16 bytes). Each entry has a capacity and a mutable used length. It is modelled as the class `Storage.BlobStorage`, with one `array<byte>` per entry and a `usedLen` column.
  - **Table operations.** `AiaStoreBlob`, `AiaLoadBlob`, `AiaBlobExists`, `AiaGetBlobSize` and the shared-secret wrappers are its methods. Lookup is `strncmp` over `strlen(key)` characters, so it selects the first entry whose key starts with the argument.
  - **Alert slot codec** (module `AlertCodec`). A slot is the token bytes, the scheduled time as 8 little-endian bytes, the duration as 4 little-endian bytes and the alert type as 1 byte.
  - **Alert table** (module `AlertTable`). Store, delete and load act on the whole alerts blob as spec functions (`Scan`, `StoredBlob`, `DeletedBlob`), with lemmas for insertion, update, compaction, the table invariant and round trips.
  - **Alert methods.** `AiaStoreAlert`, `AiaDeleteAlert`, `AiaLoadAlert`, `AiaLoadAlerts`, `AiaGetAlertsSize` and `AiaAlertsBlobExists` are imperative methods. `AiaStoreAlert` and `AiaDeleteAlert` work on a zero-filled scratch `array<byte>` with the source's scan loop, byte-writing loops and `memmove`, and are proved to leave `StoredBlob` and `DeletedBlob`. `AiaLoadAlert` reads the caller's buffer with the source's accumulation loops and is proved equal to the corrected slot decoder. `AiaLoadAlerts` copies the blob out; `AiaGetAlertsSize` and `AiaAlertsBlobExists` read the table.
- **Registration port** (`ports/Registration/src/aia_registration_config.c`) and **LWA port** (`ports/LWA/src/aia_lwa_config.c`). These are getters over global strings.
  - A null `len` fails.
  - A null buffer asks only for the size `strlen + 1`.
  - A buffer that is too small fails and is left unchanged.
  - Otherwise `strncpy` copies the string and its NUL.
  - The registration getters guard against `strlen + 1` wrapping to 0; the LWA getters do not.
- **Clock port** (`ports/Clock/src/aia_clock_config.c`). The three statics form the class `Clock.NtpClock`.
  - Until the service synchronizes the clock, each read re-bases on the wall clock shifted by the RFC 868 offset 2208988800.
  - Reads add the whole seconds of a monotonic millisecond clock since the base was taken.
  - The wall clock (`time(NULL)`) and the monotonic clock are method parameters.

Modules, one per file:

| module | file | role |
|---|---|---|
| `Wrappers` | `wrappers.dfy` | `Option` |
| `Bytes` | `bytes.dfy` | byte and fixed-width integer types; little-endian encoding |
| `CStrings` | `c_strings.dfy` | C strings, `strncmp`, `strncpy`, `strlen + 1` in `size_t` |
| `AlertCodec` | `alert_codec.dfy` | slot layout, as-written and corrected decoders |
| `AlertTable` | `alert_table.dfy` | the alerts blob as a table of slots |
| `Storage` | `blob_storage.dfy` | the blob table class and the storage port's operations |
| `Registration` | `registration.dfy` | registration getters |
| `Lwa` | `lwa.dfy` | LWA getters |
| `Clock` | `clock.dfy` | NTP-epoch clock |

Modelling conventions:
- A null pointer is an `Option` value, a null array (`array?`), or a `has…` flag for a numeric out-pointer.
- `*len` after a call is an out-parameter.
- The allocator's answer is the parameter `allocSucceeds`. A successful `AiaCalloc` yields a zeroed array.
- Unsigned C arithmetic is reduced modulo 2^64 where it can wrap.

Three facts about the alert table come from the code rather than from the header comments:
- **Blob shape.** The alerts entry starts with a used length of 1 (`aia_storage_config.c:95`). The header says `AiaLoadAlerts` yields a blob that splits into sections of `AIA_SIZE_OF_ALERT_IN_BYTES` bytes (`aia_storage_config.h:184-186`), but the code keeps N slots followed by one `0` byte. `AlertTable.Shaped` states this shape. The first store gives one slot plus that byte, and deleting it gives back the single byte, not an empty blob (`AlertTable.FirstStoreAndDelete`).
- **Alert limit.** The "maximum number of alerts" branch of `AiaStoreAlert` (`aia_storage_config.c:265`) can never be taken: the scan always stops at the zeroed extra slot. The actual limit is the 64-byte capacity of the alerts entry, and with 16-byte tokens it allows two alerts (`Storage.AlertsCapacity`).
- **Token match.** Tokens are compared with `strncmp` (`aia_storage_config.c:255-256`, `CStrings.StrnEq`), not byte for byte. For NUL-free tokens the two agree (`AlertTable.StopsAtIffHolds`).

## Model

| member | source | states |
|---|---|---|
| CStrings.StrnEqIsPrefix | ports/Storage/src/aia_storage_config.c:106 | `strncmp(key, entry, strlen(key)) == 0` holds exactly when the NUL-free key is a prefix of the entry key |
| CStrings.StrnEqIsEquality | ports/Storage/src/aia_storage_config.c:255-256 | `strncmp` over n bytes of two n-byte buffers, one NUL-free, succeeds exactly when they are equal |
| CStrings.StrNCpy | ports/Registration/src/aia_registration_config.c:54 | `strncpy` writes `src` then NULs into the first n characters and leaves the rest of the buffer untouched |
| CStrings.StrNCpyWhole | ports/Registration/src/aia_registration_config.c:54 | copying `strlen + 1` characters leaves the string, its NUL, then the old tail |
| CStrings.StrNCpyInto | ports/Registration/src/aia_registration_config.c:54 | the in-place copy leaves exactly the buffer `StrNCpy` describes |
| CStrings.StrlenPlusOne | ports/Registration/src/aia_registration_config.c:40-45 | `strlen + 1` in `size_t` is 0 exactly for a string of 2^64-1 characters and `strlen + 1` otherwise |
| Bytes.LeDecodeEncode | ports/Storage/src/aia_storage_config.c:279-288 | reading back n little-endian bytes gives the value modulo 256^n |
| Bytes.LeRoundTrip | ports/Storage/src/aia_storage_config.c:279-288 | a value below 256^n survives n-byte encoding and decoding |
| AlertCodec.EncodeSlot | ports/Storage/src/aia_storage_config.c:274-292 | an encoded slot is exactly SLOT = TOKEN + 13 bytes |
| AlertCodec.EncodeSlotFields | ports/Storage/src/aia_storage_config.c:274-292 | token at [0, TOKEN), time little-endian in the next 8 bytes, duration in the next 4, type in the last byte |
| AlertCodec.AccumulateUnsigned | ports/Storage/src/aia_storage_config.c:433-443 | the as-written accumulation with `(unsigned)` shifts yields the little-endian value of the first four bytes only |
| AlertCodec.DecodeSlot | ports/Storage/src/aia_storage_config.c:425-450 | as written: token, time from the low four time bytes, duration and type taken from their offsets |
| AlertCodec.DecodeSlotWide | ports/Storage/src/aia_storage_config.c:433-438 | corrected: the time comes from all eight time bytes |
| AlertCodec.DecodeEncodeKeepsLow32 | ports/Storage/src/aia_storage_config.c:425-450 | as written, store then load returns the record with its time reduced modulo 2^32 |
| AlertCodec.RoundTrip | ports/Storage/src/aia_storage_config.c:425-450 | as written, decode(encode(r)) == r for every record whose time is below 2^32 |
| AlertCodec.HighTimeBytesLost | ports/Storage/src/aia_storage_config.c:436-437 | as written, an alert at time 2^32 loads back with time 0 |
| AlertCodec.WideRoundTrip | ports/Storage/src/aia_storage_config.c:433-438 | corrected decode(encode(r)) == r for every record |
| AlertTable.ScanFrom | ports/Storage/src/aia_storage_config.c:243-262 | the scan stops at the first slot that is empty or whose token compares equal, and at none before it |
| AlertTable.ScanIsFirst | ports/Storage/src/aia_storage_config.c:243-262 | the slot where the scan stops is uniquely determined |
| AlertTable.StopsAtIffHolds | ports/Storage/src/aia_storage_config.c:247-257 | in a well-formed table the scan stops at a slot exactly when that slot holds the token |
| AlertTable.FoundIffPresent | ports/Storage/src/aia_storage_config.c:243-262 | in a well-formed table the scan finds the token exactly when some slot holds it; if not, it stops after the last slot |
| AlertTable.ScanFindsSlot | ports/Storage/src/aia_storage_config.c:243-262 | in a well-formed table the scan stops at the token's own slot |
| AlertTable.StoreUpdatesInPlace | ports/Storage/src/aia_storage_config.c:274-299 | update of a found token rewrites only its slot and keeps the blob length |
| AlertTable.StoreInsertsAtFirstEmpty | ports/Storage/src/aia_storage_config.c:243-299 | a new token goes into the first empty slot, earlier bytes are kept, and the blob grows by exactly one slot |
| AlertTable.StoreKeepsShape | ports/Storage/src/aia_storage_config.c:294-299 | store keeps the blob's shape (slots, optionally one trailing 0) |
| AlertTable.StoreAppends | ports/Storage/src/aia_storage_config.c:243-299 | in a well-formed table a new record is appended after the last slot; all prior slots and the trailing byte are kept |
| AlertTable.StoreReplaces | ports/Storage/src/aia_storage_config.c:274-299 | in a well-formed table an update replaces only the token's own slot |
| AlertTable.TokensAfterStore | ports/Storage/src/aia_storage_config.c:243-299 | after a store the token is in its old slot or the new last slot; every other slot keeps its token |
| AlertTable.StoreKeepsWellFormed | ports/Storage/src/aia_storage_config.c:201-308 | store keeps the table invariant: shape, valid tokens, no token twice |
| AlertTable.StoreKeepsOthersAbsent | ports/Storage/src/aia_storage_config.c:201-308 | storing one token does not make another token present |
| AlertTable.StoreThenLoad | ports/Storage/src/aia_storage_config.c:201-451 | after a store the token is found in a slot that decodes to the stored record (always with the corrected decoder, below 2^32 as written) |
| AlertTable.BlobFromSlots | ports/Storage/src/aia_storage_config.c:345-375 | a blob is determined by its slots and its trailing bytes |
| AlertTable.DeleteShiftsLeft | ports/Storage/src/aia_storage_config.c:356-375 | delete of a found token moves every later byte left by one slot and shrinks the blob by one slot; otherwise the blob is unchanged |
| AlertTable.DeleteRemovesSlot | ports/Storage/src/aia_storage_config.c:356-375 | delete removes exactly the found slot; the other slots keep their order and the trailing byte stays |
| AlertTable.DeleteKeepsShape | ports/Storage/src/aia_storage_config.c:372-375 | delete keeps the blob's shape |
| AlertTable.TokensAfterDelete | ports/Storage/src/aia_storage_config.c:359-365 | after delete, earlier slots keep their tokens and later slots hold their successors' tokens |
| AlertTable.DeleteKeepsWellFormed | ports/Storage/src/aia_storage_config.c:310-387 | delete keeps the table invariant and leaves no slot holding the token |
| AlertTable.StoreThenDeleteRestores | ports/Storage/src/aia_storage_config.c:310-387 | storing a new token then deleting it gives back the blob byte for byte |
| AlertTable.StoreTwoDeleteFirst | ports/Storage/src/aia_storage_config.c:310-387 | store A, store B, delete A leaves the blob as if only B had been stored |
| AlertTable.FirstStoreAndDelete | ports/Storage/src/aia_storage_config.c:95 | from the initial blob [0], the first store gives one slot plus the 0 byte, and deleting it gives back [0] |
| AlertTable.StoreSameTokenTwice | ports/Storage/src/aia_storage_config.c:243-299 | a second store under one token gives the blob a single store of the second record would |
| Storage.KeyMatches | ports/Storage/src/aia_storage_config.c:106 | the lookup's key test holds exactly when the key is a prefix of the entry key |
| Storage.LookupFrom | ports/Storage/src/aia_storage_config.c:104-121 | the entry found from k on is the first whose key has the argument as prefix |
| Storage.Lookup | ports/Storage/src/aia_storage_config.c:104-121 | the selected entry is the first whose key starts with the argument, or none |
| Storage.LookupOfTableKeys | ports/Storage/src/aia_storage_config.c:93-97 | each table key selects its own entry; every prefix of the shared-secret key (the empty key too) selects the shared secret |
| Storage.FindEntry | ports/Storage/src/aia_storage_config.c:167-174 | the lookup loop returns the entry `Lookup` selects |
| Storage.AlertsCapacity | ports/Storage/src/aia_storage_config.c:294-299 | a new token fits in the 64-byte alerts entry exactly while fewer than two slots are taken; an update always fits |
| Storage.WriteLittleEndian | ports/Storage/src/aia_storage_config.c:279-288 | the byte-writing loop places the n-byte little-endian encoding at the offset and changes nothing else |
| Storage.WriteSlot | ports/Storage/src/aia_storage_config.c:274-292 | the writes of AiaStoreAlert put the encoded slot at the chosen offset and change nothing else |
| Storage.ScanForSlot | ports/Storage/src/aia_storage_config.c:243-262 | the scan loop over the scratch buffer stops at `Scan * SLOT` and reports a match exactly when the token was found |
| Storage.ScanAndRemove | ports/Storage/src/aia_storage_config.c:345-370 | the scan-and-`memmove` loop reports a match exactly when found, and then leaves `DeletedBlob` in front of the buffer; otherwise the buffer is unchanged |
| Storage.ReadLittleEndian | ports/Storage/src/aia_storage_config.c:433-448 | the accumulation loop, widened to the destination type, yields the little-endian value of the bytes |
| Storage.LoadAlert | ports/Storage/src/aia_storage_config.c:389-451 | fails exactly on a null pointer or a wrong token length (token buffer unchanged); otherwise the outputs are the corrected decode of the first slot |
| Storage.BlobStorage.constructor | ports/Storage/src/aia_storage_config.c:90-97 | zeroed buffers of 32, 64 and 16 bytes; used lengths 0, 1, 0; the alerts blob is [0] and well-formed |
| Storage.BlobStorage.StoreBlob | ports/Storage/src/aia_storage_config.c:99-129 | succeeds exactly with a non-null blob, a matching key and a size within capacity; then that entry holds the blob; nothing else changes, and on failure nothing changes |
| Storage.BlobStorage.LoadBlob | ports/Storage/src/aia_storage_config.c:131-160 | succeeds exactly with a non-null buffer, a matching key and used length ≤ size; copies the used bytes; changes no table state |
| Storage.BlobStorage.BlobExists | ports/Storage/src/aia_storage_config.c:162-177 | true exactly when some table key starts with the argument, whatever the entry holds |
| Storage.BlobStorage.GetBlobSize | ports/Storage/src/aia_storage_config.c:179-199 | the used length of the selected entry, 0 when none is selected |
| Storage.BlobStorage.StoreSecret | ports/Storage/src/aia_storage_config.c:52-55 | stores into the shared-secret entry when it fits; the other entries are unchanged |
| Storage.BlobStorage.LoadSecret | ports/Storage/src/aia_storage_config.c:57-60 | loads the shared-secret entry when the buffer is large enough |
| Storage.BlobStorage.AlertsBlobExists | ports/Storage/src/aia_storage_config.c:478-481 | always true: the alerts key is in the table |
| Storage.BlobStorage.GetAlertsSize | ports/Storage/src/aia_storage_config.c:473-476 | the length of the alerts blob |
| Storage.BlobStorage.LoadAlerts | ports/Storage/src/aia_storage_config.c:453-471 | succeeds exactly with a non-null buffer of at least the blob's length, and copies the blob |
| Storage.BlobStorage.StoreAlert | ports/Storage/src/aia_storage_config.c:201-308 | succeeds exactly with a non-null token of length TOKEN, a successful allocation and a result within capacity; the alerts blob becomes `StoredBlob(old blob, record)`; the other entries never change, and on failure nothing changes |
| Storage.BlobStorage.DeleteAlert | ports/Storage/src/aia_storage_config.c:310-387 | succeeds exactly with a non-null token of length TOKEN and a successful allocation; the alerts blob becomes `DeletedBlob(old blob, token)`; on failure nothing changes |
| Registration.CopyOut | ports/Registration/src/aia_registration_config.c:32-58 | fails on a null `len`, a wrapped size or a buffer that is too small (buffer and `*len` unchanged); otherwise `*len = strlen + 1`, and a given buffer holds the string and its NUL |
| Registration.RegistrationConfig.GetIotClientId | ports/Registration/src/aia_registration_config.c:32-58 | the `CopyOut` contract over the client id |
| Registration.RegistrationConfig.GetAwsAccountId | ports/Registration/src/aia_registration_config.c:60-86 | the `CopyOut` contract over the account id |
| Registration.RegistrationConfig.GetIotEndpoint | ports/Registration/src/aia_registration_config.c:88-113 | the `CopyOut` contract over the endpoint |
| Registration.RegistrationConfig.constructor | ports/Registration/src/aia_registration_config.c:28-30 | the three globals |
| Lwa.CopyOut | ports/LWA/src/aia_lwa_config.c:30-51 | fails on a null `len` or a buffer that is too small (buffer and `*len` unchanged); otherwise `*len` is `strlen + 1` in `size_t`, and a given buffer receives `strncpy` of that many characters |
| Lwa.CopyResult | ports/LWA/src/aia_lwa_config.c:37-47 | that copy is the string and its NUL for every length except 2^64-1, where the buffer is left as it was |
| Lwa.LwaConfig.GetRefreshToken | ports/LWA/src/aia_lwa_config.c:30-51 | the `CopyOut` contract over the refresh token |
| Lwa.LwaConfig.GetLwaClientId | ports/LWA/src/aia_lwa_config.c:53-74 | the `CopyOut` contract over the LWA client id |
| Lwa.LwaConfig.constructor | ports/LWA/src/aia_lwa_config.c:27-28 | the two globals |
| Clock.Wrap64 | ports/Clock/src/aia_clock_config.c:78-81 | reduction into `uint64_t` is the identity on values already in range |
| Clock.ToTimeT | ports/Clock/src/aia_clock_config.c:88-92 | the `time_t` conversion is congruent to its argument modulo 2^64 |
| Clock.WrapInner | ports/Clock/src/aia_clock_config.c:78-81 | reducing a summand first does not change a sum modulo 2^64 |
| Clock.NtpFromUnix | ports/Clock/src/aia_clock_config.c:74-75 | the wall clock plus 2208988800, exact when in range |
| Clock.UnixFromNtp | ports/Clock/src/aia_clock_config.c:88-92 | NTP seconds minus 70 years and 17 days of seconds, exact when the result is a non-negative `time_t` |
| Clock.EpochDeltasAgree | ports/Clock/src/aia_clock_config.c:33-36 | (70·365 + 17)·86400 equals the RFC 868 offset 2208988800 used at line 69 |
| Clock.UnixRoundTrip | ports/Clock/src/aia_clock_config.c:88-92 | converting back from NTP to `time_t` undoes the start-up conversion for every `time_t` |
| Clock.NtpRoundTrip | ports/Clock/src/aia_clock_config.c:74-75 | ... and the other way round for every `uint64_t` |
| Clock.Reading | ports/Clock/src/aia_clock_config.c:78-81 | the two unsigned steps equal a single sum, base + elapsed seconds − sync seconds, modulo 2^64 |
| Clock.ReadingAdvances | ports/Clock/src/aia_clock_config.c:78-81 | between two reads after one base, the result advances by the whole seconds elapsed and never goes back |
| Clock.ReadingSinceBase | ports/Clock/src/aia_clock_config.c:99-101 | after a base is set at m0, a read at m returns the base + (m/1000 − m0/1000) |
| Clock.RebasedReading | ports/Clock/src/aia_clock_config.c:65-81 | an unsynchronized read returns wall + 2208988800 + (m2/1000 − m1/1000) |
| Clock.NtpClock.constructor | ports/Clock/src/aia_clock_config.c:43-51 | the statics start at 0, 0 and unsynchronized |
| Clock.NtpClock.GetTimeSinceNtpEpoch | ports/Clock/src/aia_clock_config.c:59-84 | re-bases on the wall clock only while unsynchronized, and never changes the flag or (once synchronized) the bases; returns `Reading` of the bases |
| Clock.NtpClock.SetTimeSinceNtpEpoch | ports/Clock/src/aia_clock_config.c:86-103 | sets the flag and overwrites both bases (the last call wins); the value it logs converts back to its argument |

## Left out

- `AiaLoadVolume` (`aia_storage_config.c:40-45`) returns a constant and is not modelled.
- All `AiaLogError`/`AiaLogInfo` calls are left out. This includes the `gmtime`/`asctime` rendering in `AiaClock_SetTimeSinceNTPEpoch`; its `time_t` input is the method's result instead.
- The clock's spin lock (`g_spinLock`) is left out: the model is single-threaded.
- `time(NULL)`, the monotonic millisecond clock and the allocator's success are parameters. `AIA_MS_PER_SECOND` (1000) comes from the client SDK, which is not part of this model.
- `AIA_ALERT_TOKEN_CHARS` comes from the client SDK, which is not part of this model; TOKEN = 16 is used here. `AIA_SIZE_OF_ALERT_IN_BYTES` is TOKEN + 13 = 29, which is what the encoder writes.
- Storage.FindEntry: the source repeats the lookup loop in four functions; one method models it for all of them.
- Storage.BlobStorage.StoreAlert: requires the alerts blob to be `Shaped`. For some other lengths the source can write past its scratch buffer (a blob `[1]` puts the new slot at bytes 29..57 of a 30-byte buffer); `Shaped` also excludes some harmless lengths (`[0, 0]` puts the slot at bytes 0..28 of a 31-byte buffer). The initial table, `StoreAlert` and `DeleteAlert` keep the shape, but `AiaStoreBlob` is public (`aia_storage_config.h:40`) and `StoreBlob` can write any bytes under a key that selects the alerts entry, so `Shaped` is the caller's obligation, not part of `Valid()`.
- Storage.BlobStorage.DeleteAlert: requires `Shaped`, for the same reason.
- Storage.BlobStorage.LoadAlerts: the branch for a missing alerts blob (succeeds exactly when the size is 0) cannot be taken, because the alerts key is always in the table. It is kept in the body, and the contract describes the branch that runs.
- Storage.BlobStorage.LoadBlob: requires the caller's buffer not to alias a table buffer. The same holds for `LoadSecret`, `LoadAlerts`, and `LoadAlert` (token buffer versus slot buffer). Overlapping copies are not modelled.
- Storage.LoadAlert: models the corrected 64-bit accumulation of the scheduled time (see Findings), not the undefined shift at line 436. The as-written decode is `AlertCodec.DecodeSlot`.
- Storage.LoadAlert: the `*x |= ...` into a zero `uint8_t` is read as the byte itself. The byte lanes of the other fields are disjoint, so each `|=` adds its lane.
- Registration.CopyOut: null global strings and strings of 2^64 or more characters are not modelled. A buffer shorter than the `*len` the caller passes is the caller's error and is excluded by `requires`.
- Lwa.CopyOut: the same exclusions as `Registration.CopyOut`.
- Clock.NtpClock.GetTimeSinceNtpEpoch: `time_t` is taken as a 64-bit two's-complement type. Conversions between it and `uint64_t` wrap.

## Findings

| source | as written | input that shows it | evidently intended | confidence | as-written member | corrected member |
|---|---|---|---|---|---|---|
| ports/Storage/src/aia_storage_config.c:436-437 | each of the 8 time bytes is widened to `unsigned` (32 bits) and shifted by 8·i. For i ≥ 4 that shift is undefined; read as dropping the high bits, the time keeps only its low 32 bits | an alert scheduled at 2^32 seconds after the NTP epoch (February 2036) loads back with time 0 | widen each byte to `AiaTimepointSeconds_t` before shifting, so all 8 bytes round-trip | high; not executed | AlertCodec.HighTimeBytesLost | AlertCodec.DecodeSlotWide |
