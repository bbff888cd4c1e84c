/**
 * The clock port (ports/Clock/src/aia_clock_config.c): seconds since the NTP
 * epoch (1 January 1900), taken from the system's wall clock until the
 * service first synchronizes the clock, and advanced by a monotonic
 * millisecond clock in between. The wall clock and the monotonic clock are
 * parameters here.
 */
module Clock {
  import opened Bytes

  /** AIA_MS_PER_SECOND */
  const MsPerSecond: nat := 1000

  /** UNIX_NTP_EPOCH_DELTA_SECONDS, the offset RFC 868 gives between the epochs. */
  const UnixNtpEpochDeltaSeconds: nat := 2208988800

  /**
   * The same offset as AiaClock_SetTimeSinceNTPEpoch spells it: 70 years of
   * 365 days and 17 leap days.
   */
  const YearsBetweenNtpAndUtcEpoch: nat := 70
  const DaysPerYear: nat := 365
  const ExtraDaysBetweenNtpAndUtcEpoch: nat := 17
  const SecondsPerDay: nat := 86400
  const NtpUtcEpochDeltaSeconds: nat :=
    (YearsBetweenNtpAndUtcEpoch * DaysPerYear + ExtraDaysBetweenNtpAndUtcEpoch) * SecondsPerDay

  /** Reduction into `uint64_t`, as unsigned C arithmetic does. */
  function Wrap64(x: int): (r: uint64)
    ensures 0 <= x < TwoTo64 ==> r == x
  {
    x % TwoTo64
  }

  /** Conversion of a `uint64_t` to `time_t` on a two's-complement target. */
  function ToTimeT(x: uint64): (t: int64)
    ensures Wrap64(t) == x
  {
    DivModUnique(x - TwoTo64, TwoTo64, -1, x);
    if x < 0x8000_0000_0000_0000 then x else x - TwoTo64
  }

  /** A `time_t` reduces to itself when not negative and to itself plus 2^64 otherwise. */
  lemma WrapOfTimeT(t: int64)
    ensures Wrap64(t) == if t >= 0 then t else t + TwoTo64
  {
    if t < 0 {
      DivModUnique(t, TwoTo64, -1, t + TwoTo64);
    }
  }

  /** Reducing a summand first does not change a sum modulo 2^64. */
  lemma WrapInner(a: int, b: int)
    ensures Wrap64(a + Wrap64(b)) == Wrap64(a + b)
  {
    var q := b / TwoTo64;
    assert b == q * TwoTo64 + b % TwoTo64;
    var s := a + b;
    assert s == (s / TwoTo64) * TwoTo64 + s % TwoTo64;
    assert a + b % TwoTo64 == (s / TwoTo64 - q) * TwoTo64 + s % TwoTo64;
    DivModUnique(a + b % TwoTo64, TwoTo64, s / TwoTo64 - q, s % TwoTo64);
  }

  /** Two numbers equal modulo 2^64 reduce to the same `uint64_t`. */
  lemma WrapCongruent(a: int, b: int, k: int)
    requires a == b + k * TwoTo64
    ensures Wrap64(a) == Wrap64(b)
  {
    assert b == (b / TwoTo64) * TwoTo64 + b % TwoTo64;
    assert a == (b / TwoTo64 + k) * TwoTo64 + b % TwoTo64;
    DivModUnique(a, TwoTo64, b / TwoTo64 + k, b % TwoTo64);
  }

  /**
   * `time(NULL) + UNIX_NTP_EPOCH_DELTA_SECONDS`: the `time_t` operand is
   * converted to the unsigned type of the constant, so the sum is taken
   * modulo 2^64.
   */
  function NtpFromUnix(unixSeconds: int64): (ntp: uint64)
    ensures 0 <= unixSeconds + UnixNtpEpochDeltaSeconds < TwoTo64 ==>
              ntp == unixSeconds + UnixNtpEpochDeltaSeconds
  {
    Wrap64(unixSeconds + UnixNtpEpochDeltaSeconds)
  }

  /**
   * `secondsSinceUtcEpoch` in AiaClock_SetTimeSinceNTPEpoch: the unsigned
   * difference, converted to `time_t` for the log line.
   */
  function UnixFromNtp(ntp: uint64): (unixSeconds: int64)
    ensures NtpUtcEpochDeltaSeconds <= ntp < NtpUtcEpochDeltaSeconds + 0x8000_0000_0000_0000 ==>
              unixSeconds == ntp - NtpUtcEpochDeltaSeconds
  {
    ToTimeT(Wrap64(ntp - NtpUtcEpochDeltaSeconds))
  }

  /** The two spellings of the epoch offset agree. */
  lemma EpochDeltasAgree()
    ensures NtpUtcEpochDeltaSeconds == UnixNtpEpochDeltaSeconds
  {
  }

  /** The conversion done when synchronizing undoes the one done at start-up, for every `time_t`. */
  lemma UnixRoundTrip(unixSeconds: int64)
    ensures UnixFromNtp(NtpFromUnix(unixSeconds)) == unixSeconds
  {
    var n := NtpFromUnix(unixSeconds);
    WrapInner(-(NtpUtcEpochDeltaSeconds as int), unixSeconds + UnixNtpEpochDeltaSeconds);
    assert Wrap64(n - NtpUtcEpochDeltaSeconds) == Wrap64(unixSeconds);
    WrapOfTimeT(UnixFromNtp(n));
    WrapOfTimeT(unixSeconds);
  }

  /** ... and the other way round, for every `uint64_t`. */
  lemma NtpRoundTrip(ntp: uint64)
    ensures NtpFromUnix(UnixFromNtp(ntp)) == ntp
  {
    var t := UnixFromNtp(ntp);
    var w := Wrap64(ntp - NtpUtcEpochDeltaSeconds);
    assert t == w || t == w - TwoTo64;
    WrapInner(UnixNtpEpochDeltaSeconds, ntp - NtpUtcEpochDeltaSeconds);
    if t == w - TwoTo64 {
      WrapCongruent(t + UnixNtpEpochDeltaSeconds, w + UnixNtpEpochDeltaSeconds, -1);
    }
  }

  /**
   * The value AiaClock_GetTimeSinceNTPEpoch returns: the base time plus the
   * whole seconds of the monotonic clock since the base was taken, both
   * steps in `uint64_t`.
   */
  function Reading(base: uint64, syncSeconds: uint64, nowMs: uint64): (r: uint64)
    ensures r == Wrap64(base + nowMs / MsPerSecond - syncSeconds)
  {
    WrapInner(base, nowMs / MsPerSecond - syncSeconds);
    Wrap64(base + Wrap64(nowMs / MsPerSecond - syncSeconds))
  }

  lemma DivMono(a: nat, b: nat, d: nat)
    requires a <= b && d > 0
    ensures a / d <= b / d
  {
    if a / d > b / d {
      MulMono(b / d + 1, a / d, d);
    }
  }

  /**
   * Between two readings taken after the same synchronization, the result
   * advances by the whole seconds the monotonic clock advanced, as long as
   * the sum stays below 2^64; in particular a reading never goes backwards.
   */
  lemma ReadingAdvances(base: uint64, syncSeconds: uint64, m0: uint64, m1: uint64)
    requires syncSeconds <= m0 / MsPerSecond && m0 <= m1
    requires base + m1 / MsPerSecond - syncSeconds < TwoTo64
    ensures Reading(base, syncSeconds, m1) - Reading(base, syncSeconds, m0)
            == m1 / MsPerSecond - m0 / MsPerSecond
    ensures Reading(base, syncSeconds, m0) <= Reading(base, syncSeconds, m1)
  {
    DivMono(m0, m1, MsPerSecond);
  }

  /**
   * A reading taken `nowMs` after a base was recorded at `baseMs` (by a
   * synchronization, or by the re-basing of an unsynchronized read) is the
   * base plus the whole seconds between the two, as long as that stays
   * below 2^64.
   */
  lemma ReadingSinceBase(base: uint64, baseMs: uint64, nowMs: uint64)
    requires baseMs <= nowMs
    requires base + nowMs / MsPerSecond - baseMs / MsPerSecond < TwoTo64
    ensures Reading(base, baseMs / MsPerSecond, nowMs)
            == base + (nowMs / MsPerSecond - baseMs / MsPerSecond)
  {
    DivMono(baseMs, nowMs, MsPerSecond);
  }

  /**
   * An unsynchronized read returns the wall clock shifted to the NTP epoch
   * plus the whole seconds between its two monotonic readings.
   */
  lemma RebasedReading(unixSeconds: int64, rebaseMs: uint64, nowMs: uint64)
    requires rebaseMs <= nowMs && 0 <= unixSeconds + UnixNtpEpochDeltaSeconds
    requires unixSeconds + UnixNtpEpochDeltaSeconds + nowMs / MsPerSecond - rebaseMs / MsPerSecond < TwoTo64
    ensures Reading(NtpFromUnix(unixSeconds), rebaseMs / MsPerSecond, nowMs)
            == unixSeconds + UnixNtpEpochDeltaSeconds + (nowMs / MsPerSecond - rebaseMs / MsPerSecond)
  {
    DivMono(rebaseMs, nowMs, MsPerSecond);
    ReadingSinceBase(NtpFromUnix(unixSeconds), rebaseMs, nowMs);
  }

  /** The three statics of the clock port. */
  class NtpClock {
    /** g_lastRetrievedTimeSinceNTPEpoch */
    var lastRetrievedTimeSinceNtpEpoch: uint64
    /** g_lastSynchronization, in seconds of the monotonic clock */
    var lastSynchronization: uint64
    /** g_serverSynchronized */
    var serverSynchronized: bool

    /** Zero-initialized statics; `g_serverSynchronized` starts false. */
    constructor ()
      ensures lastRetrievedTimeSinceNtpEpoch == 0 && lastSynchronization == 0
      ensures !serverSynchronized
    {
      lastRetrievedTimeSinceNtpEpoch := 0;
      lastSynchronization := 0;
      serverSynchronized := false;
    }

    /**
     * AiaClock_GetTimeSinceNTPEpoch. `unixSeconds` is `time(NULL)`; `rebaseMs`
     * and `nowMs` are the two readings of the monotonic millisecond clock
     * (the first is taken only while unsynchronized).
     */
    method GetTimeSinceNtpEpoch(unixSeconds: int64, rebaseMs: uint64, nowMs: uint64) returns (ret: uint64)
      modifies this
      ensures serverSynchronized == old(serverSynchronized)
      ensures old(serverSynchronized) ==>
                lastRetrievedTimeSinceNtpEpoch == old(lastRetrievedTimeSinceNtpEpoch)
                && lastSynchronization == old(lastSynchronization)
      ensures !old(serverSynchronized) ==>
                lastRetrievedTimeSinceNtpEpoch == NtpFromUnix(unixSeconds)
                && lastSynchronization == rebaseMs / MsPerSecond
      ensures ret == Reading(lastRetrievedTimeSinceNtpEpoch, lastSynchronization, nowMs)
    {
      if !serverSynchronized {
        lastRetrievedTimeSinceNtpEpoch := NtpFromUnix(unixSeconds);
        lastSynchronization := rebaseMs / MsPerSecond;
      }
      var elapsed := Wrap64(nowMs / MsPerSecond - lastSynchronization);
      ret := Wrap64(lastRetrievedTimeSinceNtpEpoch + elapsed);
    }

    /**
     * AiaClock_SetTimeSinceNTPEpoch. `nowMs` is the monotonic clock's
     * reading; `secondsSinceUtcEpoch` is the value whose calendar form is
     * logged.
     */
    method SetTimeSinceNtpEpoch(secondsSinceNtpEpoch: uint64, nowMs: uint64) returns (secondsSinceUtcEpoch: int64)
      modifies this
      ensures serverSynchronized
      ensures lastSynchronization == nowMs / MsPerSecond
      ensures lastRetrievedTimeSinceNtpEpoch == secondsSinceNtpEpoch
      ensures NtpFromUnix(secondsSinceUtcEpoch) == secondsSinceNtpEpoch
    {
      secondsSinceUtcEpoch := UnixFromNtp(secondsSinceNtpEpoch);
      NtpRoundTrip(secondsSinceNtpEpoch);
      serverSynchronized := true;
      lastSynchronization := nowMs / MsPerSecond;
      lastRetrievedTimeSinceNtpEpoch := secondsSinceNtpEpoch;
    }
  }
}
