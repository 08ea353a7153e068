/**
  Conversion of a platform timer reading into whole milliseconds, as done
  by each branch of nsu_getmonotonic_ms before the never-go-backwards step.
  Every division truncates: sub-millisecond remainders are discarded.
  Readings are taken as natural numbers: negative fields (possible in the
  signed `time_t` of the wall-clock fallback) are not modelled.
 */
module TimeUnits {

  const NanosPerMilli: nat := 1_000_000
  const MicrosPerMilli: nat := 1_000
  const MillisPerSecond: nat := 1_000
  const NanosPerSecond: nat := 1_000_000_000
  const MicrosPerSecond: nat := 1_000_000

  /** A reading of seconds plus nanoseconds (POSIX `clock_gettime`, Mach `clock_get_time`).
      The result is the whole number of milliseconds in the reading, rounded down. */
  function MsFromTimespec(sec: nat, nsec: nat): (ms: nat)
    ensures ms * NanosPerMilli <= sec * NanosPerSecond + nsec < (ms + 1) * NanosPerMilli
  {
    var q := nsec / NanosPerMilli;
    assert q * NanosPerMilli <= nsec < (q + 1) * NanosPerMilli;
    sec * MillisPerSecond + q
  }

  /** A reading of seconds plus microseconds (AmigaOS `GetUpTime`, `gettimeofday`).
      The result is the whole number of milliseconds in the reading, rounded down. */
  function MsFromTimeval(sec: nat, usec: nat): (ms: nat)
    ensures ms * MicrosPerMilli <= sec * MicrosPerSecond + usec < (ms + 1) * MicrosPerMilli
  {
    var q := usec / MicrosPerMilli;
    assert q * MicrosPerMilli <= usec < (q + 1) * MicrosPerMilli;
    sec * MillisPerSecond + q
  }

  /** A RISC OS monotonic time in centiseconds: every tick is exactly ten
      milliseconds, so nothing is lost and the tick count can be read back. */
  function MsFromCentiseconds(ticks: nat): (ms: nat)
    ensures ms / 10 == ticks && ms % 10 == 0
  {
    ticks * 10
  }

  /** With a well-formed nanosecond field, the whole seconds give the
      thousands of the result and the sub-second part adds at most 999. */
  lemma TimespecSubsecond(sec: nat, nsec: nat)
    requires nsec < NanosPerSecond
    ensures sec * MillisPerSecond <= MsFromTimespec(sec, nsec) <= sec * MillisPerSecond + 999
    ensures MsFromTimespec(sec, nsec) / MillisPerSecond == sec
    ensures MsFromTimespec(sec, nsec) % MillisPerSecond == nsec / NanosPerMilli
  {
  }

  /** With a well-formed microsecond field, the whole seconds give the
      thousands of the result and the sub-second part adds at most 999. */
  lemma TimevalSubsecond(sec: nat, usec: nat)
    requires usec < MicrosPerSecond
    ensures sec * MillisPerSecond <= MsFromTimeval(sec, usec) <= sec * MillisPerSecond + 999
    ensures MsFromTimeval(sec, usec) / MillisPerSecond == sec
    ensures MsFromTimeval(sec, usec) % MillisPerSecond == usec / MicrosPerMilli
  {
  }

  /** Truncation, not rounding: 1 s and 999,999,999 ns is 1999 ms. */
  lemma TimespecTruncates()
    ensures MsFromTimespec(1, 999_999_999) == 1999
  {
  }

  /** Truncation, not rounding: 1 s and 999,999 us is 1999 ms. */
  lemma TimevalTruncates()
    ensures MsFromTimeval(1, 999_999) == 1999
  {
  }

  /** The microsecond conversion agrees with the nanosecond one on the same instant. */
  lemma TimevalAgreesWithTimespec(sec: nat, usec: nat)
    ensures MsFromTimeval(sec, usec) == MsFromTimespec(sec, usec * 1000)
  {
  }

  /** The centisecond conversion agrees with the nanosecond one on the same instant. */
  lemma CentisecondsAgreeWithTimespec(ticks: nat)
    ensures MsFromCentiseconds(ticks) == MsFromTimespec(ticks / 100, (ticks % 100) * 10_000_000)
  {
  }
}
