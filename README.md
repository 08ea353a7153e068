# libnsutils monotonic millisecond clock, in Dafny

This project models `nsu_getmonotonic_ms` from libnsutils (`src/time.c`), the
clock that NetSurf uses for timeouts and scheduling. The function reads a
platform timer and converts the reading into whole milliseconds, always
truncating. It then makes sure the caller never sees time stand still or go
backwards. A hidden `static uint64_t prev`, initially 0, holds the last value
reported:

- when the converted reading is strictly later than `prev`, it is reported
  and stored;
- otherwise `prev` is incremented and the new `prev` is reported.

The function always returns `NSUERROR_OK`.

Two modules:

- `TimeUnits` (`units.dfy`) holds the pure conversion formulas, one per
  reading format: seconds plus nanoseconds (POSIX and Mach), seconds plus
  microseconds (AmigaOS and the `gettimeofday` fallback), and RISC OS
  centisecond ticks. Each function's contract says what "whole milliseconds,
  rounded down" means. Lemmas give the sub-second bound, the truncation
  examples, and show that the three formats agree on the same instant.
- `MonotonicTime` (`clock.dfy`) holds the never-go-backwards step as a pure
  function `Next`, its iteration over a stream of readings (`Run`, `Final`),
  lemmas about them, and the class `MonotonicClock`. The class's field `prev`
  is the hidden static state. Its method `GetMonotonicMs` updates `prev` in
  place and returns the status and the reported value. Ghost fields record
  the readings supplied and the values reported. The invariant `Valid()` ties
  them to `Run` and `Final`.

`prev` is an unsigned 64-bit value, and `prev += 1` wraps at 2^64 as it does
in C. For that reason, every strict-increase guarantee is stated for states
below 2^64 - 1. That value is reached by a reading within k ms of 2^64 - 1
followed by k tied calls; a negative converted value, converted to
`uint64_t`, lands there.

## Model

| member | source | states |
|---|---|---|
| TimeUnits.MsFromTimespec | src/time.c:45 | the result is the number of whole milliseconds in `sec` s + `nsec` ns, rounded down (ms·10^6 ≤ total ns < (ms+1)·10^6); the Mach branch at line 59 uses the same formula |
| TimeUnits.MsFromTimeval | src/time.c:77 | the result is the number of whole milliseconds in `sec` s + `usec` µs, rounded down (ms·10^3 ≤ total µs < (ms+1)·10^3); the AmigaOS branch at line 69 uses the same formula |
| TimeUnits.MsFromCentiseconds | src/time.c:50 | each RISC OS centisecond tick is exactly 10 ms: the result is a multiple of 10 whose tenth is the tick count |
| TimeUnits.TimespecSubsecond | src/time.c:59 | with `nsec` < 10^9, the seconds give the thousands of the result and the sub-second part adds at most 999 (exactly `nsec / 10^6`) |
| TimeUnits.TimevalSubsecond | src/time.c:69 | with `usec` < 10^6, the seconds give the thousands of the result and the sub-second part adds at most 999 (exactly `usec / 1000`) |
| TimeUnits.TimespecTruncates | src/time.c:45 | 1 s and 999,999,999 ns converts to 1999 ms, not 2000 |
| TimeUnits.TimevalTruncates | src/time.c:77 | 1 s and 999,999 µs converts to 1999 ms, not 2000 |
| TimeUnits.TimevalAgreesWithTimespec | src/time.c:45-77 | the microsecond formula gives the same milliseconds as the nanosecond formula for the same instant (usec µs = usec·1000 ns) |
| TimeUnits.CentisecondsAgreeWithTimespec | src/time.c:45-50 | the centisecond formula gives the same milliseconds as the nanosecond formula for the same instant (ticks = 100·sec + cs, cs centiseconds = cs·10^7 ns) |
| MonotonicTime.Next | src/time.c:81-87 | one call's report, which is also the new `prev`: below 2^64 - 1 it is strictly later than `prev` and no earlier than the reading; at 2^64 - 1, `prev += 1` wraps to 0 |
| MonotonicTime.NextIsLeastAdvance | src/time.c:80-88 | below 2^64 - 1, a call reports max(raw, prev + 1): the least value no earlier than the reading and strictly later than the last report |
| MonotonicTime.NextPassesThrough | src/time.c:81-83 | the reading is reported unchanged if and only if it is strictly later than `prev` (or in the one wrap-around case where the reading is 0 and `prev` is 2^64 - 1) |
| MonotonicTime.NextSynthesizes | src/time.c:84-87 | when the reading is equal to or earlier than `prev`, the report is `prev + 1` modulo 2^64 and does not depend on the reading |
| MonotonicTime.FirstCallAtZero | src/time.c:39-87 | starting from the initial `prev` of 0, a first reading of 0 reports 1 |
| MonotonicTime.Run | src/time.c:80-88 | a stream of calls gives exactly one report per reading |
| MonotonicTime.Final | src/time.c:81-88 | the stored `prev` after a stream of calls: after any non-empty stream it equals the value last reported |
| MonotonicTime.RunSnoc | src/time.c:80-88 | one more call appends that call's report to the run and moves `prev` to it |
| MonotonicTime.RunStrictlyIncreasing | src/time.c:80-88 | for any readings, including equal or regressing ones, the reports strictly increase, each is later than the starting `prev` and no earlier than its own reading, and the i-th report runs at most i + 1 ms ahead of the largest reading or starting `prev` b (while b + number of calls stays below 2^64 - 1, a conservative bound) |
| MonotonicTime.RunPassesThrough | src/time.c:81-83 | readings that strictly increase past `prev` are reported unchanged |
| MonotonicTime.TiesCollapse | src/time.c:81-87 | three calls with the same reading r later than `prev` report r, r + 1, r + 2 |
| MonotonicTime.MonotonicClock.constructor | src/time.c:39 | the clock starts with `prev` = 0 and nothing reported |
| MonotonicTime.MonotonicClock.GetMonotonicMs | src/time.c:36-90 | reports the reading and stores it when it is later than `prev`, otherwise stores and reports `prev + 1` modulo 2^64; the stored `prev` equals the reported value; the status is always `Ok`; below 2^64 - 1 the report is later than the old `prev` and keeps the history of reports strictly increasing |

## Left out

- The platform timer reads (`clock_gettime`, `os_read_monotonic_time`, `host_get_clock_service` / `clock_get_time` / `mach_port_deallocate`, `ITimer->GetUpTime` with its `assert(ITimer != NULL)`, `gettimeofday`) are calls into the operating system. `GetMonotonicMs` takes the converted reading as its parameter `raw` instead, and the conversions are separate functions.
- The compile-time choice of platform (`#if` / `#elif`) and the header includes are not modelled. Every conversion formula is modelled on its own.
- The C integer widths inside the platform structures are not modelled. Conversion inputs and results are unbounded naturals. The reading passed to the clock is a 64-bit unsigned value, as `current` is. In particular:
  - the signed `time_t` multiplication `tv_sec * 1000` (src/time.c:45, 77) could overflow;
  - the Mach product `mts.tv_sec * 1000` (src/time.c:59) and the AmigaOS product `tv.Seconds * 1000` (src/time.c:69) multiply 32-bit unsigned fields, which wrap after about 49.7 days of uptime; from then on the clock advances only by the +1 synthesis;
  - the width of RISC OS `os_t` in `time * 10` (src/time.c:50).
- Negative readings are not modelled. The wall-clock fallback's `time_t` is signed, so a clock set before 1970 gives negative fields (src/time.c:77), and a negative result converted to `uint64_t` lands near 2^64 - 1.
- The wall-clock jumps of the `gettimeofday` fallback depend on the external clock and cannot be stated here. The model accepts any reading, so a backward jump is covered by the synthesis rule.
- Concurrent callers are not modelled. The clock assumes one caller stream, as the unsynchronised `static prev` does.
- `nsuerror` is modelled with its `Ok` value only. The other codes of `nsutils/errors.h` are not part of this model, because this function never returns them.
- MonotonicTime.MonotonicClock.GetMonotonicMs: strict increase is promised only while the old `prev` is below 2^64 - 1, because at that value `prev += 1` wraps to 0 in the source as well.
