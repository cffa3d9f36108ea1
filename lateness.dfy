/**
 * The lateness rule: a submission is late when the chosen commit's time is
 * after the deadline, 2025-11-03 23:59 in Riyadh (UTC+03:00).
 */
module Lateness {
  import opened Wrappers

  /** `DUE_EPOCH_MS`: the deadline in milliseconds since the Unix epoch. */
  const DueEpochMs: int := 1_762_203_540_000

  /** Leap years of the proleptic Gregorian calendar. */
  predicate IsLeapYear(y: int) {
    y % 4 == 0 && (y % 100 != 0 || y % 400 == 0)
  }

  /** Leap years among 1, …, n (for n >= 0). */
  function LeapYearsThrough(n: nat): nat {
    n / 4 - n / 100 + n / 400
  }

  /** Days from 1 January 1970 to 1 January of year `y`, for years from 1970 on. */
  function DaysBeforeYear(y: int): nat
    requires y >= 1970
  {
    365 * (y - 1970) + LeapYearsThrough(y - 1) - LeapYearsThrough(1969)
  }

  /** Days before the first of month `m` (1 to 12) in year `y`. */
  function DaysBeforeMonth(y: int, m: int): nat
    requires 1 <= m <= 12
  {
    var before := [0, 31, 59, 90, 120, 151, 181, 212, 243, 273, 304, 334];
    before[m - 1] + if m > 2 && IsLeapYear(y) then 1 else 0
  }

  /**
   * The epoch-millisecond value of a wall-clock minute at a fixed UTC offset,
   * as `Date.parse` reads "YYYY-MM-DDTHH:MM:00±HH:MM".
   */
  function WallClockMs(y: int, m: int, d: int, hh: int, mm: int, offsetMinutes: int): int
    requires y >= 1970 && 1 <= m <= 12
  {
    var days := DaysBeforeYear(y) + DaysBeforeMonth(y, m) + (d - 1);
    ((days * 24 + hh) * 60 + mm - offsetMinutes) * 60_000
  }

  /** The constant is the instant "2025-11-03T23:59:00+03:00". */
  lemma DueIsRiyadhDeadline()
    ensures DueEpochMs == WallClockMs(2025, 11, 3, 23, 59, 180)
  {
    assert LeapYearsThrough(2024) == 491;
    assert LeapYearsThrough(1969) == 477;
    assert !IsLeapYear(2025);
  }

  /**
   * `wasSubmittedLate(commitEpochMs)`: an unknown time (null) or a time of 0
   * is never late; otherwise the submission is late strictly after the deadline.
   */
  function WasSubmittedLate(commitEpochMs: Option<int>): (late: bool)
    ensures late <==> commitEpochMs.Some? && commitEpochMs.value > DueEpochMs
  {
    if commitEpochMs.None? || commitEpochMs.value == 0 then false
    else commitEpochMs.value > DueEpochMs
  }

  /** A commit exactly at the deadline is on time; one millisecond later is late. */
  lemma DeadlineIsInclusive()
    ensures !WasSubmittedLate(Some(DueEpochMs))
    ensures WasSubmittedLate(Some(DueEpochMs + 1))
  {
  }

  /** Lateness never decreases as the commit time moves later. */
  lemma LatenessIsMonotone(a: int, b: int)
    requires a <= b
    ensures WasSubmittedLate(Some(a)) ==> WasSubmittedLate(Some(b))
  {
  }
}
