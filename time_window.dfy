/** `is_time_within_range`: whether the current time lies in the window of
    `TIME_THRESHOLD_MINS` minutes before and after an event's start. Instants
    are integers counting microseconds, the resolution of Python's `datetime`;
    the current time is a parameter instead of a reading of the clock. */
module TimeWindow {

  /** An absolute point in time, in microseconds since a fixed epoch. */
  type Instant = int

  /** How many minutes before or into the meeting its conference URL is shown. */
  const TimeThresholdMins: int := 20

  const MicrosPerMinute: int := 60 * 1000 * 1000

  /** `timedelta(minutes=TIME_THRESHOLD_MINS)` in microseconds. */
  const Threshold: int := TimeThresholdMins * MicrosPerMinute

  function Abs(x: int): (a: nat)
    ensures a == x || a == -x
  {
    if x < 0 then -x else x
  }

  /** True when `now` is no more than the threshold away from the event start,
      on either side, the two ends included. */
  function IsTimeWithinRange(eventStart: Instant, now: Instant): (within: bool)
    ensures within <==> Abs(now - eventStart) <= Threshold
  {
    var minInstant := eventStart - Threshold;
    var maxInstant := eventStart + Threshold;
    minInstant <= now <= maxInstant
  }

  /** Being within the window is symmetric in the event start and the current time. */
  lemma WithinRangeSymmetric(eventStart: Instant, now: Instant)
    ensures IsTimeWithinRange(eventStart, now) == IsTimeWithinRange(now, eventStart)
  {
  }

  /** Both ends of the window are inside it, and the instants just beyond them are not. */
  lemma WindowBounds(eventStart: Instant)
    ensures IsTimeWithinRange(eventStart, eventStart - 20 * MicrosPerMinute)
    ensures IsTimeWithinRange(eventStart, eventStart + 20 * MicrosPerMinute)
    ensures !IsTimeWithinRange(eventStart, eventStart - 20 * MicrosPerMinute - 1)
    ensures !IsTimeWithinRange(eventStart, eventStart + 20 * MicrosPerMinute + 1)
  {
  }

  /** The window has no holes: an instant between two instants of the window is in it. */
  lemma WindowIsInterval(eventStart: Instant, a: Instant, b: Instant, now: Instant)
    requires IsTimeWithinRange(eventStart, a) && IsTimeWithinRange(eventStart, b)
    requires a <= now <= b
    ensures IsTimeWithinRange(eventStart, now)
  {
  }
}
