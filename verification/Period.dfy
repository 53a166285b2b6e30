/**
 * Billing days and the instants they cover (`src/billing/period.rs`). A day is its number; an
 * instant is its nanosecond, as `Timefmt.Nanos` counts it; the calendar is a fixed offset from UTC.
 */
module Period {
  const MINUTE: int := 60_000_000_000
  const DAY: int := 1440 * MINUTE

  /** The first instant the `time` crate's calendar does not hold: year 10000 begins. */
  const CALENDAR_END: int := 3_652_425 * DAY

  /** Minutes east of UTC, from Baker Island to Kiritimati. */
  type Timezone = m: int | -720 <= m <= 840

  type Day = int

  /** The calendar day an instant falls in: a floor, so instants before the epoch round down. */
  function DayOf(instant: int, tz: Timezone): Day {
    (instant + tz * MINUTE) / DAY
  }

  function StartUtc(day: Day, tz: Timezone): int {
    day * DAY - tz * MINUTE
  }

  function EndExclusiveUtc(day: Day, tz: Timezone): int {
    StartUtc(day + 1, tz)
  }

  predicate Contains(day: Day, tz: Timezone, instant: int) {
    StartUtc(day, tz) <= instant < EndExclusiveUtc(day, tz)
  }

  /** An instant lies in the period of the day it falls in, and in no other. */
  lemma ContainsExactly(day: Day, tz: Timezone, instant: int)
    ensures Contains(day, tz, instant) <==> DayOf(instant, tz) == day
  {
    var local := instant + tz * MINUTE;
    assert local == DAY * (local / DAY) + local % DAY;
  }

  /** Days `first` through `last` cover exactly the instants from the one's start to the other's end. */
  lemma DaysTile(first: Day, last: Day, tz: Timezone, instant: int)
    ensures StartUtc(first, tz) <= instant < EndExclusiveUtc(last, tz) <==> first <= DayOf(instant, tz) <= last
  {
    ContainsExactly(DayOf(instant, tz), tz, instant);
  }

  /** Ten in the morning UTC is midnight on Kiritimati; a minute before noon it is still yesterday on Baker Island. */
  lemma EastIsAhead()
    ensures DayOf(600 * MINUTE, 840) == 1 && DayOf(600 * MINUTE - 1, 840) == 0 && StartUtc(1, 840) == 600 * MINUTE
    ensures DayOf(719 * MINUTE, -720) == -1 && DayOf(720 * MINUTE, -720) == 0 && StartUtc(0, -720) == 720 * MINUTE
  {
  }
}
