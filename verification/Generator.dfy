/** Which days may be closed, and when (`src/billing/statements.rs`). */
module Generator {
  import opened Prelude
  import opened Period

  const MAX_CATCHUP_DAYS := 31

  /** The constructor clamps a negative delay to zero. */
  datatype Generator = Generator(tz: Timezone, closeDelayMinutes: nat) {

    function CutoffFor(day: Day): int {
      EndExclusiveUtc(day, tz) + closeDelayMinutes * MINUTE
    }

    function ClosableThrough(now: int): Option<Day> {
      var yesterday := DayOf(now, tz) - 1;
      if CutoffFor(yesterday) <= now then Some(yesterday)
      else if CutoffFor(yesterday - 1) <= now then Some(yesterday - 1)
      else None
    }

    function OldestCloseable(through: Day): Day {
      through - (MAX_CATCHUP_DAYS - 1)
    }

    /** The first day of a walk. */
    function FirstDay(last: Option<Day>, through: Day): Day {
      match last
      case Some(day) => Max(day + 1, OldestCloseable(through))
      case None => OldestCloseable(through)
    }

    function CatchupTruncated(last: Option<Day>, through: Day): bool {
      match last
      case Some(day) => day + 1 < OldestCloseable(through)
      case None => true
    }

    /**
     * The days a partner still owes a statement for, oldest first: exactly those after the last one
     * closed, up to `through` and within the month that ends there, each once.
     */
    method DaysToClose(last: Option<Day>, through: Day) returns (days: seq<Day>)
      ensures forall day :: day in days <==>
        (last.Some? ==> last.value < day) && day <= through && through - day < MAX_CATCHUP_DAYS
      ensures forall i, j :: 0 <= i < j < |days| ==> days[i] < days[j]
      ensures |days| == Max(0, through + 1 - FirstDay(last, through)) <= MAX_CATCHUP_DAYS
      ensures forall i :: 0 <= i < |days| ==> days[i] == FirstDay(last, through) + i
      ensures last.Some? && days != [] ==> (CatchupTruncated(last, through) <==> days[0] != last.value + 1)
    {
      var floor := OldestCloseable(through);
      var day := match last { case Some(d) => d + 1 case None => floor };
      if day < floor {
        day := floor;
      }
      days := [];
      while day <= through
        invariant day == FirstDay(last, through) + |days|
        invariant |days| <= Max(0, through + 1 - FirstDay(last, through))
        invariant forall i :: 0 <= i < |days| ==> days[i] == FirstDay(last, through) + i
      {
        days := days + [day];
        day := day + 1;
      }
      forall d | FirstDay(last, through) <= d <= through ensures d in days {
        assert days[d - FirstDay(last, through)] == d;
      }
    }
  }

  /** The newest day whose cutoff has passed: the day before the one the clock was in a delay ago. */
  function NewestSettled(g: Generator, now: int): Day {
    DayOf(now - g.closeDelayMinutes * MINUTE, g.tz) - 1
  }

  lemma SettledExactly(g: Generator, now: int, day: Day)
    ensures g.CutoffFor(day) <= now <==> day <= NewestSettled(g, now)
  {
    var reached := now - g.closeDelayMinutes * MINUTE;
    ContainsExactly(DayOf(reached, g.tz), g.tz, reached);
  }

  /** How far into its day the clock is. */
  function SinceMidnight(g: Generator, now: int): int {
    now - StartUtc(DayOf(now, g.tz), g.tz)
  }

  /**
   * Whenever the scheduler names a day it is the newest settled one; and it names one exactly
   * when the delay reaches back no further than the start of yesterday.
   */
  lemma ClosableIsNewestSettled(g: Generator, now: int)
    ensures g.ClosableThrough(now).Some? ==> g.ClosableThrough(now).value == NewestSettled(g, now)
    ensures g.ClosableThrough(now).Some? <==> g.closeDelayMinutes * MINUTE <= SinceMidnight(g, now) + DAY
  {
    var today := DayOf(now, g.tz);
    ContainsExactly(today, g.tz, now);
    SettledExactly(g, now, today - 1);
    SettledExactly(g, now, today - 2);
    SettledExactly(g, now, today);
    DelayNotNegative(g);
    assert g.CutoffFor(today - 2) == StartUtc(today, g.tz) - DAY + g.closeDelayMinutes * MINUTE;
    assert g.CutoffFor(today - 1) == StartUtc(today, g.tz) + g.closeDelayMinutes * MINUTE;
    assert g.CutoffFor(today) > now;
  }

  lemma DelayNotNegative(g: Generator)
    ensures g.closeDelayMinutes * MINUTE >= 0
  {
  }

  /** A delay of up to a day always finds a day to close; a longer one, at some instant, finds none. */
  lemma AlwaysClosableExactlyWhen(g: Generator)
    ensures (forall now: int :: g.ClosableThrough(now).Some?) <==> g.closeDelayMinutes <= 1440
  {
    forall now: int | g.closeDelayMinutes <= 1440 ensures g.ClosableThrough(now).Some? {
      ClosableIsNewestSettled(g, now);
      ContainsExactly(DayOf(now, g.tz), g.tz, now);
    }
    var midnight := StartUtc(0, g.tz);
    ContainsExactly(0, g.tz, midnight);
    ClosableIsNewestSettled(g, midnight);
    assert g.ClosableThrough(midnight).Some? ==> g.closeDelayMinutes <= 1440;
  }

  /** A delay of two days or more never closes anything: the look-back of two days cannot reach it. */
  lemma NeverClosableExactlyWhen(g: Generator)
    ensures (forall now: int :: g.ClosableThrough(now).None?) <==> g.closeDelayMinutes >= 2880
  {
    forall now: int | g.closeDelayMinutes >= 2880 ensures g.ClosableThrough(now).None? {
      ClosableIsNewestSettled(g, now);
      ContainsExactly(DayOf(now, g.tz), g.tz, now);
    }
    var late := EndExclusiveUtc(0, g.tz) - 1;
    ContainsExactly(0, g.tz, late);
    ClosableIsNewestSettled(g, late);
    assert g.ClosableThrough(late).None? ==> g.closeDelayMinutes >= 2880;
  }

  /** The answer only moves forward in time, for every delay: a day closed once is never un-closed. */
  lemma ClosableMonotone(g: Generator, now: int, later: int)
    requires now <= later
    requires g.ClosableThrough(now).Some? && g.ClosableThrough(later).Some?
    ensures g.ClosableThrough(now).value <= g.ClosableThrough(later).value
  {
    ClosableIsNewestSettled(g, now);
    ClosableIsNewestSettled(g, later);
    SettledExactly(g, now, NewestSettled(g, now));
    SettledExactly(g, later, NewestSettled(g, now));
  }

  /**
   * With a delay of 25 hours the scheduler can lose the day it had: half an hour before midnight it
   * closes one, half an hour after, none.
   */
  lemma LongDelayLosesADay()
    ensures var g := Generator(0, 1500);
      g.ClosableThrough(DAY - 30 * MINUTE) == Some(-2) && g.ClosableThrough(DAY + 30 * MINUTE) == None
  {
  }

  /** No walk reaches a day before its cutoff. */
  lemma WalkIsSettled(g: Generator, now: int, through: Day, day: Day)
    requires g.ClosableThrough(now) == Some(through) && day <= through
    ensures g.CutoffFor(day) <= now
  {
    ClosableIsNewestSettled(g, now);
    SettledExactly(g, now, day);
  }
}
