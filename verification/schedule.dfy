/**
 The daily scheduling rule of the reminder loop: from the local wall-clock
 time `now`, build today's 20:00:00, roll it forward one day when `now` is
 strictly later, and wait for the difference.

 Local time is a count of 100-nanosecond ticks, the resolution of a .NET
 `DateTime`; the date is the tick count divided by the ticks of one day and
 the time of day is the remainder. Converting the UTC clock into the
 Brasilia time zone is a library call and is not modelled: `now` is given.
 */
module Schedule {

  const TicksPerSecond: nat := 10_000_000
  const TicksPerHour: nat := 3600 * TicksPerSecond
  const TicksPerDay: nat := 24 * TicksPerHour

  /** The reminder fires at 20:00:00 local time. */
  const ReminderHour: nat := 20
  const ReminderTimeOfDay: nat := ReminderHour * TicksPerHour

  /** A local wall-clock instant, in ticks since the start of day 0. */
  type Instant = nat

  function DayOf(t: Instant): nat {
    t / TicksPerDay
  }

  function TimeOfDay(t: Instant): (tod: nat)
    ensures tod < TicksPerDay
  {
    t % TicksPerDay
  }

  /** An instant is determined by its day and its time of day. */
  lemma {:induction false} Decompose(day: nat, offset: nat)
    requires offset < TicksPerDay
    ensures DayOf(day * TicksPerDay + offset) == day
    ensures TimeOfDay(day * TicksPerDay + offset) == offset
  {
  }

  /** `new DateTime(year, month, day, hour, minute, second)`: the given
      date at a whole second, with no sub-second part. For a valid clock
      time it falls within that date. */
  function At(day: nat, hour: nat, minute: nat, second: nat): (t: Instant)
    ensures hour < 24 && minute < 60 && second < 60 ==>
      day * TicksPerDay <= t < day * TicksPerDay + TicksPerDay
  {
    day * TicksPerDay + (hour * 3600 + minute * 60 + second) * TicksPerSecond
  }

  /** For a valid clock time, `At` builds exactly that date and time of day. */
  lemma {:induction false} AtParts(day: nat, hour: nat, minute: nat, second: nat)
    requires hour < 24 && minute < 60 && second < 60
    ensures DayOf(At(day, hour, minute, second)) == day
    ensures TimeOfDay(At(day, hour, minute, second)) == (hour * 3600 + minute * 60 + second) * TicksPerSecond
  {
    Decompose(day, (hour * 3600 + minute * 60 + second) * TicksPerSecond);
  }

  /** `DateTime.AddDays(n)` for a whole number of days. */
  function AddDays(t: Instant, n: nat): Instant
  {
    t + n * TicksPerDay
  }

  /** `AddDays` keeps the time of day and moves the date by `n`. */
  lemma {:induction false} AddDaysParts(t: Instant, n: nat)
    ensures DayOf(AddDays(t, n)) == DayOf(t) + n
    ensures TimeOfDay(AddDays(t, n)) == TimeOfDay(t)
  {
    Decompose(DayOf(t) + n, TimeOfDay(t));
  }

  /** The instant the loop waits for: today's 20:00:00, or tomorrow's when
      `now` is strictly past it. What it is, is stated by `TargetDate` and
      `NextReminderIsNextOccurrence` below. */
  function NextReminder(now: Instant): Instant
  {
    var today := At(DayOf(now), ReminderHour, 0, 0);
    if now > today then AddDays(today, 1) else today
  }

  /** The `TimeSpan` handed to `Task.Delay`, in ticks; `DelayBounds`
      bounds it. */
  function Delay(now: Instant): int
  {
    NextReminder(now) - now
  }

  /** `t` is the first instant at or after `now` whose time of day is 20:00:00. */
  ghost predicate IsNextOccurrence(now: Instant, t: Instant)
  {
    && now <= t
    && TimeOfDay(t) == ReminderTimeOfDay
    && forall u: Instant :: now <= u < t ==> TimeOfDay(u) != ReminderTimeOfDay
  }

  /** The target falls at exactly 20:00:00, on the date of `now` when `now`
      is at or before 20:00:00 and on the next date otherwise. */
  lemma {:induction false} TargetDate(now: Instant)
    ensures TimeOfDay(NextReminder(now)) == ReminderTimeOfDay
    ensures TimeOfDay(now) <= ReminderTimeOfDay ==> DayOf(NextReminder(now)) == DayOf(now)
    ensures TimeOfDay(now) > ReminderTimeOfDay ==> DayOf(NextReminder(now)) == DayOf(now) + 1
  {
    var day := DayOf(now);
    assert now == day * TicksPerDay + TimeOfDay(now);
    AtParts(day, ReminderHour, 0, 0);
  }

  /** The delay is never negative and always shorter than one day: at most
      20 hours up to 20:00:00, more than 20 hours after it, and zero exactly
      when `now` is 20:00:00 (the comparison is strict). */
  lemma {:induction false} DelayBounds(now: Instant)
    ensures 0 <= Delay(now) < TicksPerDay
    ensures TimeOfDay(now) <= ReminderTimeOfDay ==> Delay(now) == ReminderTimeOfDay - TimeOfDay(now)
    ensures TimeOfDay(now) > ReminderTimeOfDay ==> ReminderTimeOfDay < Delay(now) < TicksPerDay
    ensures Delay(now) == 0 <==> TimeOfDay(now) == ReminderTimeOfDay
  {
    Decompose(DayOf(now), TimeOfDay(now));
  }

  /** Every instant whose time of day is 20:00:00 is a whole number of days
      after the 20:00:00 of day 0. */
  lemma {:induction false} OccurrenceShape(t: Instant)
    requires TimeOfDay(t) == ReminderTimeOfDay
    ensures t == DayOf(t) * TicksPerDay + ReminderTimeOfDay
  {
  }

  /** The rule picks the first 20:00:00 at or after `now`. */
  lemma {:induction false} NextReminderIsNextOccurrence(now: Instant)
    ensures IsNextOccurrence(now, NextReminder(now))
  {
    var target := NextReminder(now);
    TargetDate(now);
    forall u: Instant | now <= u < target
      ensures TimeOfDay(u) != ReminderTimeOfDay
    {
      if TimeOfDay(u) == ReminderTimeOfDay {
        OccurrenceShape(u);
      }
    }
  }

  /** Only one instant is the next occurrence, so the rule is the reference
      definition and nothing else. */
  lemma {:induction false} NextOccurrenceUnique(now: Instant, t: Instant)
    requires IsNextOccurrence(now, t)
    ensures t == NextReminder(now)
  {
    NextReminderIsNextOccurrence(now);
  }

  /** Recomputing at any instant up to and including the target gives the
      same target: an early wake-up or a repeated computation cannot move it. */
  lemma {:induction false} TargetStable(now: Instant, later: Instant)
    requires now <= later <= NextReminder(now)
    ensures NextReminder(later) == NextReminder(now)
  {
    var target := NextReminder(now);
    NextReminderIsNextOccurrence(now);
    assert IsNextOccurrence(later, target);
    NextOccurrenceUnique(later, target);
  }

  /** Once a 20:00:00 target has passed, any instant up to one day later
      schedules exactly the following day's 20:00:00. */
  lemma {:induction false} NextDayAfterFiring(fired: Instant, now: Instant)
    requires TimeOfDay(fired) == ReminderTimeOfDay
    requires fired < now <= fired + TicksPerDay
    ensures NextReminder(now) == fired + TicksPerDay
  {
    var next := fired + TicksPerDay;
    OccurrenceShape(fired);
    Decompose(DayOf(fired) + 1, ReminderTimeOfDay);
    assert next == (DayOf(fired) + 1) * TicksPerDay + ReminderTimeOfDay;
    forall u: Instant | now <= u < next
      ensures TimeOfDay(u) != ReminderTimeOfDay
    {
      if TimeOfDay(u) == ReminderTimeOfDay {
        OccurrenceShape(u);
      }
    }
    assert IsNextOccurrence(now, next);
    NextOccurrenceUnique(now, next);
  }

  /** At exactly a 20:00:00 target the rule schedules that same instant
      again, with no delay. */
  lemma {:induction false} AtTargetFiresAgain(fired: Instant)
    requires TimeOfDay(fired) == ReminderTimeOfDay
    ensures NextReminder(fired) == fired
    ensures Delay(fired) == 0
  {
    DelayBounds(fired);
  }
}
