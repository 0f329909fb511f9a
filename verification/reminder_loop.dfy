/**
 The `while (true)` of the reminder loop over a simulated local clock. Each
 iteration reads the clock, computes the next 20:00:00 and the delay to it,
 waits, and fires the reminder in every guild. The loop never ends by
 itself; here it runs for as many rounds as the world supplies, and it
 stops early, as the source does, when a send throws an exception other
 than an `HttpException`.
 */
module ReminderLoop {
  import opened Schedule
  import opened Broadcast

  /** What the world supplies to one iteration: the guilds the client lists
      when the delay ends, the platform's answers to that iteration's sends,
      and the local time that passes from the target instant to the next
      reading of the clock (the lateness of `Task.Delay` plus the time the
      sends take). */
  datatype Round = Round(guilds: seq<Guild>, platform: Platform, elapsed: nat)

  /** One iteration: the clock reading, the target and delay computed from
      it, and the outcomes of the firing at the target. */
  datatype Iteration = Iteration(now: Instant, target: Instant, delay: int, outcomes: seq<GuildOutcome>)

  /** The iterations of the loop started at local time `start`: one per
      round, until a firing ends with an escaping exception. */
  function Run(start: Instant, rounds: seq<Round>): (iterations: seq<Iteration>)
    ensures |iterations| <= |rounds|
    decreases |rounds|
  {
    if rounds == [] then []
    else
      var target := NextReminder(start);
      var iteration := Iteration(start, target, Delay(start), Outcomes(rounds[0].guilds, rounds[0].platform));
      if Escaped(iteration.outcomes) then [iteration]
      else [iteration] + Run(target + rounds[0].elapsed, rounds[1..])
  }

  /** Every iteration of the run waits from its clock reading for the next
      20:00:00 and fires over its own round's guilds; the first reads the
      clock at `start`. */
  lemma {:induction false} RunIterations(start: Instant, rounds: seq<Round>)
    ensures rounds != [] ==> Run(start, rounds) != [] && Run(start, rounds)[0].now == start
    ensures forall k {:trigger NextReminder(Run(start, rounds)[k].now)} :: 0 <= k < |Run(start, rounds)| ==>
      Run(start, rounds)[k].target == NextReminder(Run(start, rounds)[k].now)
    ensures forall k :: 0 <= k < |Run(start, rounds)| ==>
      Run(start, rounds)[k].delay == Delay(Run(start, rounds)[k].now)
    ensures forall k {:trigger Outcomes(rounds[k].guilds, rounds[k].platform)} :: 0 <= k < |Run(start, rounds)| ==>
      Run(start, rounds)[k].outcomes == Outcomes(rounds[k].guilds, rounds[k].platform)
    decreases |rounds|
  {
    if rounds != [] {
      var target := NextReminder(start);
      var iteration := Iteration(start, target, Delay(start), Outcomes(rounds[0].guilds, rounds[0].platform));
      if !Escaped(iteration.outcomes) {
        var next := target + rounds[0].elapsed;
        RunIterations(next, rounds[1..]);
        var rest := Run(next, rounds[1..]);
        assert Run(start, rounds) == [iteration] + rest;
        assert forall k :: 1 <= k < 1 + |rest| ==> ([iteration] + rest)[k] == rest[k - 1] && rounds[1..][k - 1] == rounds[k];
      }
    }
  }

  /** Only the last iteration of a run can end with an escaping exception,
      and each clock reading after the first is the previous target plus the
      time that round took. */
  lemma {:induction false} RunChain(start: Instant, rounds: seq<Round>)
    ensures forall k :: 0 <= k < |Run(start, rounds)| - 1 ==>
      && !Escaped(Run(start, rounds)[k].outcomes)
      && Run(start, rounds)[k + 1].now == Run(start, rounds)[k].target + rounds[k].elapsed
    decreases |rounds|
  {
    if rounds != [] {
      var target := NextReminder(start);
      var iteration := Iteration(start, target, Delay(start), Outcomes(rounds[0].guilds, rounds[0].platform));
      if !Escaped(iteration.outcomes) {
        var next := target + rounds[0].elapsed;
        RunChain(next, rounds[1..]);
        RunIterations(next, rounds[1..]);
        var rest := Run(next, rounds[1..]);
        assert Run(start, rounds) == [iteration] + rest;
        assert forall k :: 1 <= k < 1 + |rest| ==> ([iteration] + rest)[k] == rest[k - 1] && rounds[1..][k - 1] == rounds[k];
      }
    }
  }

  /** A run stops before the rounds run out only after a firing whose
      exception escaped. */
  lemma {:induction false} RunStopsOnEscape(start: Instant, rounds: seq<Round>)
    ensures |Run(start, rounds)| < |rounds| ==>
      Run(start, rounds) != [] && Escaped(Run(start, rounds)[|Run(start, rounds)| - 1].outcomes)
    decreases |rounds|
  {
    if rounds != [] {
      var target := NextReminder(start);
      var iteration := Iteration(start, target, Delay(start), Outcomes(rounds[0].guilds, rounds[0].platform));
      if !Escaped(iteration.outcomes) {
        var next := target + rounds[0].elapsed;
        RunStopsOnEscape(next, rounds[1..]);
        var rest := Run(next, rounds[1..]);
        assert Run(start, rounds) == [iteration] + rest;
        if rest != [] {
          assert Run(start, rounds)[|Run(start, rounds)| - 1] == rest[|rest| - 1];
        }
      }
    }
  }

  /** One step of the run from round `i` on: the iteration of that round,
      then, unless it escaped, the run from the next round. */
  lemma {:induction false} RunFrom(now: Instant, rounds: seq<Round>, i: nat)
    requires i < |rounds|
    ensures var iteration := Iteration(now, NextReminder(now), Delay(now), Outcomes(rounds[i].guilds, rounds[i].platform));
      Run(now, rounds[i..]) ==
        if Escaped(iteration.outcomes) then [iteration]
        else [iteration] + Run(NextReminder(now) + rounds[i].elapsed, rounds[i + 1..])
  {
    assert rounds[i..][1..] == rounds[i + 1..];
  }

  /** `ReminderLoop`: compute the target, wait, fire, and read the clock
      again; an escaping exception ends the loop. */
  method RunReminderLoop(start: Instant, rounds: seq<Round>) returns (iterations: seq<Iteration>)
    ensures iterations == Run(start, rounds)
  {
    iterations := [];
    var now: Instant := start;
    var i := 0;
    assert rounds[0..] == rounds;
    while i < |rounds|
      invariant i <= |rounds|
      invariant iterations + Run(now, rounds[i..]) == Run(start, rounds)
    {
      var target := NextReminder(now);
      var delay := Delay(now);
      // Task.Delay(delay) is not modelled: the firing happens at `target`.
      var outcomes := SendReminders(rounds[i].guilds, rounds[i].platform);
      var iteration := Iteration(now, target, delay, outcomes);
      RunFrom(now, rounds, i);
      if Escaped(outcomes) {
        assert Run(now, rounds[i..]) == [iteration];
        iterations := iterations + [iteration];
        return;
      }
      ghost var rest := Run(target + rounds[i].elapsed, rounds[i + 1..]);
      assert Run(now, rounds[i..]) == [iteration] + rest;
      AppendAssociative(iterations, [iteration], rest);
      iterations := iterations + [iteration];
      assert iterations + rest == Run(start, rounds);
      now := target + rounds[i].elapsed;
      i := i + 1;
      assert Run(now, rounds[i..]) == rest;
    }
  }

  /** Every iteration waits a non-negative delay shorter than a day and
      fires at a 20:00:00. */
  lemma {:induction false} EveryIterationAtReminderTime(start: Instant, rounds: seq<Round>, k: nat)
    requires k < |Run(start, rounds)|
    ensures var iteration := Run(start, rounds)[k];
      && TimeOfDay(iteration.target) == ReminderTimeOfDay
      && 0 <= iteration.delay < TicksPerDay
      && iteration.target == iteration.now + iteration.delay
  {
    RunIterations(start, rounds);
    RunChain(start, rounds);
    var iteration := Run(start, rounds)[k];
    assert iteration.target == NextReminder(iteration.now);
    TargetDate(iteration.now);
    DelayBounds(iteration.now);
  }

  /** A firing that leaves the clock strictly after its target and at most
      a day after it is followed by a firing exactly one day later, on the
      next date. */
  lemma {:induction false} NextFiringOneDayLater(start: Instant, rounds: seq<Round>, k: nat)
    requires k + 1 < |Run(start, rounds)|
    requires 0 < rounds[k].elapsed <= TicksPerDay
    ensures Run(start, rounds)[k + 1].target == Run(start, rounds)[k].target + TicksPerDay
    ensures DayOf(Run(start, rounds)[k + 1].target) == DayOf(Run(start, rounds)[k].target) + 1
  {
    RunIterations(start, rounds);
    RunChain(start, rounds);
    var iterations := Run(start, rounds);
    assert iterations[k].target == NextReminder(iterations[k].now);
    assert iterations[k + 1].target == NextReminder(iterations[k + 1].now);
    TargetDate(iterations[k].now);
    NextDayAfterFiring(iterations[k].target, iterations[k + 1].now);
    AddDaysParts(iterations[k].target, 1);
  }

  /** When every firing completes strictly after its target and at most a
      day after it, consecutive firings are exactly one day apart, on
      consecutive dates: one firing per day. */
  lemma {:induction false} OneFiringPerDay(start: Instant, rounds: seq<Round>)
    requires forall k :: 0 <= k < |rounds| ==> 0 < rounds[k].elapsed <= TicksPerDay
    ensures forall k :: 0 <= k < |Run(start, rounds)| - 1 ==>
      && Run(start, rounds)[k + 1].target == Run(start, rounds)[k].target + TicksPerDay
      && DayOf(Run(start, rounds)[k + 1].target) == DayOf(Run(start, rounds)[k].target) + 1
  {
    forall k | 0 <= k < |Run(start, rounds)| - 1
      ensures Run(start, rounds)[k + 1].target == Run(start, rounds)[k].target + TicksPerDay
      ensures DayOf(Run(start, rounds)[k + 1].target) == DayOf(Run(start, rounds)[k].target) + 1
    {
      NextFiringOneDayLater(start, rounds, k);
    }
  }

  /** Under the same timing, the k-th firing is exactly k days after the
      first. */
  lemma {:induction false} FiringsDaysApart(start: Instant, rounds: seq<Round>, k: nat)
    requires forall j :: 0 <= j < |rounds| ==> 0 < rounds[j].elapsed <= TicksPerDay
    requires k < |Run(start, rounds)|
    ensures Run(start, rounds)[k].target == Run(start, rounds)[0].target + k * TicksPerDay
  {
    if k > 0 {
      FiringsDaysApart(start, rounds, k - 1);
      OneFiringPerDay(start, rounds);
    }
  }

  /** The boundary case: a firing whose sends leave the clock at exactly the
      target instant computes that same instant again and fires a second
      time with no delay. */
  lemma {:induction false} FinishingAtTargetFiresAgain(start: Instant, rounds: seq<Round>, k: nat)
    requires k + 1 < |Run(start, rounds)|
    requires rounds[k].elapsed == 0
    ensures Run(start, rounds)[k + 1].target == Run(start, rounds)[k].target
    ensures Run(start, rounds)[k + 1].delay == 0
  {
    RunIterations(start, rounds);
    RunChain(start, rounds);
    var iterations := Run(start, rounds);
    assert iterations[k].target == NextReminder(iterations[k].now);
    assert iterations[k + 1].target == NextReminder(iterations[k + 1].now);
    TargetDate(iterations[k].now);
    AtTargetFiresAgain(iterations[k].target);
  }

  /** After a firing that ends with an escaping exception nothing else
      happens: no later guild and no later day is served. */
  lemma {:induction false} EscapeEndsTheLoop(start: Instant, rounds: seq<Round>, k: nat)
    requires k < |Run(start, rounds)|
    requires Escaped(Run(start, rounds)[k].outcomes)
    ensures |Run(start, rounds)| == k + 1
  {
    RunIterations(start, rounds);
    RunChain(start, rounds);
  }
}
