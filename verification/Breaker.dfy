/** The circuit breaker of one bot (`internal/tgc/client_pool.go`): `isBotClientAvailable`, `RecordBotSuccess`,
    `RecordBotFailure`. */
module Breaker {
  import opened Arith

  datatype Circuit = Circuit(consecutiveFailures: int, totalFailures: int, totalSuccesses: int,
                             circuitTrips: int, circuitSkips: int, openUntil: int)

  const CLOSED := Circuit(0, 0, 0, 0, 0, 0)

  /** A positive setting, or the default of 3 failures and a cooldown of 30 seconds (in nanoseconds). */
  datatype Limits = Limits(failures: int, cooldownNanos: int)
  {
    function Threshold(): (t: int)
      ensures t >= 1
      ensures failures > 0 ==> t == failures
      ensures failures <= 0 ==> t == 3
    {
      if failures > 0 then failures else 3
    }

    function Cooldown(): (d: int)
      ensures d >= 1
      ensures cooldownNanos > 0 ==> d == cooldownNanos
      ensures cooldownNanos <= 0 ==> d == 30 * 1_000_000_000
    {
      if cooldownNanos > 0 then cooldownNanos else 30_000_000_000
    }
  }

  predicate Open(c: Circuit, now: int) { c.openUntil != 0 && now < c.openUntil }

  function Checked(c: Circuit, now: int): Circuit
  {
    if c.openUntil == 0 then c
    else if now >= c.openUntil then c.(openUntil := 0, consecutiveFailures := 0)
    else c.(circuitSkips := c.circuitSkips + 1)
  }

  function Succeeded(c: Circuit, now: int): Circuit
  {
    var c := c.(totalSuccesses := c.totalSuccesses + 1);
    if c.openUntil == 0 then c.(consecutiveFailures := 0)
    else if now < c.openUntil then c
    else c.(openUntil := 0, consecutiveFailures := 0)
  }

  function Failed(c: Circuit, now: int, canceled: bool, limits: Limits): Circuit
  {
    if canceled then c
    else
      var c := c.(totalFailures := c.totalFailures + 1, consecutiveFailures := c.consecutiveFailures + 1);
      if c.consecutiveFailures < limits.Threshold() then c
      else c.(openUntil := now + limits.Cooldown(), consecutiveFailures := 0, circuitTrips := c.circuitTrips + 1)
  }

  datatype Event = Check(at: int) | Success(at: int) | Failure(at: int, canceled: bool)

  function After(c: Circuit, ev: Event, limits: Limits): Circuit
  {
    match ev
    case Check(at) => Checked(c, at)
    case Success(at) => Succeeded(c, at)
    case Failure(at, canceled) => Failed(c, at, canceled, limits)
  }

  function Final(c: Circuit, run: seq<Event>, limits: Limits): Circuit
    decreases |run|
  {
    if run == [] then c else Final(After(c, run[0], limits), run[1..], limits)
  }

  /** Events come in the order of a clock that never goes back and is at least `from`. */
  predicate Timed(run: seq<Event>, from: int)
    decreases |run|
  {
    run == [] || (from <= run[0].at && Timed(run[1..], run[0].at))
  }

  // ---- Counting ---------------------------------------------------------------------

  /** Each trip consumed a threshold's worth of failures. */
  predicate Counted(c: Circuit, limits: Limits)
  {
    && 0 <= c.consecutiveFailures < limits.Threshold() && c.circuitTrips >= 0
    && c.circuitTrips * limits.Threshold() + c.consecutiveFailures <= c.totalFailures
  }

  lemma {:induction false} AfterCounted(c: Circuit, ev: Event, limits: Limits)
    requires Counted(c, limits)
    ensures Counted(After(c, ev, limits), limits)
  {
    MulDiff(c.circuitTrips + 1, c.circuitTrips, limits.Threshold());
  }

  /** Over every run, trips * threshold plus the failures since the last trip never exceeds the failures seen, and
      the breaker never sits at its threshold. */
  lemma {:induction false} TripsAreEarned(c: Circuit, run: seq<Event>, limits: Limits)
    requires Counted(c, limits)
    ensures Counted(Final(c, run, limits), limits)
    decreases |run|
  {
    if run == [] {
    } else {
      AfterCounted(c, run[0], limits);
      TripsAreEarned(After(c, run[0], limits), run[1..], limits);
    }
  }

  /** The tallies of a run: failures that were not cancellations, successes, and checks refused by an open breaker. */
  function Failures(run: seq<Event>): nat
  {
    if run == [] then 0 else (if run[0].Failure? && !run[0].canceled then 1 else 0) + Failures(run[1..])
  }

  function Successes(run: seq<Event>): nat
  {
    if run == [] then 0 else (if run[0].Success? then 1 else 0) + Successes(run[1..])
  }

  function Refusals(c: Circuit, run: seq<Event>, limits: Limits): nat
    decreases |run|
  {
    if run == [] then 0
    else (if run[0].Check? && Open(c, run[0].at) then 1 else 0) + Refusals(After(c, run[0], limits), run[1..], limits)
  }

  /** The statistics the pool reports are those tallies. */
  lemma {:induction false} TalliesAreExact(c: Circuit, run: seq<Event>, limits: Limits)
    ensures var d := Final(c, run, limits);
            && d.totalFailures == c.totalFailures + Failures(run)
            && d.totalSuccesses == c.totalSuccesses + Successes(run)
            && d.circuitSkips == c.circuitSkips + Refusals(c, run, limits)
    decreases |run|
  {
    if run == [] {
    } else {
      TalliesAreExact(After(c, run[0], limits), run[1..], limits);
    }
  }

  // ---- Cooling down -------------------------------------------------------------------

  lemma {:induction false} TimedFrom(run: seq<Event>, from: int, t: int)
    requires Timed(run, from) && t <= from
    ensures Timed(run, t)
  {
  }

  /** While the clock is short of `t + cooldown`, nothing that happens after a trip at `t` closes the breaker. */
  lemma {:induction false} StaysOpen(c: Circuit, run: seq<Event>, limits: Limits, t: int, now: int)
    requires t > 0 && c.openUntil >= t + limits.Cooldown() && Timed(run, t)
    requires now < t + limits.Cooldown() && forall i :: 0 <= i < |run| ==> run[i].at <= now
    ensures Final(c, run, limits).openUntil >= t + limits.Cooldown()
    decreases |run|
  {
    if run == [] {
    } else {
      assert run[0].at <= now;
      TimedFrom(run[1..], run[0].at, t);
      StaysOpen(After(c, run[0], limits), run[1..], limits, t, now);
    }
  }

  /** Without further failures the breaker is due no later than `until`. */
  lemma {:induction false} ClosesOnTime(c: Circuit, run: seq<Event>, limits: Limits, until: int)
    requires c.openUntil <= until && forall i :: 0 <= i < |run| ==> !run[i].Failure?
    requires until >= 0
    ensures Final(c, run, limits).openUntil <= until
    decreases |run|
  {
    if run == [] {
    } else {
      assert !run[0].Failure?;
      ClosesOnTime(After(c, run[0], limits), run[1..], limits, until);
    }
  }

  /** Once a failure at `t` trips the breaker, no availability check before `t + cooldown` succeeds, whatever
      successes, failures and checks come in between; without further failures every check from then on does. */
  lemma {:induction false} TrippedHoldsOff(c: Circuit, t: int, run: seq<Event>, limits: Limits, now: int)
    requires t > 0 && Timed(run, t) && forall i :: 0 <= i < |run| ==> run[i].at <= now
    requires var c' := Failed(c, t, false, limits); c'.circuitTrips > c.circuitTrips
    ensures now < t + limits.Cooldown() ==> Open(Final(Failed(c, t, false, limits), run, limits), now)
    ensures now >= t + limits.Cooldown() && (forall i :: 0 <= i < |run| ==> !run[i].Failure?) ==>
              !Open(Final(Failed(c, t, false, limits), run, limits), now)
  {
    var d := Failed(c, t, false, limits);
    if now < t + limits.Cooldown() {
      StaysOpen(d, run, limits, t, now);
    } else if forall i :: 0 <= i < |run| ==> !run[i].Failure? {
      ClosesOnTime(d, run, limits, t + limits.Cooldown());
    }
  }

  // ---- When it trips ------------------------------------------------------------------------

  lemma {:induction false} FinalFront(c: Circuit, run: seq<Event>, limits: Limits)
    requires run != []
    ensures Final(c, run, limits) == After(Final(c, run[..|run| - 1], limits), run[|run| - 1], limits)
    decreases |run|
  {
    hide After;
    var front := run[..|run| - 1];
    if |run| == 1 {
      assert run[1..] == [] && front == [];
    } else {
      FinalFront(After(c, run[0], limits), run[1..], limits);
      assert front[1..] == run[1..][..|run| - 2];
    }
  }

  predicate IsFailure(ev: Event) { ev.Failure? && !ev.canceled }

  lemma {:induction false} FailuresFront(run: seq<Event>)
    requires run != []
    ensures Failures(run) == Failures(run[..|run| - 1]) + if IsFailure(run[|run| - 1]) then 1 else 0
  {
    var front := run[..|run| - 1];
    if |run| == 1 {
      assert run[1..] == [] && front == [];
    } else {
      FailuresFront(run[1..]);
      assert front[1..] == run[1..][..|run| - 2];
    }
  }

  /** The failures since the last success. */
  function Streak(run: seq<Event>): nat
  {
    if run == [] then 0
    else
      var last := run[|run| - 1];
      if last.Success? then 0 else Streak(run[..|run| - 1]) + if IsFailure(last) then 1 else 0
  }

  predicate SuccessFree(run: seq<Event>) { forall i :: 0 <= i < |run| ==> !run[i].Success? }

  /** No stretch of the run without a success holds a threshold's worth of failures. */
  ghost predicate Separated(run: seq<Event>, limits: Limits)
  {
    forall i, j {:trigger run[i..j]} :: 0 <= i <= j <= |run| && SuccessFree(run[i..j]) ==>
      Failures(run[i..j]) < limits.Threshold()
  }

  /** The streak is the number of failures in the longest stretch without a success that ends the run. */
  lemma {:induction false} StreakIsStretch(run: seq<Event>) returns (k: nat)
    ensures k <= |run| && SuccessFree(run[k..]) && Streak(run) == Failures(run[k..])
    ensures k == 0 || run[k - 1].Success?
  {
    if run == [] {
      k := 0;
    } else {
      var n := |run| - 1;
      if run[n].Success? {
        k := n + 1;
      } else {
        k := StreakIsStretch(run[..n]);
        var stretch := run[k..];
        FailuresFront(stretch);
        assert stretch[..|stretch| - 1] == run[..n][k..] && stretch[|stretch| - 1] == run[n];
        assert forall i :: 0 <= i < |stretch| - 1 ==> stretch[i] == run[..n][k..][i];
      }
    }
  }

  lemma {:induction false} StretchBelowStreak(run: seq<Event>, k: nat)
    requires k <= |run| && SuccessFree(run[k..])
    ensures Failures(run[k..]) <= Streak(run)
  {
    if k == |run| {
    } else {
      var n := |run| - 1;
      var stretch := run[k..];
      assert stretch[|stretch| - 1] == run[n];
      assert stretch[..|stretch| - 1] == run[..n][k..];
      assert SuccessFree(run[..n][k..]) by {
        assert forall i :: 0 <= i < |run[..n][k..]| ==> run[..n][k..][i] == stretch[i];
      }
      StretchBelowStreak(run[..n], k);
      FailuresFront(stretch);
    }
  }

  /** The run is separated exactly when no streak on the way reaches the threshold. */
  lemma {:induction false} SeparatedStreaks(run: seq<Event>, limits: Limits)
    ensures Separated(run, limits) <==> forall p :: 0 <= p <= |run| ==> Streak(run[..p]) < limits.Threshold()
  {
    hide Streak, Failures, SuccessFree;
    if Separated(run, limits) {
      forall p | 0 <= p <= |run|
        ensures Streak(run[..p]) < limits.Threshold()
      {
        var k := StreakIsStretch(run[..p]);
        assert run[..p][k..] == run[k..p];
      }
    } else {
      var i, j :| 0 <= i <= j <= |run| && SuccessFree(run[i..j]) && Failures(run[i..j]) >= limits.Threshold();
      assert run[..j][i..] == run[i..j];
      StretchBelowStreak(run[..j], i);
      assert Streak(run[..j]) >= limits.Threshold();
    }
  }

  /** A closed breaker with no failures against it, as new or after a success. */
  predicate AtRest(c: Circuit) { c.openUntil == 0 && c.consecutiveFailures == 0 }

  /** Before the first trip the breaker counts the streak. */
  lemma {:induction false} CountsStreak(c: Circuit, run: seq<Event>, limits: Limits)
    requires AtRest(c) && forall p :: 0 <= p <= |run| ==> Streak(run[..p]) < limits.Threshold()
    ensures var d := Final(c, run, limits);
            d.openUntil == 0 && d.circuitTrips == c.circuitTrips && d.consecutiveFailures == Streak(run)
  {
    if run == [] {
    } else {
      var front := run[..|run| - 1];
      assert forall p :: 0 <= p <= |front| ==> front[..p] == run[..p];
      CountsStreak(c, front, limits);
      FinalFront(c, run, limits);
      assert run[..|run|] == run;
    }
  }

  lemma {:induction false} TripsGrow(c: Circuit, run: seq<Event>, limits: Limits)
    ensures Final(c, run, limits).circuitTrips >= c.circuitTrips
    decreases |run|
  {
    if run == [] {
    } else {
      TripsGrow(After(c, run[0], limits), run[1..], limits);
    }
  }

  lemma {:induction false} FinalSplit(c: Circuit, run: seq<Event>, p: nat, limits: Limits)
    requires p <= |run|
    ensures Final(c, run, limits) == Final(Final(c, run[..p], limits), run[p..], limits)
    decreases p
  {
    hide After;
    if p == 0 {
      assert run[0..] == run;
    } else {
      FinalSplit(After(c, run[0], limits), run[1..], p - 1, limits);
      assert run[..p][1..] == run[1..][..p - 1] && run[1..][p - 1..] == run[p..];
    }
  }

  /** The failure that completes a streak opens the breaker for the cooldown, counted from that failure. */
  lemma {:induction false} FirstTrip(c: Circuit, run: seq<Event>, limits: Limits)
    requires AtRest(c) && run != []
    requires Separated(run[..|run| - 1], limits) && !Separated(run, limits)
    ensures var d := Final(c, run, limits);
            var last := run[|run| - 1];
            && last.Failure? && !last.canceled
            && d.openUntil == last.at + limits.Cooldown() && d.circuitTrips == c.circuitTrips + 1
            && d.consecutiveFailures == 0
  {
    hide Separated;
    var front := run[..|run| - 1];
    SeparatedStreaks(front, limits);
    SeparatedStreaks(run, limits);
    CountsStreak(c, front, limits);
    FinalFront(c, run, limits);
    assert forall p :: 0 <= p <= |front| ==> front[..p] == run[..p];
    assert run[..|run|] == run && front[..|front|] == front;
  }

  /** Where a run stops being separated. */
  lemma {:induction false} FirstUnseparated(run: seq<Event>, limits: Limits) returns (p: nat)
    requires !Separated(run, limits)
    ensures 0 < p <= |run| && !Separated(run[..p], limits) && Separated(run[..p][..p - 1], limits)
  {
    if run == [] {
      assert false;
    } else {
      var front := run[..|run| - 1];
      if Separated(front, limits) {
        p := |run|;
        assert run[..p] == run;
      } else {
        p := FirstUnseparated(front, limits);
        assert front[..p] == run[..p];
      }
    }
  }

  /** From rest a breaker trips exactly when some stretch without a success holds a threshold's worth of failures that
      were not cancelled; until then it stays closed, and a success clears what has been counted. */
  lemma {:induction false} TripsExactly(c: Circuit, run: seq<Event>, limits: Limits)
    requires AtRest(c)
    ensures Final(c, run, limits).circuitTrips == c.circuitTrips <==> Separated(run, limits)
    ensures Separated(run, limits) ==> Final(c, run, limits).openUntil == 0
    ensures Separated(run, limits) && run != [] && run[|run| - 1].Success? ==> AtRest(Final(c, run, limits))
  {
    hide Separated, Final;
    SeparatedStreaks(run, limits);
    if Separated(run, limits) {
      CountsStreak(c, run, limits);
    } else {
      var p := FirstUnseparated(run, limits);
      FirstTrip(c, run[..p], limits);
      FinalSplit(c, run, p, limits);
      TripsGrow(Final(c, run[..p], limits), run[p..], limits);
    }
  }

  /** While a cooldown runs, successes do not count: the breaker trips again exactly when a threshold's worth of failures
      has come since the last trip, and otherwise keeps its time. */
  lemma {:induction false} OpenCountsFailures(c: Circuit, run: seq<Event>, limits: Limits)
    requires c.openUntil != 0 && c.consecutiveFailures == 0
    requires forall i :: 0 <= i < |run| ==> run[i].at < c.openUntil
    ensures Failures(run) < limits.Threshold() ==>
              var d := Final(c, run, limits);
              && d.openUntil == c.openUntil && d.circuitTrips == c.circuitTrips
              && d.consecutiveFailures == Failures(run)
    ensures Failures(run) == limits.Threshold() && IsFailure(run[|run| - 1]) ==>
              var d := Final(c, run, limits);
              && d.openUntil == run[|run| - 1].at + limits.Cooldown() && d.circuitTrips == c.circuitTrips + 1
              && d.consecutiveFailures == 0
  {
    if run == [] {
    } else {
      OpenCountsFailures(c, run[..|run| - 1], limits);
      FinalFront(c, run, limits);
      FailuresFront(run);
    }
  }

  /** The first check or success after the cooldown puts the breaker at rest, whatever failed meanwhile. */
  lemma {:induction false} CooledDownRests(c: Circuit, run: seq<Event>, limits: Limits)
    requires run != [] && (run[|run| - 1].Check? || run[|run| - 1].Success?)
    ensures var d := Final(c, run[..|run| - 1], limits);
            d.openUntil != 0 && !Open(d, run[|run| - 1].at) ==> AtRest(Final(c, run, limits))
  {
    FinalFront(c, run, limits);
  }
}
