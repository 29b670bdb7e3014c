/** `startScheduler`: a timer loop around one pass, each atomic step of the event loop a method, so
    any sequence of calls is an interleaving. The clock never steps back, and a timer fires at
    its time or later. */
module Scheduler {
  import opened InsertionMaps

  function NextDelayMs(intervalMs: nat, jitterMs: real, random: real): int
  {
    intervalMs + (random * jitterMs).Floor
  }

  lemma FloorBounds(x: real)
    requires 0.0 <= x
    ensures 0 <= x.Floor && x.Floor as real <= x
  {}

  /** Never before the interval, never after the interval and the jitter. */
  lemma DelayStaysInBand(intervalMs: nat, jitterMs: real, random: real)
    requires 0.0 <= jitterMs && 0.0 <= random <= 1.0
    ensures intervalMs <= NextDelayMs(intervalMs, jitterMs, random)
    ensures NextDelayMs(intervalMs, jitterMs, random) as real <= intervalMs as real + jitterMs
  {
    Product(random, jitterMs);
    FloorBounds(random * jitterMs);
  }

  lemma Product(random: real, jitterMs: real)
    requires 0.0 <= jitterMs && 0.0 <= random <= 1.0
    ensures 0.0 <= random * jitterMs <= jitterMs
  {
    ProductNotNegative(random, jitterMs);
    ProductNotNegative(1.0 - random, jitterMs);
    assert (1.0 - random) * jitterMs == jitterMs - random * jitterMs;
  }

  /** The whole band is drawn from: every whole number of milliseconds below the jitter is the
      delay of some draw. */
  lemma DelayReachesAll(intervalMs: nat, jitterMs: real, k: nat) returns (random: real)
    requires k as real < jitterMs
    ensures 0.0 <= random < 1.0 && NextDelayMs(intervalMs, jitterMs, random) == intervalMs + k
  {
    random := k as real / jitterMs;
    Quotient(k as real, jitterMs);
    assert (random * jitterMs).Floor == k;
  }

  lemma Quotient(x: real, y: real)
    requires 0.0 <= x < y
    ensures x / y * y == x && 0.0 <= x / y < 1.0
  {
    Scale(x / y, y);
  }

  lemma Scale(q: real, y: real)
    requires y > 0.0
    ensures q < 0.0 ==> q * y < 0.0
    ensures q >= 1.0 ==> q * y >= y
  {
    if q < 0.0 {
      ProductPositive(-q, y);
    } else if q >= 1.0 {
      ProductNotNegative(q - 1.0, y);
      assert (q - 1.0) * y == q * y - y;
    }
  }

  lemma ProductPositive(a: real, b: real)
    requires a > 0.0 && b > 0.0
    ensures a * b > 0.0
  {}

  lemma ProductNotNegative(a: real, b: real)
    requires a >= 0.0 && b >= 0.0
    ensures a * b >= 0.0
  {}

  // ----- the loop -----

  datatype Pass = Pass(began: int, ended: Option<int>)

  /** A call of `stop`: how many passes there had been, the one it waits for, and whether it
      has resolved. */
  datatype StopCall = StopCall(passes: nat, awaits: Option<nat>, resolved: bool)

  datatype Outcome = Succeeded | Failed | FailedUnreported

  ghost predicate Running(passes: seq<Pass>) { passes != [] && passes[|passes| - 1].ended == None }

  /** Every pass but the last has ended, and each began an interval or more after what came
      before it ended. */
  ghost predicate Spaced(passes: seq<Pass>, booted: int, intervalMs: nat) {
    && (forall i :: 0 <= i < |passes| - 1 ==> passes[i].ended.Some?)
    && (forall i :: 0 <= i < |passes| && passes[i].ended.Some? ==> passes[i].began <= passes[i].ended.value)
    && (forall i :: 0 <= i < |passes| ==> Since(passes, booted, i) + intervalMs <= passes[i].began)
  }

  /** When the wait before pass `i` began. */
  ghost function Since(passes: seq<Pass>, booted: int, i: nat): int
    requires i <= |passes|
  {
    if i == 0 then booted else if passes[i - 1].ended.Some? then passes[i - 1].ended.value else passes[i - 1].began
  }

  ghost predicate Past(passes: seq<Pass>, clock: int) {
    forall i :: 0 <= i < |passes| ==>
      passes[i].began <= clock && (passes[i].ended.Some? ==> passes[i].ended.value <= clock)
  }

  /** The passes so far are spaced, and none lies ahead of the clock. */
  ghost predicate Paced(passes: seq<Pass>, booted: int, intervalMs: nat, clock: int) {
    forall ps: seq<Pass> {:trigger Past(ps, clock)} :: ps == passes ==> Spaced(ps, booted, intervalMs) && Past(ps, clock)
  }

  lemma NoPassYet(booted: int, intervalMs: nat)
    ensures Paced([], booted, intervalMs, booted)
  {
    assert Spaced([], booted, intervalMs) && Past([], booted);
  }

  lemma SpacedOneMore(passes: seq<Pass>, booted: int, intervalMs: nat, now: int)
    requires Spaced(passes, booted, intervalMs) && !Running(passes) && Since(passes, booted, |passes|) + intervalMs <= now
    ensures Spaced(passes + [Pass(now, None)], booted, intervalMs)
  {
    var all := passes + [Pass(now, None)];
    forall i | 0 <= i < |passes| ensures all[i].ended.Some? {
      if i == |passes| - 1 { assert !Running(passes); }
    }
    forall i | 0 <= i < |all| ensures Since(all, booted, i) + intervalMs <= all[i].began {
      assert Since(all, booted, i) == Since(passes, booted, i);
    }
  }

  lemma PassBegins(passes: seq<Pass>, booted: int, intervalMs: nat, clock: int, now: int)
    requires Paced(passes, booted, intervalMs, clock) && !Running(passes)
    requires clock <= now && Since(passes, booted, |passes|) + intervalMs <= now
    ensures Paced(passes + [Pass(now, None)], booted, intervalMs, now) && Running(passes + [Pass(now, None)])
  {
    assert Past(passes, clock);
    SpacedOneMore(passes, booted, intervalMs, now);
    assert Past(passes + [Pass(now, None)], now);
  }

  lemma SpacedAtEnd(passes: seq<Pass>, booted: int, intervalMs: nat, now: int)
    requires Spaced(passes, booted, intervalMs) && passes != [] && passes[|passes| - 1].began <= now
    ensures var last := |passes| - 1; Spaced(passes[last := Pass(passes[last].began, Some(now))], booted, intervalMs)
  {
    var last := |passes| - 1;
    var all := passes[last := Pass(passes[last].began, Some(now))];
    forall i | 0 <= i < |all| ensures Since(all, booted, i) + intervalMs <= all[i].began {
      assert Since(all, booted, i) == Since(passes, booted, i) && all[i].began == passes[i].began;
    }
  }

  lemma PassFinishes(passes: seq<Pass>, booted: int, intervalMs: nat, clock: int, now: int)
    requires Paced(passes, booted, intervalMs, clock) && Running(passes) && clock <= now
    ensures var last := |passes| - 1;
      var all := passes[last := Pass(passes[last].began, Some(now))];
      Paced(all, booted, intervalMs, now) && !Running(all) && Since(all, booted, |all|) == now
  {
    assert Past(passes, clock);
    var last := |passes| - 1;
    SpacedAtEnd(passes, booted, intervalMs, now);
    assert Past(passes[last := Pass(passes[last].began, Some(now))], now);
  }

  lemma TimePasses(passes: seq<Pass>, booted: int, intervalMs: nat, clock: int, now: int)
    requires Paced(passes, booted, intervalMs, clock) && clock <= now
    ensures Paced(passes, booted, intervalMs, now)
  {
    assert Past(passes, clock);
  }

  /** However the passes go, the n-th begins no sooner than n intervals after the start. */
  lemma {:induction false} NoBursts(passes: seq<Pass>, booted: int, intervalMs: nat, i: nat)
    requires Spaced(passes, booted, intervalMs) && i < |passes|
    ensures booted + (i + 1) * intervalMs <= passes[i].began
  {
    if i > 0 {
      NoBursts(passes, booted, intervalMs, i - 1);
      assert passes[i - 1].ended.Some?;
      assert (i + 1) * intervalMs == i * intervalMs + intervalMs;
    }
  }

  /** Two passes never overlap. */
  lemma PassesDoNotOverlap(passes: seq<Pass>, booted: int, intervalMs: nat, i: nat, j: nat)
    requires Spaced(passes, booted, intervalMs) && i < j < |passes|
    ensures passes[i].ended.Some? && passes[i].ended.value + intervalMs <= passes[j].began
    decreases j
  {
    assert Since(passes, booted, j) + intervalMs <= passes[j].began;
    if i < j - 1 {
      PassesDoNotOverlap(passes, booted, intervalMs, i, j - 1);
      assert passes[j - 1].ended.Some?;
    }
  }

  class Scheduler {
    const intervalMs: nat
    const jitterMs: real
    var stopped: bool
    var timer: Option<nat>
    var inFlight: Option<nat>
    /** The timers the event loop holds, with the earliest time each may fire, and how many it
        has given out. */
    var armed: map<nat, int>
    var issued: nat
    var passes: seq<Pass>
    var stops: seq<StopCall>
    /** How many failures were handed to the logger. */
    var reports: nat
    ghost var booted: int
    ghost var clock: int

    /** Until it is stopped, exactly one of an armed timer and a running pass; stopped, no timer. */
    ghost predicate Turning()
      reads this
    {
      && (!stopped && Running(passes) ==> armed == map[])
      && (!stopped && !Running(passes) ==>
            timer.Some? && armed.Keys == {timer.value}
            && Since(passes, booted, |passes|) + intervalMs <= armed[timer.value])
      && (stopped ==> armed == map[])
    }

    /** Nothing has started since a call of `stop`, and once it has resolved nothing runs. */
    ghost predicate Stopping()
      reads this
    {
      && (stopped <==> stops != [])
      && forall k :: 0 <= k < |stops| ==>
           && stops[k].passes == |passes| && stops[k].awaits == inFlight
           && (stops[k].resolved ==> !Running(passes))
    }

    ghost predicate Valid()
      reads this
    {
      && 0.0 <= jitterMs && booted <= clock
      && Paced(passes, booted, intervalMs, clock)
      && inFlight == (if passes == [] then None else Some(|passes| - 1))
      && (forall id :: id in armed ==> id < issued) && (timer.Some? ==> timer.value < issued)
      && Turning() && Stopping()
    }

    constructor (intervalMs: nat, jitterMs: real, now: int, random: real)
      requires 0.0 <= jitterMs && 0.0 <= random <= 1.0
      ensures Valid() && this.intervalMs == intervalMs && this.jitterMs == jitterMs
      ensures !stopped && passes == [] && booted == clock == now && reports == 0
    {
      this.intervalMs, this.jitterMs := intervalMs, jitterMs;
      stopped, timer, inFlight := false, Some(0), None;
      DelayStaysInBand(intervalMs, jitterMs, random);
      armed, issued := map[0 := now + NextDelayMs(intervalMs, jitterMs, random)], 1;
      booted, clock, passes, stops, reports := now, now, [], [], 0;
      new;
      NoPassYet(now, intervalMs);
      assert armed.Keys == {0} && intervalMs + Since([], now, 0) <= armed[0];
    }

    /** Arms the next timer, unless stopped. */
    method Schedule(now: int, random: real)
      requires 0.0 <= jitterMs && 0.0 <= random <= 1.0 && armed == map[]
      modifies this`timer, this`armed, this`issued
      ensures stopped ==> timer == old(timer) && armed == map[] && issued == old(issued)
      ensures !stopped ==>
        && timer == Some(old(issued)) && issued == old(issued) + 1 && armed.Keys == {old(issued)}
        && now + intervalMs <= armed[old(issued)]
        && armed[old(issued)] as real <= (now + intervalMs) as real + jitterMs
    {
      if stopped { return; }
      DelayStaysInBand(intervalMs, jitterMs, random);
      armed := map[];
      armed := armed[issued := now + NextDelayMs(intervalMs, jitterMs, random)];
      timer := Some(issued);
      issued := issued + 1;
    }

    /** A timer fires and its pass begins. */
    method Fire(id: nat, now: int)
      requires Valid() && clock <= now && id in armed && armed[id] <= now
      modifies this`armed, this`inFlight, this`passes, this`clock
      ensures Valid() && clock == now && !stopped && !old(Running(passes))
      ensures passes == old(passes) + [Pass(now, None)]
    {
      assert id == timer.value;
      PassBegins(passes, booted, intervalMs, clock, now);
      armed := armed - {id};
      inFlight := Some(|passes|);
      passes := passes + [Pass(now, None)];
      clock := now;
    }

    /** The pass ends. Whether it succeeded, failed, or failed and could not be reported, the next
        one is scheduled, unless the scheduler has been stopped. */
    method PassEnds(outcome: Outcome, now: int, random: real)
      requires Valid() && clock <= now && Running(passes) && 0.0 <= random <= 1.0
      modifies this`timer, this`armed, this`issued, this`passes, this`reports, this`clock
      ensures Valid() && clock == now && !Running(passes)
      ensures |passes| == |old(passes)| && passes == old(passes)[|passes| - 1 := passes[|passes| - 1]]
      ensures passes[|passes| - 1] == Pass(old(passes)[|passes| - 1].began, Some(now))
      ensures !stopped ==>
        && timer.Some? && armed.Keys == {timer.value} && now + intervalMs <= armed[timer.value]
        && armed[timer.value] as real <= (now + intervalMs) as real + jitterMs
      ensures reports == old(reports) + if outcome.Succeeded? then 0 else 1
    {
      PassFinishes(passes, booted, intervalMs, clock, now);
      var last := |passes| - 1;
      passes := passes[last := Pass(passes[last].began, Some(now))];
      if !outcome.Succeeded? { reports := reports + 1; }
      Schedule(now, random);
      clock := now;
    }

    /** Nothing is armed any more; what still runs is waited for. */
    method Stop(now: int) returns (k: nat)
      requires Valid() && clock <= now
      modifies this`stopped, this`armed, this`stops, this`clock
      ensures Valid() && stopped && clock == now && armed == map[]
      ensures k == |old(stops)| && stops == old(stops) + [StopCall(|passes|, inFlight, false)]
    {
      TimePasses(passes, booted, intervalMs, clock, now);
      stopped := true;
      if timer.Some? { armed := armed - {timer.value}; }
      k := |stops|;
      stops := stops + [StopCall(|passes|, inFlight, false)];
      clock := now;
    }

    /** A call of `stop` resolves once the pass it awaits, if any, has ended. */
    method StopResolves(k: nat)
      requires Valid() && k < |stops|
      requires stops[k].awaits.Some? ==> stops[k].awaits.value < |passes| && passes[stops[k].awaits.value].ended.Some?
      modifies this`stops
      ensures Valid() && |stops| == |old(stops)| && stops == old(stops)[k := stops[k]]
      ensures stops[k] == old(stops)[k].(resolved := true)
      ensures armed == map[] && !Running(passes)
    {
      stops := stops[k := stops[k].(resolved := true)];
    }

    /** In every state the passes so far are spaced, and until it is stopped the scheduler either runs
        a pass or holds one timer, which is an interval or more after the last pass. */
    lemma PassesAreSpaced()
      requires Valid()
      ensures Spaced(passes, booted, intervalMs)
      ensures !stopped ==> (Running(passes) <==> armed == map[])
      ensures !stopped && !Running(passes) ==>
        timer.Some? && armed.Keys == {timer.value} && Since(passes, booted, |passes|) + intervalMs <= armed[timer.value]
    {
      assert Past(passes, clock);
    }

    /** Once `stop` has been called no timer is left to fire, and once it has resolved no pass
        runs either; neither ever changes again. */
    lemma StoppedForGood(k: nat)
      requires Valid() && k < |stops|
      ensures armed == map[] && |passes| == stops[k].passes
      ensures stops[k].resolved ==> !Running(passes)
    {}
  }
}
