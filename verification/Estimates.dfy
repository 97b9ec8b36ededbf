/** What a job reports of its steps, and the time its pending steps still need:
    a bound on how soon up to four at once can be done. */
module Estimates {
  import opened Options

  datatype Outcome = Ok | Err(message: string)

  /** A step a job declared: its result once it ended, and how long it took. */
  datatype Step = Step(name: string, outcome: Option<Outcome>, took: Option<nat>)

  type Timings = map<string, nat>

  /** How many requests run at once. */
  const PARALLEL_GROUPS: nat := 4

  // ---- The estimate ----

  function Sum(s: seq<nat>): nat {
    if s == [] then 0 else s[0] + Sum(s[1..])
  }

  function Longest(s: seq<nat>): (r: nat)
    requires s != []
  {
    if |s| == 1 || Longest(s[1..]) < s[0] then s[0] else Longest(s[1..])
  }

  /** The recorded durations of the steps still pending. */
  function Known(steps: seq<Step>, timings: Timings): seq<nat> {
    if steps == [] then []
    else if steps[0].outcome.None? && steps[0].name in timings
    then [timings[steps[0].name]] + Known(steps[1..], timings)
    else Known(steps[1..], timings)
  }

  function Spread(known: seq<nat>): nat
    requires known != []
  {
    var share := Sum(known) / PARALLEL_GROUPS;
    if share < Longest(known) then Longest(known) else share
  }

  function Estimate(steps: seq<Step>, timings: Timings): Option<nat> {
    var known := Known(steps, timings);
    if known == [] then None else Some(Spread(known))
  }

  lemma {:induction false} LongestIsReached(s: seq<nat>) returns (i: nat)
    requires s != []
    ensures i < |s| && s[i] == Longest(s) && Longest(s) <= Sum(s)
    ensures forall k :: 0 <= k < |s| ==> s[k] <= Longest(s)
  {
    i := 0;
    if |s| > 1 {
      var k := LongestIsReached(s[1..]);
      if s[0] <= Longest(s[1..]) {
        i := k + 1;
      }
      assert forall k :: 1 <= k < |s| ==> s[k] == s[1..][k - 1];
    } else {
      assert Sum(s[1..]) == 0;
    }
  }

  /** There is no estimate exactly when no pending step was ever timed. */
  lemma {:induction false} EstimateIsMissingExactlyWhen(steps: seq<Step>, timings: Timings)
    ensures Estimate(steps, timings).None? <==>
      forall i :: 0 <= i < |steps| && steps[i].outcome.None? ==> steps[i].name !in timings
  {
    if steps != [] {
      EstimateIsMissingExactlyWhen(steps[1..], timings);
      assert forall i :: 1 <= i < |steps| ==> steps[i] == steps[1..][i - 1];
    }
  }

  /** Between the longest pending step alone and all of them in a row. */
  lemma EstimateIsBetween(known: seq<nat>)
    requires known != []
    ensures Longest(known) <= Spread(known) <= Sum(known)
  {
    var _ := LongestIsReached(known);
  }

  /** The time recorded for a step that is still pending; none for any other. */
  function Due(step: Step, timings: Timings): nat {
    if step.outcome.None? && step.name in timings then timings[step.name] else 0
  }

  function TotalDue(steps: seq<Step>, timings: Timings): nat {
    if steps == [] then 0 else Due(steps[0], timings) + TotalDue(steps[1..], timings)
  }

  /** No step is due for longer than e. */
  predicate NoneLonger(steps: seq<Step>, timings: Timings, e: nat) {
    forall i :: 0 <= i < |steps| ==> Due(steps[i], timings) <= e
  }

  predicate AtMost(times: seq<nat>, e: nat) {
    forall k :: 0 <= k < |times| ==> times[k] <= e
  }

  lemma {:induction false} KnownIsDue(steps: seq<Step>, timings: Timings, e: nat)
    ensures Sum(Known(steps, timings)) == TotalDue(steps, timings)
    ensures AtMost(Known(steps, timings), e) <==> NoneLonger(steps, timings, e)
  {
    if steps != [] {
      KnownIsDue(steps[1..], timings, e);
      NoneLongerFirst(steps, timings, e);
      var known, rest := Known(steps, timings), Known(steps[1..], timings);
      if steps[0].outcome.None? && steps[0].name in timings {
        AtMostFirst(timings[steps[0].name], rest, e);
      }
    }
  }

  lemma NoneLongerFirst(steps: seq<Step>, timings: Timings, e: nat)
    requires steps != []
    ensures NoneLonger(steps, timings, e) <==> Due(steps[0], timings) <= e && NoneLonger(steps[1..], timings, e)
  {
    assert forall i :: 1 <= i < |steps| ==> steps[i] == steps[1..][i - 1];
  }

  lemma AtMostFirst(time: nat, rest: seq<nat>, e: nat)
    ensures AtMost([time] + rest, e) <==> time <= e && AtMost(rest, e)
  {
    var all := [time] + rest;
    assert all[0] == time && forall k :: 0 <= k < |rest| ==> all[k + 1] == rest[k];
  }

  /** The estimate is the least time, in whole units, that is no shorter than any
      pending step's and in which four lanes can hold the total. */
  lemma EstimateIsTheLeast(steps: seq<Step>, timings: Timings, e: nat)
    requires Estimate(steps, timings).Some?
    ensures Estimate(steps, timings).value <= e <==> NoneLonger(steps, timings, e) && TotalDue(steps, timings) < 4 * (e + 1)
  {
    var known := Known(steps, timings);
    KnownIsDue(steps, timings, e);
    var i := LongestIsReached(known);
    assert Longest(known) <= e <==> AtMost(known, e);
    assert Sum(known) / PARALLEL_GROUPS <= e <==> Sum(known) < 4 * (e + 1);
  }

  // ---- Schedules ----

  /** A lane for every step. */
  predicate Assigns(lanes: seq<nat>, n: nat) {
    |lanes| == n && forall i :: 0 <= i < n ==> lanes[i] < PARALLEL_GROUPS
  }

  /** The time a lane is busy, running its steps one after the other. */
  function Load(times: seq<nat>, lanes: seq<nat>, lane: nat): nat
    requires |lanes| == |times|
  {
    if times == [] then 0
    else (if lanes[0] == lane then times[0] else 0) + Load(times[1..], lanes[1..], lane)
  }

  predicate EndsBy(times: seq<nat>, lanes: seq<nat>, end: nat)
    requires |lanes| == |times|
  {
    forall lane: nat :: lane < PARALLEL_GROUPS ==> Load(times, lanes, lane) <= end
  }

  lemma {:induction false} LoadsAddUp(times: seq<nat>, lanes: seq<nat>)
    requires Assigns(lanes, |times|)
    ensures Load(times, lanes, 0) + Load(times, lanes, 1) + Load(times, lanes, 2) + Load(times, lanes, 3)
         == Sum(times)
  {
    if times != [] {
      LoadsAddUp(times[1..], lanes[1..]);
    }
  }

  lemma {:induction false} StepIsCarried(times: seq<nat>, lanes: seq<nat>, i: nat)
    requires Assigns(lanes, |times|) && i < |times|
    ensures times[i] <= Load(times, lanes, lanes[i])
  {
    if i > 0 {
      StepIsCarried(times[1..], lanes[1..], i - 1);
    }
  }

  /** However the pending steps are shared out over the lanes, they do not end
      before the estimate. */
  lemma EstimateBoundsEverySchedule(steps: seq<Step>, timings: Timings, lanes: seq<nat>, end: nat)
    requires Estimate(steps, timings).Some?
    requires Assigns(lanes, |Known(steps, timings)|)
    requires EndsBy(Known(steps, timings), lanes, end)
    ensures Estimate(steps, timings).value <= end
  {
    var known := Known(steps, timings);
    var i := LongestIsReached(known);
    StepIsCarried(known, lanes, i);
    LoadsAddUp(known, lanes);
  }

  // ---- The queue the workers share ----

  /** Each step in order goes to a lane that is free first. */
  predicate Dispatched(times: seq<nat>, lanes: seq<nat>, loads: seq<nat>)
    requires Assigns(lanes, |times|) && |loads| == PARALLEL_GROUPS
  {
    times == []
    || (&& (forall k :: 0 <= k < PARALLEL_GROUPS ==> loads[lanes[0]] <= loads[k])
        && Dispatched(times[1..], lanes[1..], loads[lanes[0] := loads[lanes[0]] + times[0]]))
  }

  /** Some lane is always free first. */
  lemma {:induction false} DispatchExists(times: seq<nat>, loads: seq<nat>) returns (lanes: seq<nat>)
    requires |loads| == PARALLEL_GROUPS
    ensures Assigns(lanes, |times|) && Dispatched(times, lanes, loads)
  {
    if times == [] {
      lanes := [];
    } else {
      var pair := if loads[0] <= loads[1] then 0 else 1;
      var other := if loads[2] <= loads[3] then 2 else 3;
      var free := if loads[pair] <= loads[other] then pair else other;
      var rest := DispatchExists(times[1..], loads[free := loads[free] + times[0]]);
      lanes := [free] + rest;
    }
  }

  const IDLE: seq<nat> := [0, 0, 0, 0]

  /** No lane is ahead of the others' average by more than a step's share. */
  predicate Balanced(loads: seq<nat>, longest: nat)
    requires |loads| == PARALLEL_GROUPS
  {
    forall k :: 0 <= k < PARALLEL_GROUPS ==>
      PARALLEL_GROUPS * loads[k]
        <= loads[0] + loads[1] + loads[2] + loads[3] + (PARALLEL_GROUPS - 1) * longest
  }

  lemma {:induction false} DispatchBalances(times: seq<nat>, lanes: seq<nat>, loads: seq<nat>, longest: nat, lane: nat)
    requires Assigns(lanes, |times|) && |loads| == PARALLEL_GROUPS && lane < PARALLEL_GROUPS
    requires Dispatched(times, lanes, loads) && Balanced(loads, longest)
    requires forall i :: 0 <= i < |times| ==> times[i] <= longest
    ensures PARALLEL_GROUPS * (loads[lane] + Load(times, lanes, lane))
         <= loads[0] + loads[1] + loads[2] + loads[3] + Sum(times) + (PARALLEL_GROUPS - 1) * longest
  {
    if times != [] {
      var next := loads[lanes[0] := loads[lanes[0]] + times[0]];
      assert next[0] + next[1] + next[2] + next[3] == loads[0] + loads[1] + loads[2] + loads[3] + times[0];
      DispatchBalances(times[1..], lanes[1..], next, longest, lane);
    }
  }

  /** Steps that need at most their recorded time. */
  predicate NoLonger(left: seq<nat>, known: seq<nat>) {
    |left| == |known| && forall i :: 0 <= i < |left| ==> left[i] <= known[i]
  }

  lemma {:induction false} ShorterSum(left: seq<nat>, known: seq<nat>)
    requires NoLonger(left, known)
    ensures Sum(left) <= Sum(known)
  {
    if left != [] {
      ShorterSum(left[1..], known[1..]);
    }
  }

  /** Workers taking steps from one queue in order end within twice the estimate,
      even when some steps are under way and have less of their time left. */
  lemma DispatchEndsWithinTwice(steps: seq<Step>, timings: Timings, left: seq<nat>, lanes: seq<nat>)
    requires Estimate(steps, timings).Some? && NoLonger(left, Known(steps, timings))
    requires Assigns(lanes, |left|) && Dispatched(left, lanes, IDLE)
    ensures EndsBy(left, lanes, 2 * Estimate(steps, timings).value)
  {
    var known := Known(steps, timings);
    var i := LongestIsReached(known);
    var total, longest := Sum(known), Longest(known);
    ShorterSum(left, known);
    forall lane: nat | lane < PARALLEL_GROUPS
      ensures Load(left, lanes, lane) <= 2 * Spread(known)
    {
      DispatchBalances(left, lanes, IDLE, longest, lane);
      assert PARALLEL_GROUPS * Load(left, lanes, lane) <= total + 3 * longest;
    }
  }
}
