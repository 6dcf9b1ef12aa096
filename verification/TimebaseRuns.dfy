/** Whole runs of the pacing planner over arbitrary wall-time sequences. */
module TimebaseRuns {
  import opened Uint
  import opened Timebase

  /** The clock after the first `n` calls. The walls need not be monotone. */
  function StateAt(c: Clock, walls: seq<U64>, n: nat): (d: Clock)
    requires c.Consistent() && n <= |walls|
    ensures d.Consistent()
    ensures d.stepUs == c.stepUs && d.gapThresholdUs == c.gapThresholdUs && d.maxCatchupSteps == c.maxCatchupSteps
    decreases n
  {
    if n == 0 then c
    else
      StepBounds(StateAt(c, walls, n - 1), walls[n - 1]);
      Step(StateAt(c, walls, n - 1), walls[n - 1])
  }

  function Final(c: Clock, walls: seq<U64>): Clock
    requires c.Consistent()
  {
    StateAt(c, walls, |walls|)
  }

  function PlanAt(c: Clock, walls: seq<U64>, n: nat): TickPlan
    requires c.Consistent() && n < |walls|
  {
    Decide(StateAt(c, walls, n), walls[n])
  }

  ghost predicate GapFree(c: Clock, walls: seq<U64>)
    requires c.Consistent()
  {
    forall i :: 0 <= i < |walls| ==> !PlanAt(c, walls, i).gap
  }

  /** Call `i` comes at or after the deadline the clock gave. */
  predicate OnDeadline(c: Clock, walls: seq<U64>, i: nat)
    requires c.Consistent() && i < |walls|
  {
    walls[i] >= StateAt(c, walls, i).simUs
  }

  ghost predicate HonoursDeadlines(c: Clock, walls: seq<U64>)
    requires c.Consistent()
  {
    forall i :: 0 <= i < |walls| ==> OnDeadline(c, walls, i)
  }

  predicate Unsaturated(c: Clock, walls: seq<U64>)
    requires c.Consistent()
  {
    Final(c, walls).simUs < U64_MAX
  }

  /** The catch-up cap is the whole budget: true of `Derived` unless the budget passes a u32. */
  predicate FullBudget(c: Clock) {
    c.maxCatchupSteps == BudgetSteps(c.stepUs, c.gapThresholdUs)
  }

  /** The derived cap is the whole budget exactly while the budget fits a u32. */
  lemma DerivedHasFullBudget(stepUs: U64, gapThresholdUs: U64)
    requires stepUs >= 1
    ensures FullBudget(Derived(stepUs, gapThresholdUs)) <==> Fits(gapThresholdUs, stepUs) <= U32_MAX
  {
  }

  /** A loop from its epoch that sleeps to every deadline, has its whole budget and meets no gap. */
  ghost predicate Paced(c: Clock, walls: seq<U64>) {
    && c.Consistent() && c.simUs == c.stepsDone == c.discardedUs == 0 && FullBudget(c)
    && GapFree(c, walls) && HonoursDeadlines(c, walls) && Unsaturated(c, walls)
  }

  /** Wall time before the first call is the epoch. */
  function WallBefore(walls: seq<U64>, i: nat): U64
    requires i <= |walls|
  {
    if i == 0 then 0 else walls[i - 1]
  }

  predicate IncrementAtMost(walls: seq<U64>, i: nat, d: int)
    requires i < |walls|
  {
    walls[i] - WallBefore(walls, i) <= d
  }

  ghost predicate IncrementsAtMost(walls: seq<U64>, d: int) {
    forall i :: 0 <= i < |walls| ==> IncrementAtMost(walls, i, d)
  }

  // ----- invariants of every run -----

  /** Every counter of `b` is at or past its value in `a`, and latches stay set. */
  ghost predicate NoEarlier(a: Clock, b: Clock) {
    && a.simUs <= b.simUs && a.IntegratedUs() <= b.IntegratedUs() && a.discardedUs <= b.discardedUs
    && a.stepsDone <= b.stepsDone && a.gapCount <= b.gapCount && a.maxGapUs <= b.maxGapUs
    && (a.sessionInvalid ==> b.sessionInvalid)
  }

  lemma StepIsLater(c: Clock, wall: U64)
    requires c.Consistent()
    ensures NoEarlier(c, Step(c, wall))
    ensures c.simUs < U64_MAX ==> c.simUs < Step(c, wall).simUs
  {
    StepBounds(c, wall);
  }

  lemma LaterIsTransitive(a: Clock, b: Clock, c: Clock)
    requires NoEarlier(a, b) && NoEarlier(b, c)
    ensures NoEarlier(a, c)
  {
  }

  lemma {:induction false} Monotone(c: Clock, walls: seq<U64>, i: nat, j: nat)
    requires c.Consistent() && i <= j <= |walls|
    ensures NoEarlier(StateAt(c, walls, i), StateAt(c, walls, j))
    decreases j - i
  {
    if i < j {
      Monotone(c, walls, i, j - 1);
      StepIsLater(StateAt(c, walls, j - 1), walls[j - 1]);
      LaterIsTransitive(StateAt(c, walls, i), StateAt(c, walls, j - 1), StateAt(c, walls, j));
    }
  }

  /** For every constructor argument and every wall sequence: the accounting holds after each call,
      the lag is bounded, each plan runs between one step and the cap, and since any earlier call
      neither clock has rewound and no latch has cleared. */
  lemma EveryRunKeepsTheInvariants(
      stepUs: U64, gapThresholdUs: U64, maxCatchupSteps: U32, walls: seq<U64>, i: nat, n: nat)
    requires i <= n < |walls|
    ensures var c := New(stepUs, gapThresholdUs, maxCatchupSteps);
            var d := StateAt(c, walls, n + 1);
            && d.discardedUs <= d.simUs
            && IdentityHolds(d)
            && (d.simUs < U64_MAX ==> d.simUs == Span(d.stepsDone, d.stepUs) + d.discardedUs)
            && walls[n] - d.simUs <= gapThresholdUs
            && 1 <= PlanAt(c, walls, n).steps <= Max(1, maxCatchupSteps)
            && NoEarlier(StateAt(c, walls, i), d)
  {
    var c := New(stepUs, gapThresholdUs, maxCatchupSteps);
    StepBounds(StateAt(c, walls, n), walls[n]);
    Monotone(c, walls, i, n + 1);
    ApplyKeepsConsistent(StateAt(c, walls, n), PlanAt(c, walls, n));
  }

  /** Below saturation the counters are exact totals of the plans that were run. */
  function PlannedSteps(c: Clock, walls: seq<U64>, n: nat): nat
    requires c.Consistent() && n <= |walls|
  {
    if n == 0 then 0 else PlannedSteps(c, walls, n - 1) + PlanAt(c, walls, n - 1).steps
  }

  function PlannedDiscard(c: Clock, walls: seq<U64>, n: nat): nat
    requires c.Consistent() && n <= |walls|
  {
    if n == 0 then 0 else PlannedDiscard(c, walls, n - 1) + PlanAt(c, walls, n - 1).discardedUs
  }

  lemma StepsFitInTime(c: Clock)
    requires c.Consistent() && c.simUs < U64_MAX
    ensures c.stepsDone <= c.simUs
  {
    SpanAtLeast(c.stepsDone, c.stepUs);
  }

  /** Below saturation one call moves every total by exactly what was planned. */
  lemma StepIsExact(c: Clock, wall: U64)
    requires c.Consistent() && Step(c, wall).simUs < U64_MAX
    ensures var p, d := Decide(c, wall), Step(c, wall);
            && c.simUs == c.AccountedUs() && d.simUs == d.AccountedUs()
            && d.simUs == c.simUs + Span(p.steps, c.stepUs) + p.discardedUs
            && d.discardedUs == c.discardedUs + p.discardedUs
            && d.stepsDone == c.stepsDone + p.steps
            && d.catchupSteps == Min(c.catchupSteps + p.steps - 1, U64_MAX)
            && d.stepUs == c.stepUs
  {
    StepBounds(c, wall);
    StepsFitInTime(Step(c, wall));
  }

  lemma {:induction false} CountersAreTotals(c: Clock, walls: seq<U64>, n: nat)
    requires c.Consistent() && n <= |walls|
    requires c.simUs == c.stepsDone == c.catchupSteps == c.discardedUs == 0
    requires StateAt(c, walls, n).simUs < U64_MAX
    ensures var d := StateAt(c, walls, n);
            && d.stepsDone == PlannedSteps(c, walls, n)
            && d.discardedUs == PlannedDiscard(c, walls, n)
            && d.catchupSteps == d.stepsDone - n
  {
    hide Step, Decide;
    if n > 0 {
      Monotone(c, walls, n - 1, n);
      CountersAreTotals(c, walls, n - 1);
      StepIsExact(StateAt(c, walls, n - 1), walls[n - 1]);
    }
  }

  /** Gaps among the first `n` calls, and the longest deficit of any of them. */
  function GapsMet(c: Clock, walls: seq<U64>, n: nat): nat
    requires c.Consistent() && n <= |walls|
  {
    if n == 0 then 0 else GapsMet(c, walls, n - 1) + (if PlanAt(c, walls, n - 1).gap then 1 else 0)
  }

  function LongestGap(c: Clock, walls: seq<U64>, n: nat): nat
    requires c.Consistent() && n <= |walls|
  {
    if n == 0 then 0
    else if PlanAt(c, walls, n - 1).gap then Max(LongestGap(c, walls, n - 1), walls[n - 1] - StateAt(c, walls, n - 1).simUs)
    else LongestGap(c, walls, n - 1)
  }

  /** The gap counters are those of the calls, saturated or not. */
  lemma {:induction false} GapCountersAreTotals(c: Clock, walls: seq<U64>, n: nat)
    requires c.Consistent() && c.gapCount == c.maxGapUs == 0 && !c.sessionInvalid && n <= |walls|
    ensures var d := StateAt(c, walls, n);
            && d.gapCount == Min(GapsMet(c, walls, n), U32_MAX)
            && d.maxGapUs == LongestGap(c, walls, n)
            && (d.sessionInvalid <==> GapsMet(c, walls, n) > 0)
  {
    hide Step, Decide;
    if n > 0 {
      GapCountersAreTotals(c, walls, n - 1);
      GapRecorded(StateAt(c, walls, n - 1), walls[n - 1]);
    }
  }

  lemma GapRecorded(c: Clock, wall: U64)
    requires c.Consistent()
    ensures var p, d := Decide(c, wall), Step(c, wall);
            && (p.gap <==> wall - c.simUs > c.gapThresholdUs)
            && d.gapCount == (if p.gap then Min(c.gapCount + 1, U32_MAX) else c.gapCount)
            && d.maxGapUs == (if p.gap then Max(c.maxGapUs, wall - c.simUs) else c.maxGapUs)
            && (d.sessionInvalid <==> c.sessionInvalid || p.gap)
  {
  }

  // ----- schedule independence -----

  /** With the whole budget available the clock is never a full step behind the wall it was last
      given, whatever came before. */
  lemma LagsLessThanAStep(c: Clock, wall: U64)
    requires c.Consistent() && FullBudget(c)
    ensures Step(c, wall).simUs == U64_MAX || wall < Step(c, wall).simUs + c.stepUs
  {
    DeficitIsAbsorbedOrDiscarded(c, wall);
    if !Decide(c, wall).gap {
      DerivedCapPaysTheDeficit(c, wall);
    }
  }

  /** A call at or after the deadline leaves the clock at most one step ahead of the wall. */
  lemma LeadsAtMostAStep(c: Clock, wall: U64)
    requires c.Consistent() && wall >= c.simUs
    ensures Step(c, wall).simUs <= wall + c.stepUs
  {
    AbsorbedBound(c, wall);
    DeficitIsAbsorbedOrDiscarded(c, wall);
  }

  /** In a gap-free run sim time is exactly the steps that were executed. */
  lemma {:induction false} GapFreeTimeIsSteps(c: Clock, walls: seq<U64>, n: nat)
    requires c.Consistent() && c.simUs == c.stepsDone == c.discardedUs == 0
    requires GapFree(c, walls) && n <= |walls| && StateAt(c, walls, n).simUs < U64_MAX
    ensures StateAt(c, walls, n).discardedUs == 0
    ensures StateAt(c, walls, n).simUs == Span(StateAt(c, walls, n).stepsDone, c.stepUs)
  {
    hide Step, Decide;
    if n > 0 {
      Monotone(c, walls, n - 1, n);
      GapFreeTimeIsSteps(c, walls, n - 1);
      DeficitIsAbsorbedOrDiscarded(StateAt(c, walls, n - 1), walls[n - 1]);
      StepIsExact(StateAt(c, walls, n - 1), walls[n - 1]);
      assert !PlanAt(c, walls, n - 1).gap;
    }
  }

  /** The clock holds the whole steps of `wall`, or one more, and nothing else. */
  ghost predicate HoldsStepsOf(d: Clock, wall: U64) {
    && d.stepUs >= 1
    && d.simUs == Span(d.stepsDone, d.stepUs)
    && Fits(wall, d.stepUs) <= d.stepsDone <= Fits(wall, d.stepUs) + 1
  }

  ghost predicate WithinOneStep(a: Clock, b: Clock) {
    && -1 <= a.stepsDone - b.stepsDone <= 1
    && b.simUs - a.stepUs <= a.simUs <= b.simUs + a.stepUs
  }

  lemma SameWallWithinOneStep(a: Clock, b: Clock, wall: U64)
    requires a.stepUs == b.stepUs && HoldsStepsOf(a, wall) && HoldsStepsOf(b, wall)
    ensures WithinOneStep(a, b)
  {
    var fewer := Fits(wall, a.stepUs);
    assert Span(fewer + 1, a.stepUs) == Span(fewer, a.stepUs) + a.stepUs;
  }

  /** A gap-free, deadline-honouring run executes the whole steps of its last wall time, or one more:
      the number depends on the wall alone. */
  lemma {:induction false} StepsFollowTheWall(c: Clock, walls: seq<U64>)
    requires Paced(c, walls) && walls != []
    ensures HoldsStepsOf(Final(c, walls), walls[|walls| - 1])
  {
    var before, w := StateAt(c, walls, |walls| - 1), walls[|walls| - 1];
    assert Final(c, walls) == Step(before, w) && OnDeadline(c, walls, |walls| - 1);
    LagsLessThanAStep(before, w);
    LeadsAtMostAStep(before, w);
    GapFreeTimeIsSteps(c, walls, |walls|);
    SpansNear(w, c.stepUs, Final(c, walls).stepsDone);
  }

  /** Schedule independence: whatever their jitter and however many iterations they took, two such
      runs that end at the same wall time have executed the same physics to within one step. */
  lemma ScheduleIndependence(c: Clock, walls: seq<U64>, other: seq<U64>)
    requires Paced(c, walls) && Paced(c, other)
    requires walls != [] && other != [] && walls[|walls| - 1] == other[|other| - 1]
    ensures WithinOneStep(Final(c, walls), Final(c, other))
  {
    StepsFollowTheWall(c, walls);
    StepsFollowTheWall(c, other);
    SameWallWithinOneStep(Final(c, walls), Final(c, other), walls[|walls| - 1]);
  }

  // ----- gaps and the session latch -----

  lemma QuietCall(c: Clock, wallBefore: U64, wall: U64)
    requires c.Consistent() && FullBudget(c) && c.stepUs <= c.gapThresholdUs
    requires c.simUs == U64_MAX || wallBefore < c.simUs + c.stepUs
    requires wall - wallBefore <= c.gapThresholdUs - c.stepUs
    ensures !Decide(c, wall).gap && Step(c, wall).discardedUs == c.discardedUs
    ensures Step(c, wall).simUs == U64_MAX || wall < Step(c, wall).simUs + c.stepUs
  {
    DeficitIsAbsorbedOrDiscarded(c, wall);
    LagsLessThanAStep(c, wall);
  }

  ghost predicate QuietSoFar(c: Clock, walls: seq<U64>, n: nat)
    requires c.Consistent() && n <= |walls|
  {
    var d := StateAt(c, walls, n);
    && d.sessionInvalid == c.sessionInvalid && d.gapCount == c.gapCount && d.discardedUs == c.discardedUs
    && (d.simUs == U64_MAX || WallBefore(walls, n) < d.simUs + c.stepUs)
  }

  lemma {:induction false} StaysQuiet(c: Clock, walls: seq<U64>, n: nat)
    requires c.Consistent() && c.simUs == 0 && FullBudget(c) && c.stepUs <= c.gapThresholdUs
    requires IncrementsAtMost(walls, c.gapThresholdUs - c.stepUs) && n <= |walls|
    ensures QuietSoFar(c, walls, n)
  {
    if n > 0 {
      StaysQuiet(c, walls, n - 1);
      assert IncrementAtMost(walls, n - 1, c.gapThresholdUs - c.stepUs);
      QuietCall(StateAt(c, walls, n - 1), WallBefore(walls, n - 1), walls[n - 1]);
    }
  }

  /** A wall that never jumps by more than the threshold less one step never costs a gap, deadlines
      honoured or not. */
  lemma {:induction false} NoFalseLatch(c: Clock, walls: seq<U64>)
    requires c.Consistent() && c.simUs == 0 && FullBudget(c) && c.stepUs <= c.gapThresholdUs
    requires IncrementsAtMost(walls, c.gapThresholdUs - c.stepUs)
    ensures GapFree(c, walls)
    ensures Final(c, walls).sessionInvalid == c.sessionInvalid
    ensures Final(c, walls).discardedUs == c.discardedUs
  {
    StaysQuiet(c, walls, |walls|);
    forall i | 0 <= i < |walls| ensures !PlanAt(c, walls, i).gap {
      StaysQuiet(c, walls, i);
      assert IncrementAtMost(walls, i, c.gapThresholdUs - c.stepUs);
      QuietCall(StateAt(c, walls, i), WallBefore(walls, i), walls[i]);
    }
  }

  /** One call: below the threshold side condition, flagging a gap and recording a loss coincide. */
  lemma GapRecordsDiscard(c: Clock, wall: U64)
    requires c.Consistent() && c.stepUs <= c.gapThresholdUs
    ensures var p, d := Decide(c, wall), Step(c, wall);
            p.gap <==> d.discardedUs > c.discardedUs
    ensures Decide(c, wall).gap ==> Step(c, wall).simUs == wall
  {
    DiscardsExactlyPastStepAndThreshold(c, wall);
    DeficitIsAbsorbedOrDiscarded(c, wall);
  }

  ghost predicate LatchesAgree(c: Clock) {
    && (c.sessionInvalid <==> c.gapCount > 0)
    && (c.sessionInvalid <==> c.discardedUs > 0)
  }

  lemma {:induction false} LatchesAgreeAlways(c: Clock, walls: seq<U64>, n: nat)
    requires c.Consistent() && LatchesAgree(c) && c.stepUs <= c.gapThresholdUs && n <= |walls|
    ensures LatchesAgree(StateAt(c, walls, n))
  {
    if n > 0 {
      LatchesAgreeAlways(c, walls, n - 1);
      GapRecordsDiscard(StateAt(c, walls, n - 1), walls[n - 1]);
      Monotone(c, walls, n - 1, n);
    }
  }

  /** The invalid latch, the gap count and the discarded time tell the same story in every run
      exactly when one step fits the threshold. Past that (rates below 50 Hz) a deficit between the
      threshold and one step is a gap that loses nothing. */
  lemma LatchesAgreeExactlyWhenAStepFits(stepUs: U64, gapThresholdUs: U64, maxCatchupSteps: U32)
    requires stepUs >= 1
    ensures (forall walls: seq<U64> :: LatchesAgree(Final(New(stepUs, gapThresholdUs, maxCatchupSteps), walls)))
            <==> stepUs <= gapThresholdUs
  {
    var c := New(stepUs, gapThresholdUs, maxCatchupSteps);
    if stepUs <= gapThresholdUs {
      forall walls: seq<U64> ensures LatchesAgree(Final(c, walls)) {
        LatchesAgreeAlways(c, walls, |walls|);
      }
    } else {
      var walls: seq<U64> := [gapThresholdUs + 1];
      DeficitIsAbsorbedOrDiscarded(c, walls[0]);
      DiscardsExactlyPastStepAndThreshold(c, walls[0]);
      assert StateAt(c, walls, 0) == c;
      assert StateAt(c, walls, 1) == Step(StateAt(c, walls, 0), walls[0]);
      assert !LatchesAgree(Final(c, walls));
    }
  }

  // ----- the loop before wall anchoring -----

  /** Each iteration one cadence after the last. */
  ghost predicate ConstantCadence(walls: seq<U64>, cadence: U64) {
    forall i :: 0 <= i < |walls| ==> walls[i] == Span(i + 1, cadence)
  }

  lemma {:induction false} WithoutCatchupCountsTicks(stepUs: U64, walls: seq<U64>, n: nat)
    requires stepUs >= 1 && n <= |walls| && Span(n, stepUs) <= U64_MAX
    ensures StateAt(WithoutCatchup(stepUs), walls, n).simUs == Span(n, stepUs)
    ensures StateAt(WithoutCatchup(stepUs), walls, n).discardedUs == 0
  {
    if n > 0 {
      WithoutCatchupCountsTicks(stepUs, walls, n - 1);
      DeficitIsAbsorbedOrDiscarded(StateAt(WithoutCatchup(stepUs), walls, n - 1), walls[n - 1]);
      assert Span(1, stepUs) == stepUs;
    }
  }

  /** The measured defect: at a constant cadence the old clock drifts by exactly the lateness of
      every iteration. */
  lemma WithoutCatchupDriftsByItsLateness(stepUs: U64, cadence: U64, walls: seq<U64>)
    requires stepUs >= 1 && walls != [] && ConstantCadence(walls, cadence)
    requires Span(|walls|, stepUs) <= U64_MAX
    requires -0x8000_0000_0000_0000 <= |walls| * (cadence - stepUs) <= 0x7FFF_FFFF_FFFF_FFFF
    ensures Final(WithoutCatchup(stepUs), walls).DriftUs(walls[|walls| - 1]) == |walls| * (cadence - stepUs)
  {
    var n := |walls|;
    WithoutCatchupCountsTicks(stepUs, walls, n);
    assert walls[n - 1] == Span(n, cadence);
    SpansApart(n, cadence, stepUs);
  }

  lemma SpansApart(n: nat, a: nat, b: nat)
    ensures n * (a - b) == Span(n, a) - Span(n, b)
  {
    SpanIsProduct(n, a);
    SpanIsProduct(n, b);
  }
}
