/** The wall-anchored pacing planner: one transition of the clock. */
module Timebase {
  import opened Uint

  /** PX4's own IMU integration clamp, which is also the catch-up budget. */
  const GAP_THRESHOLD_US: U64 := 20_000

  datatype TickPlan = TickPlan(steps: U32, discardedUs: U64, gap: bool, deficitUs: U64)

  /** The planner's counters as a value. */
  datatype Clock = Clock(
    stepUs: U64,
    gapThresholdUs: U64,
    maxCatchupSteps: U32,
    simUs: U64,
    discardedUs: U64,
    stepsDone: U64,
    catchupSteps: U64,
    gapCount: U32,
    maxGapUs: U64,
    sessionInvalid: bool)
  {
    predicate Configured() { stepUs >= 1 && maxCatchupSteps >= 1 }

    function IntegratedUs(): U64 { SatSub(simUs, discardedUs) }

    /** The drift in microseconds, clamped into an `i64`. */
    function DriftUs(wall: U64): int {
      Max(-0x8000_0000_0000_0000, Min(wall - simUs, 0x7FFF_FFFF_FFFF_FFFF))
    }

    /** Simulated and discarded time together, with no machine width. */
    function AccountedUs(): nat { Span(stepsDone, stepUs) + discardedUs }

    /** Every microsecond of the clock is simulated or discarded, up to saturation. */
    predicate Accounted() {
      || AccountedUs() == simUs
      || (simUs == U64_MAX && AccountedUs() >= U64_MAX)
    }

    predicate Consistent() {
      Configured() && discardedUs <= simUs && Accounted()
    }
  }

  function New(stepUs: U64, gapThresholdUs: U64, maxCatchupSteps: U32): Clock {
    Clock(Max(stepUs, 1), gapThresholdUs, Max(maxCatchupSteps, 1), 0, 0, 0, 0, 0, 0, false)
  }

  /** One step an iteration and never a gap: the loop before wall anchoring. */
  function WithoutCatchup(stepUs: U64): Clock { New(stepUs, U64_MAX, 1) }

  /** Whole steps the gap threshold pays for, at least one. */
  function BudgetSteps(stepUs: U64, gapThresholdUs: U64): (b: U64)
    ensures b >= 1
  {
    SpanOfFits(gapThresholdUs, Max(stepUs, 1));
    Max(Fits(gapThresholdUs, Max(stepUs, 1)), 1)
  }

  function BudgetStepsAt(stepUs: U64, gapThresholdUs: U64): U32 {
    SaturateU32(BudgetSteps(stepUs, gapThresholdUs))
  }

  /** The clock the loop runs on: the catch-up cap derived from the step. */
  function Derived(stepUs: U64, gapThresholdUs: U64): Clock {
    New(stepUs, gapThresholdUs, BudgetStepsAt(stepUs, gapThresholdUs))
  }

  /** How far the wall is ahead of the clock. */
  function Deficit(c: Clock, wall: U64): U64 { Max(wall - c.simUs, 0) }

  function StepsFor(c: Clock, deficit: U64): (steps: U32)
    requires c.Configured()
    ensures 1 <= steps <= c.maxCatchupSteps
  {
    Max(1, Min(Fits(deficit, c.stepUs), Min(c.maxCatchupSteps, BudgetSteps(c.stepUs, c.gapThresholdUs))))
  }

  /** The plan for one iteration, in unbounded arithmetic. */
  function Decide(c: Clock, wall: U64): TickPlan
    requires c.Configured()
  {
    var deficit := Deficit(c, wall);
    var steps := StepsFor(c, deficit);
    var gap := deficit > c.gapThresholdUs;
    TickPlan(steps, if gap then Max(0, deficit - Span(steps, c.stepUs)) else 0, gap, deficit)
  }

  /** Where the clock stands after a plan: its exact advance, stopped at the last u64. */
  function SimAfter(c: Clock, plan: TickPlan): (sim: U64)
    ensures sim >= c.simUs
  {
    Min(c.simUs + Span(plan.steps, c.stepUs) + plan.discardedUs, U64_MAX)
  }

  /** The counters after a plan, in unbounded arithmetic. */
  function Apply(c: Clock, plan: TickPlan): Clock
    requires c.discardedUs <= c.simUs
  {
    var sim := SimAfter(c, plan);
    c.(simUs := sim,
       discardedUs := c.discardedUs + Min(plan.discardedUs, sim - c.simUs),
       stepsDone := Min(c.stepsDone + plan.steps, U64_MAX),
       catchupSteps := Min(c.catchupSteps + Max(plan.steps - 1, 0), U64_MAX),
       gapCount := if plan.gap then Min(c.gapCount + 1, U32_MAX) else c.gapCount,
       maxGapUs := if plan.gap then Max(c.maxGapUs, plan.deficitUs) else c.maxGapUs,
       sessionInvalid := c.sessionInvalid || plan.gap)
  }

  /** One call of `plan`. */
  function Step(c: Clock, wall: U64): Clock
    requires c.Consistent()
  {
    Apply(c, Decide(c, wall))
  }

  /** What `identity_holds` computes: checked arithmetic, and true when it overflows. */
  predicate IdentityHolds(c: Clock) {
    var simulated := Span(c.stepsDone, c.stepUs);
    simulated > U64_MAX || simulated + c.discardedUs > U64_MAX || simulated + c.discardedUs == c.simUs
  }

  // ----- one decision -----

  /** What an iteration absorbs never exceeds what it owed, except the one step it cannot avoid. */
  lemma AbsorbedBound(c: Clock, wall: U64)
    requires c.Configured()
    ensures var p := Decide(c, wall);
            c.stepUs <= Span(p.steps, c.stepUs) <= Max(p.deficitUs, c.stepUs) <= U64_MAX
  {
    var p := Decide(c, wall);
    SpanOfFits(p.deficitUs, c.stepUs);
    assert Span(1, c.stepUs) == c.stepUs;
    if p.steps > 1 {
      SpanGrows(1, p.steps, c.stepUs);
    }
    if 1 < p.steps < Fits(p.deficitUs, c.stepUs) {
      SpanGrows(p.steps, Fits(p.deficitUs, c.stepUs), c.stepUs);
    } else if p.steps == 1 < Fits(p.deficitUs, c.stepUs) {
      SpanGrows(1, Fits(p.deficitUs, c.stepUs), c.stepUs);
    }
  }

  /** On a gap, absorbed and discarded time make up the deficit exactly; a deficit shorter than one
      step is overpaid by that step. Off a gap nothing is discarded. */
  lemma DeficitIsAbsorbedOrDiscarded(c: Clock, wall: U64)
    requires c.Configured()
    ensures var p := Decide(c, wall);
            && (p.gap <==> Deficit(c, wall) > c.gapThresholdUs)
            && (p.gap ==> Span(p.steps, c.stepUs) + p.discardedUs == Max(p.deficitUs, c.stepUs))
            && (!p.gap ==> p.discardedUs == 0)
  {
    AbsorbedBound(c, wall);
  }

  /** With the derived cap, an iteration without a gap pays its deficit down to less than one step. */
  lemma DerivedCapPaysTheDeficit(c: Clock, wall: U64)
    requires c.Configured()
    requires c.maxCatchupSteps == BudgetSteps(c.stepUs, c.gapThresholdUs)
    requires !Decide(c, wall).gap
    ensures Span(Decide(c, wall).steps, c.stepUs) + c.stepUs > Deficit(c, wall)
  {
    var p := Decide(c, wall);
    SpanOfFits(p.deficitUs, c.stepUs);
    FitsMonotone(p.deficitUs, c.gapThresholdUs, c.stepUs);
    assert p.steps == Max(1, Fits(p.deficitUs, c.stepUs));
  }

  /** A call records discarded time exactly when the deficit passes both the threshold and one step. */
  lemma DiscardsExactlyPastStepAndThreshold(c: Clock, wall: U64)
    requires c.Configured()
    ensures Decide(c, wall).discardedUs > 0 <==>
            Deficit(c, wall) > Max(c.gapThresholdUs, c.stepUs)
  {
    var p, budget := Decide(c, wall), BudgetSteps(c.stepUs, c.gapThresholdUs);
    DeficitIsAbsorbedOrDiscarded(c, wall);
    SpanOfFits(c.gapThresholdUs, c.stepUs);
    assert Span(1, c.stepUs) == c.stepUs;
    if p.steps < budget {
      SpanGrows(p.steps, budget, c.stepUs);
    }
    assert Span(p.steps, c.stepUs) <= Max(c.gapThresholdUs, c.stepUs);
  }

  /** How many steps a call runs, gap or not: the most whole steps that both the deficit and the
      threshold pay for, within the cap, and one if they pay for none. */
  lemma StepsAreTheMostThatFit(c: Clock, wall: U64)
    requires c.Configured()
    ensures var p, payable := Decide(c, wall), Min(Max(wall - c.simUs, 0), c.gapThresholdUs);
            && 1 <= p.steps <= c.maxCatchupSteps
            && (p.steps == 1 || Span(p.steps, c.stepUs) <= payable)
            && (p.steps == c.maxCatchupSteps || Span(p.steps + 1, c.stepUs) > payable)
  {
    var deficit, n: nat := Deficit(c, wall), Decide(c, wall).steps;
    var whole := Fits(Min(deficit, c.gapThresholdUs), c.stepUs);
    SpanOfFits(Min(deficit, c.gapThresholdUs), c.stepUs);
    FitsOfTheSmaller(deficit, c.gapThresholdUs, c.stepUs);
    assert n == Max(1, Min(whole, c.maxCatchupSteps));
    if 1 < n < whole { SpanGrows(n, whole, c.stepUs); }
    if whole < n + 1 { SpanGrows(whole, n + 1, c.stepUs); }
  }

  lemma FitsOfTheSmaller(a: nat, b: nat, each: nat)
    requires each >= 1
    ensures Fits(Min(a, b), each) == Min(Fits(a, each), Fits(b, each))
  {
    FitsMonotone(Min(a, b), Max(a, b), each);
  }

  /** With the whole budget a gap loses what lies past the threshold, to within one step: what can be
      replayed is replayed. */
  lemma AGapLosesNoMoreThanItMust(c: Clock, wall: U64)
    requires c.Configured() && c.maxCatchupSteps == BudgetSteps(c.stepUs, c.gapThresholdUs) && Decide(c, wall).gap
    ensures wall - c.simUs - Max(c.gapThresholdUs, c.stepUs) <= Decide(c, wall).discardedUs
    ensures Decide(c, wall).discardedUs < wall - c.simUs - c.gapThresholdUs + c.stepUs
  {
    var p := Decide(c, wall);
    StepsAreTheMostThatFit(c, wall);
    DeficitIsAbsorbedOrDiscarded(c, wall);
    SpanOfFits(c.gapThresholdUs, c.stepUs);
    assert Span(1, c.stepUs) == c.stepUs && Span(p.steps + 1, c.stepUs) == Span(p.steps, c.stepUs) + c.stepUs;
  }

  // ----- one transition -----

  lemma SaturatedStepsTake(done: U64, steps: U32, stepUs: U64)
    requires stepUs >= 1
    ensures Span(done + steps, stepUs) == Span(done, stepUs) + Span(steps, stepUs)
    ensures done + steps > U64_MAX ==>
              Span(U64_MAX, stepUs) >= U64_MAX && Span(done, stepUs) + Span(steps, stepUs) > U64_MAX
  {
    SpanAdds(done, steps, stepUs);
    SpanAtLeast(U64_MAX, stepUs);
    SpanAtLeast(done + steps, stepUs);
  }

  /** What the identity check computes: steps times step plus discarded time is sim time, unless that
      passes the last u64. */
  lemma IdentityIs(c: Clock)
    ensures IdentityHolds(c) <==>
            c.stepsDone * c.stepUs + c.discardedUs > U64_MAX || c.stepsDone * c.stepUs + c.discardedUs == c.simUs
  {
    SpanIsProduct(c.stepsDone, c.stepUs);
  }

  /** Every plan, whatever made it, keeps the accounting: the debug assertion cannot fire. */
  lemma ApplyKeepsConsistent(c: Clock, plan: TickPlan)
    requires c.Consistent()
    ensures Apply(c, plan).Consistent()
    ensures IdentityHolds(Apply(c, plan))
  {
    SaturatedStepsTake(c.stepsDone, plan.steps, c.stepUs);
  }

  /** After one call the clock lags the wall by no more than the threshold, and has never run
      backwards in either of its two times. */
  lemma StepBounds(c: Clock, wall: U64)
    requires c.Consistent()
    ensures var d := Step(c, wall);
            && d.Consistent()
            && d.stepUs == c.stepUs && d.gapThresholdUs == c.gapThresholdUs && d.maxCatchupSteps == c.maxCatchupSteps
            && wall - d.simUs <= c.gapThresholdUs
            && d.simUs >= c.simUs
            && d.IntegratedUs() >= c.IntegratedUs()
            && d.discardedUs >= c.discardedUs
            && (d.simUs == c.simUs ==> c.simUs == U64_MAX)
  {
    var p := Decide(c, wall);
    ApplyKeepsConsistent(c, p);
    AbsorbedBound(c, wall);
    DeficitIsAbsorbedOrDiscarded(c, wall);
  }

  // ----- the planner object -----

  class Planner {
    const stepUs: U64
    const gapThresholdUs: U64
    const maxCatchupSteps: U32
    var simUs: U64
    var discardedUs: U64
    var stepsDone: U64
    var catchupSteps: U64
    var gapCount: U32
    var maxGapUs: U64
    var sessionInvalid: bool

    function View(): Clock
      reads this
    {
      Clock(stepUs, gapThresholdUs, maxCatchupSteps, simUs, discardedUs, stepsDone, catchupSteps,
            gapCount, maxGapUs, sessionInvalid)
    }

    predicate Valid()
      reads this
    {
      View().Consistent()
    }

    constructor (stepUs: U64, gapThresholdUs: U64, maxCatchupSteps: U32)
      ensures Valid() && View() == New(stepUs, gapThresholdUs, maxCatchupSteps)
    {
      this.stepUs := Max(stepUs, 1);
      this.gapThresholdUs := gapThresholdUs;
      this.maxCatchupSteps := Max(maxCatchupSteps, 1);
      simUs, discardedUs, stepsDone, catchupSteps := 0, 0, 0, 0;
      gapCount, maxGapUs, sessionInvalid := 0, 0, false;
    }

    /** The decision as the planner computes it, in saturating u64 operations and a u32 cast. */
    function DecideNow(wall: U64): (plan: TickPlan)
      requires Valid()
      reads this
      ensures plan == Decide(View(), wall)
    {
      var deficit := SatSub(wall, simUs);
      var gap := deficit > gapThresholdUs;
      FitsIsQuotient(gapThresholdUs, stepUs);
      FitsIsQuotient(deficit, stepUs);
      SpanOfFits(deficit, stepUs);
      SpanOfFits(gapThresholdUs, stepUs);
      var allowance := Min(maxCatchupSteps, Max(gapThresholdUs / stepUs, 1));
      var steps: U64 := Max(Min(deficit / stepUs, allowance), 1);
      AbsorbedBound(View(), wall);
      SpanIsProduct(steps, stepUs);
      var absorbed := SatMul(steps, stepUs);
      var discarded := if gap then SatSub(deficit, absorbed) else 0;
      TickPlan(SaturateU32(steps), discarded, gap, deficit)
    }

    /** Folds a plan into the counters. It ends by asserting that steps times
        step plus discarded time is sim time wherever the sum fits a u64. */
    method ApplyPlan(plan: TickPlan)
      requires Valid()
      modifies this
      ensures Valid() && View() == Apply(old(View()), plan)
    {
      ghost var before := View();
      SpanIsProduct(plan.steps, stepUs);
      var advance := SatAdd(SatMul(plan.steps, stepUs), plan.discardedUs);
      var newSim := SatAdd(simUs, advance);
      var moved := newSim - simUs;
      var recordedDiscard := Min(plan.discardedUs, moved);

      assert newSim == SimAfter(before, plan);
      simUs := newSim;
      discardedUs := SatAdd(discardedUs, recordedDiscard);
      stepsDone := SatAdd(stepsDone, plan.steps);
      catchupSteps := SatAdd(catchupSteps, SatSub(plan.steps, 1));
      if plan.gap {
        gapCount := SatAdd32(gapCount, 1);
        maxGapUs := Max(maxGapUs, plan.deficitUs);
        sessionInvalid := true;
      }
      ApplyKeepsConsistent(before, plan);
      assert IdentityHolds(View());
    }

    method Plan(wall: U64) returns (plan: TickPlan)
      requires Valid()
      modifies this
      ensures Valid() && View() == Step(old(View()), wall)
      ensures plan == Decide(old(View()), wall)
    {
      plan := DecideNow(wall);
      ApplyPlan(plan);
    }
  }
}
