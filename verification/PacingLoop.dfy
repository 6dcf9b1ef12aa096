/** What the simulation loop builds on the planner: sub-step stamps, the two emission clocks, the
    50 Hz magnetometer and barometer schedule, and the ground-impact impulse. */
module PacingLoop {
  import opened Uint
  import opened Wrappers
  import opened Timebase
  import opened TimebaseRuns

  const SENSOR_50HZ_PERIOD_US: U64 := 20_000
  const IMPACT_DURATION_US: U64 := 100_000

  // ----- sub-step stamps -----

  /** End time of the sub-step with `left` sub-steps still to come. */
  function SubstepEnd(simAfter: U64, left: U32, stepUs: U64): U64 {
    Max(simAfter - Span(left, stepUs), 0)
  }

  /** The sub-step stamps of an iteration that ends at `simAfter`. */
  function StampList(simAfter: U64, steps: U32, stepUs: U64): (s: seq<U64>)
    ensures |s| == steps
  {
    seq(steps, k requires 0 <= k < steps => SubstepEnd(simAfter, steps - 1 - k, stepUs))
  }

  function Stamps(c: Clock, wall: U64): (s: seq<U64>)
    requires c.Consistent()
    ensures |s| == Decide(c, wall).steps >= 1
  {
    StampList(Step(c, wall).simUs, Decide(c, wall).steps, c.stepUs)
  }

  /** Every sub-step stamp of the first `n` iterations, in order. */
  function AllStamps(c: Clock, walls: seq<U64>, n: nat): seq<U64>
    requires c.Consistent() && n <= |walls|
  {
    if n == 0 then [] else AllStamps(c, walls, n - 1) + Stamps(StateAt(c, walls, n - 1), walls[n - 1])
  }

  /** The stamp of the k-th sub-step of a session that has discarded `discarded`. */
  function StampOf(k: nat, stepUs: U64, discarded: U64): nat { Span(k, stepUs) + discarded }

  ghost predicate StrictlyIncreasing(s: seq<U64>) {
    forall i, j :: 0 <= i < j < |s| ==> s[i] < s[j]
  }

  lemma StampAlgebra(simAfter: U64, done: nat, left: U32, stepUs: U64, discarded: U64)
    requires simAfter == Span(done, stepUs) + discarded && left <= done
    ensures SubstepEnd(simAfter, left, stepUs) == StampOf(done - left, stepUs, discarded)
  {
    SpanAdds(done - left, left, stepUs);
  }

  lemma StampArithmetic(c: Clock, wall: U64, j: nat)
    requires c.Consistent() && Step(c, wall).simUs < U64_MAX
    requires j < Decide(c, wall).steps
    ensures Stamps(c, wall)[j] == StampOf(c.stepsDone + j + 1, c.stepUs, Step(c, wall).discardedUs)
  {
    var left, d := Decide(c, wall).steps - 1 - j, Step(c, wall);
    StepIsExact(c, wall);
    StampAlgebra(d.simUs, d.stepsDone, left, c.stepUs, d.discardedUs);
  }

  lemma StampsApart(a: nat, b: nat, stepUs: U64, discarded: U64)
    requires a < b
    ensures StampOf(a, stepUs, discarded) + stepUs <= StampOf(b, stepUs, discarded)
  {
    SpanGrows(a, b, stepUs);
  }

  /** One iteration: the stamps climb from past the old clock to exactly the emission stamp. */
  lemma IterationStamps(c: Clock, wall: U64)
    requires c.Consistent() && Step(c, wall).simUs < U64_MAX
    ensures var s := Stamps(c, wall);
            && StrictlyIncreasing(s)
            && s[0] >= c.simUs + c.stepUs
            && s[|s| - 1] == Step(c, wall).simUs
            && Step(c, wall).stepsDone == c.stepsDone + |s|
  {
    var s, d := Stamps(c, wall), Step(c, wall);
    StepIsExact(c, wall);
    forall i, j | 0 <= i < j < |s| ensures s[i] < s[j] {
      StampArithmetic(c, wall, i);
      StampArithmetic(c, wall, j);
      StampsApart(c.stepsDone + i + 1, c.stepsDone + j + 1, c.stepUs, d.discardedUs);
    }
    StampArithmetic(c, wall, 0);
    StampsApart(c.stepsDone, c.stepsDone + 1, c.stepUs, d.discardedUs);
    StampArithmetic(c, wall, |s| - 1);
  }

  lemma StampWithinIteration(c: Clock, wall: U64, s: U64)
    requires c.Consistent() && Step(c, wall).simUs < U64_MAX && s in Stamps(c, wall)
    ensures c.simUs + c.stepUs <= s <= Step(c, wall).simUs
  {
    IterationStamps(c, wall);
    var all := Stamps(c, wall);
    var j :| 0 <= j < |all| && all[j] == s;
    assert all[0] <= all[j] <= all[|all| - 1];
  }

  /** The stamps so far: strictly increasing, one for every step done, the last one the clock. */
  ghost predicate StampsReach(s: seq<U64>, d: Clock) {
    StrictlyIncreasing(s) && |s| == d.stepsDone && (s != [] ==> s[|s| - 1] == d.simUs)
  }

  lemma StampsReachFurther(s: seq<U64>, d: Clock, wall: U64)
    requires d.Consistent() && Step(d, wall).simUs < U64_MAX && StampsReach(s, d)
    ensures StampsReach(s + Stamps(d, wall), Step(d, wall))
  {
    IterationStamps(d, wall);
    JoinIncreasing(s, Stamps(d, wall));
  }

  /** Across any unsaturated run the stamps strictly increase, there is one for every step done,
      and the last is the current clock. */
  lemma {:induction false} StampsAreSessionGlobal(c: Clock, walls: seq<U64>, n: nat)
    requires c.Consistent() && c.simUs == c.stepsDone == 0 && n <= |walls|
    requires StateAt(c, walls, n).simUs < U64_MAX
    ensures StampsReach(AllStamps(c, walls, n), StateAt(c, walls, n))
  {
    hide Step, Decide, Stamps, StrictlyIncreasing;
    if n > 0 {
      Monotone(c, walls, n - 1, n);
      StampsAreSessionGlobal(c, walls, n - 1);
      StampsReachFurther(AllStamps(c, walls, n - 1), StateAt(c, walls, n - 1), walls[n - 1]);
    } else {
      NothingStamped(c);
    }
  }

  lemma NothingStamped(c: Clock)
    requires c.stepsDone == 0
    ensures StampsReach([], c)
  {
  }

  lemma JoinIncreasing(a: seq<U64>, b: seq<U64>)
    requires StrictlyIncreasing(a) && StrictlyIncreasing(b)
    requires a != [] && b != [] ==> a[|a| - 1] < b[0]
    ensures StrictlyIncreasing(a + b)
  {
    var s := a + b;
    forall i, j | 0 <= i < j < |s| ensures s[i] < s[j] {
      if i < |a| <= j {
        assert a[i] <= a[|a| - 1] < b[0] <= b[j - |a|];
      }
    }
  }

  /** The k-th sub-step of the session is stamped `k * step` plus the time discarded so far. */
  lemma {:induction false} StampOfEverySubstep(c: Clock, walls: seq<U64>, n: nat, i: nat, j: nat)
    requires c.Consistent() && c.simUs == c.stepsDone == 0 && i < n <= |walls|
    requires StateAt(c, walls, n).simUs < U64_MAX && j < PlanAt(c, walls, i).steps
    ensures StateAt(c, walls, i).stepsDone + j < |AllStamps(c, walls, n)|
    ensures AllStamps(c, walls, n)[StateAt(c, walls, i).stepsDone + j] ==
            StampOf(StateAt(c, walls, i).stepsDone + j + 1, c.stepUs, StateAt(c, walls, i + 1).discardedUs)
  {
    hide Step, Decide, StampOf;
    Monotone(c, walls, n - 1, n);
    StampsAreSessionGlobal(c, walls, n - 1);
    var before, here := AllStamps(c, walls, n - 1), Stamps(StateAt(c, walls, n - 1), walls[n - 1]);
    assert AllStamps(c, walls, n) == before + here;
    if i == n - 1 {
      assert StateAt(c, walls, n) == Step(StateAt(c, walls, i), walls[i]);
      StampArithmetic(StateAt(c, walls, i), walls[i], j);
      assert (before + here)[|before| + j] == here[j];
    } else {
      StampOfEverySubstep(c, walls, n - 1, i, j);
    }
  }

  /** Without a gap the k-th stamp is exactly `k * step`, however the steps fell into iterations. */
  lemma {:induction false} GapFreeStampsAreTheGrid(c: Clock, walls: seq<U64>, n: nat, k: nat)
    requires c.Consistent() && c.simUs == c.stepsDone == c.discardedUs == 0 && n <= |walls|
    requires GapFree(c, walls) && StateAt(c, walls, n).simUs < U64_MAX && k < |AllStamps(c, walls, n)|
    ensures AllStamps(c, walls, n)[k] == StampOf(k + 1, c.stepUs, 0)
  {
    hide Step, Decide, StampOf;
    Monotone(c, walls, n - 1, n);
    StampsAreSessionGlobal(c, walls, n - 1);
    var before := AllStamps(c, walls, n - 1);
    if k < |before| {
      GapFreeStampsAreTheGrid(c, walls, n - 1, k);
    } else {
      GapFreeTimeIsSteps(c, walls, n);
      assert StateAt(c, walls, n) == Step(StateAt(c, walls, n - 1), walls[n - 1]);
      StampArithmetic(StateAt(c, walls, n - 1), walls[n - 1], k - |before|);
    }
  }

  // ----- the 50 Hz schedule -----

  /** `(now / period).saturating_add(1).saturating_mul(period)` */
  function NextSlot(now: U64, period: U64): U64 {
    var p: U64 := Max(period, 1);
    DivBounds(now, p);
    SatMul(SatAdd(now / p, 1), p)
  }

  /** When the next update is due after the first `n` emissions. */
  function NextDue(sims: seq<U64>, n: nat): U64
    requires n <= |sims|
    decreases n, 0
  {
    if n == 0 then 0
    else if Fires(sims, n - 1) then NextSlot(sims[n - 1], SENSOR_50HZ_PERIOD_US)
    else NextDue(sims, n - 1)
  }

  /** Emission `i` carries a fresh reading. */
  predicate Fires(sims: seq<U64>, i: nat)
    requires i < |sims|
    decreases i, 1
  {
    sims[i] >= NextDue(sims, i)
  }

  function Slot(sim: U64): nat { sim / SENSOR_50HZ_PERIOD_US }

  ghost predicate Nondecreasing(sims: seq<U64>) {
    forall i, j :: 0 <= i <= j < |sims| ==> sims[i] <= sims[j]
  }

  /** Stamps whose next slot is still a u64. */
  ghost predicate BelowSaturation(sims: seq<U64>) {
    forall i :: 0 <= i < |sims| ==> sims[i] <= U64_MAX - SENSOR_50HZ_PERIOD_US
  }

  lemma NextSlotIsTheNextBoundary(now: U64, period: U64)
    requires period >= 1 && now <= U64_MAX - period
    ensures NextSlot(now, period) == (now / period + 1) * period
    ensures now < NextSlot(now, period) <= now + period
  {
    DivBounds(now, period);
    assert (now / period + 1) * period == (now / period) * period + period;
  }

  lemma {:induction false} DueAtTheNextSlot(sims: seq<U64>, n: nat)
    requires Nondecreasing(sims) && BelowSaturation(sims) && 1 <= n <= |sims|
    ensures NextDue(sims, n) == (Slot(sims[n - 1]) + 1) * SENSOR_50HZ_PERIOD_US
  {
    if n > 1 {
      DueAtTheNextSlot(sims, n - 1);
      assert sims[n - 2] <= sims[n - 1];
    }
  }

  /** An update leaves on the first emission in each 20 ms slot, and on no other. */
  lemma FiresOnTheFirstEmissionOfEachSlot(sims: seq<U64>, i: nat)
    requires Nondecreasing(sims) && BelowSaturation(sims) && i < |sims|
    ensures Fires(sims, i) <==> (i == 0 || Slot(sims[i - 1]) < Slot(sims[i]))
  {
    if i > 0 {
      DueAtTheNextSlot(sims, i);
    }
  }

  lemma {:induction false} NoSlotFiresTwice(sims: seq<U64>, i: nat, j: nat)
    requires Nondecreasing(sims) && BelowSaturation(sims) && i < j < |sims|
    requires Fires(sims, j)
    ensures Slot(sims[i]) < Slot(sims[j])
  {
    FiresOnTheFirstEmissionOfEachSlot(sims, j);
    assert sims[i] <= sims[j - 1];
  }

  /** Emissions that carry no update stay in the slot of the last one that did. */
  lemma {:induction false} QuietEmissionsShareTheSlot(sims: seq<U64>, i: nat, j: nat)
    requires Nondecreasing(sims) && BelowSaturation(sims) && i <= j < |sims|
    requires forall k :: i < k <= j ==> !Fires(sims, k)
    ensures Slot(sims[j]) == Slot(sims[i])
  {
    if i < j {
      QuietEmissionsShareTheSlot(sims, i, j - 1);
      FiresOnTheFirstEmissionOfEachSlot(sims, j);
      assert sims[j - 1] <= sims[j];
    }
  }

  /** Consecutive updates are less than one period plus the last advance apart. */
  lemma UpdateSpacing(sims: seq<U64>, i: nat, j: nat)
    requires Nondecreasing(sims) && BelowSaturation(sims) && i < j < |sims|
    requires forall k :: i < k < j ==> !Fires(sims, k)
    ensures sims[j] - sims[i] < SENSOR_50HZ_PERIOD_US + (sims[j] - sims[j - 1])
  {
    QuietEmissionsShareTheSlot(sims, i, j - 1);
  }

  /** The emission stamps of the first `n` iterations, and of a whole run. */
  function EmissionStampsTo(c: Clock, walls: seq<U64>, n: nat): (s: seq<U64>)
    requires c.Consistent() && n <= |walls|
    ensures |s| == n
  {
    if n == 0 then [] else EmissionStampsTo(c, walls, n - 1) + [StateAt(c, walls, n).simUs]
  }

  function EmissionStamps(c: Clock, walls: seq<U64>): (s: seq<U64>)
    requires c.Consistent()
    ensures |s| == |walls|
  {
    EmissionStampsTo(c, walls, |walls|)
  }

  lemma {:induction false} EmissionStampAt(c: Clock, walls: seq<U64>, n: nat, i: nat)
    requires c.Consistent() && i < n <= |walls|
    ensures EmissionStampsTo(c, walls, n)[i] == StateAt(c, walls, i + 1).simUs
  {
    hide Step;
    if i < n - 1 {
      EmissionStampAt(c, walls, n - 1, i);
    }
  }

  lemma EmissionStampsNeverRewind(c: Clock, walls: seq<U64>)
    requires c.Consistent()
    ensures Nondecreasing(EmissionStamps(c, walls))
  {
    hide Step, StateAt, EmissionStampsTo;
    var s := EmissionStamps(c, walls);
    forall i, j | 0 <= i <= j < |s| ensures s[i] <= s[j] {
      EmissionStampAt(c, walls, |walls|, i);
      EmissionStampAt(c, walls, |walls|, j);
      Monotone(c, walls, i + 1, j + 1);
    }
  }

  /** One call lands at least a step on, at most on the later of the wall and that step, and on a gap
      no earlier than the wall. */
  lemma CallLands(c: Clock, wall: U64)
    requires c.Consistent() && Step(c, wall).simUs < U64_MAX
    ensures c.simUs + c.stepUs <= Step(c, wall).simUs <= Max(wall, c.simUs + c.stepUs)
    ensures Decide(c, wall).gap ==> Step(c, wall).simUs >= wall
    ensures !Decide(c, wall).gap ==> wall <= c.simUs + c.gapThresholdUs
  {
    AbsorbedBound(c, wall);
    DeficitIsAbsorbedOrDiscarded(c, wall);
    StepIsExact(c, wall);
  }

  /** Whether the update at emission `j` comes within period plus threshold (40 ms) of the last one,
      at `i`, is settled before the call that makes it, in any run: by the wall it is handed and by the
      one step it cannot avoid. */
  lemma SpacingKeepsTheBoundExactlyWhen(c: Clock, walls: seq<U64>, i: nat, j: nat)
    requires c.Consistent() && i < j < |walls|
    requires BelowSaturation(EmissionStamps(c, walls))
    requires forall k :: i < k < j ==> !Fires(EmissionStamps(c, walls), k)
    ensures var sims, bound := EmissionStamps(c, walls), SENSOR_50HZ_PERIOD_US + c.gapThresholdUs;
            sims[j] - sims[i] < bound <==> walls[j] - sims[i] < bound && sims[j - 1] + c.stepUs - sims[i] < bound
  {
    hide Step, Decide, Fires, EmissionStampsTo;
    EmissionStampsNeverRewind(c, walls);
    QuietEmissionsShareTheSlot(EmissionStamps(c, walls), i, j - 1);
    EmissionStampAt(c, walls, |walls|, j);
    EmissionStampAt(c, walls, |walls|, j - 1);
    assert StateAt(c, walls, j + 1) == Step(StateAt(c, walls, j), walls[j]);
    CallLands(StateAt(c, walls, j), walls[j]);
  }

  /** Where a step fits the threshold (50 Hz and up) the wall alone settles it, and the bound can only
      be broken by a gap in that one iteration, which puts the update exactly on the wall. */
  lemma OnlyAStallBreaksTheBound(c: Clock, walls: seq<U64>, i: nat, j: nat)
    requires c.Consistent() && c.stepUs <= c.gapThresholdUs && i < j < |walls|
    requires BelowSaturation(EmissionStamps(c, walls))
    requires forall k :: i < k < j ==> !Fires(EmissionStamps(c, walls), k)
    ensures var sims, bound := EmissionStamps(c, walls), SENSOR_50HZ_PERIOD_US + c.gapThresholdUs;
            && (sims[j] - sims[i] < bound <==> walls[j] - sims[i] < bound)
            && (sims[j] - sims[i] >= bound ==> PlanAt(c, walls, j).gap && sims[j] == walls[j])
  {
    hide Step, Decide, Fires, EmissionStampsTo;
    SpacingKeepsTheBoundExactlyWhen(c, walls, i, j);
    EmissionStampsNeverRewind(c, walls);
    QuietEmissionsShareTheSlot(EmissionStamps(c, walls), i, j - 1);
    EmissionStampAt(c, walls, |walls|, j);
    EmissionStampAt(c, walls, |walls|, j - 1);
    assert StateAt(c, walls, j + 1) == Step(StateAt(c, walls, j), walls[j]);
    CallLands(StateAt(c, walls, j), walls[j]);
  }

  /** Any stall that crosses a slot breaks it by as much as the stall: whatever the run before, a wall
      past the threshold is where the next update lands. */
  lemma AStallIsTheSpacing(c: Clock, walls: seq<U64>, j: nat)
    requires c.Consistent() && c.stepUs <= c.gapThresholdUs && 0 < j < |walls|
    requires BelowSaturation(EmissionStamps(c, walls))
    requires walls[j] > EmissionStamps(c, walls)[j - 1] + Max(c.gapThresholdUs, SENSOR_50HZ_PERIOD_US)
    ensures EmissionStamps(c, walls)[j] == walls[j] && Fires(EmissionStamps(c, walls), j)
  {
    hide Step, Decide, EmissionStampsTo;
    var sims := EmissionStamps(c, walls);
    EmissionStampsNeverRewind(c, walls);
    EmissionStampAt(c, walls, |walls|, j);
    EmissionStampAt(c, walls, |walls|, j - 1);
    assert StateAt(c, walls, j + 1) == Step(StateAt(c, walls, j), walls[j]);
    CallLands(StateAt(c, walls, j), walls[j]);
    DivBounds(sims[j - 1], SENSOR_50HZ_PERIOD_US);
    FiresOnTheFirstEmissionOfEachSlot(sims, j);
  }

  /** An iteration at the epoch and one after a stall are updates as far apart as the stall. */
  lemma StallAfterTheFirstCall(c: Clock, wall: U64)
    requires c.Consistent() && c.simUs == 0 && c.stepUs <= c.gapThresholdUs
    requires c.stepUs + Max(c.gapThresholdUs, SENSOR_50HZ_PERIOD_US) < wall <= U64_MAX - SENSOR_50HZ_PERIOD_US
    ensures var sims := EmissionStamps(c, [0, wall]);
            sims == [c.stepUs, wall] && Fires(sims, 0) && Fires(sims, 1)
  {
    hide Step, Decide, NextSlot;
    var walls: seq<U64> := [0, wall];
    assert StateAt(c, walls, 1) == Step(StateAt(c, walls, 0), 0) && StateAt(c, walls, 0) == c;
    assert StateAt(c, walls, 2) == Step(StateAt(c, walls, 1), wall);
    FirstCallTakesOneStep(c);
    LandsOnTheWall(StateAt(c, walls, 1), wall);
    EmissionStampAt(c, walls, 2, 0);
    EmissionStampAt(c, walls, 2, 1);
    AStallIsTheSpacing(c, walls, 1);
    FiresOnTheFirstEmissionOfEachSlot(EmissionStamps(c, walls), 0);
  }

  /** The 40 ms bound failing: at 400 Hz, an iteration at 0 and one after a stall of 0.3 s. */
  lemma FortyMillisecondsCanFail(c: Clock)
    requires c.Consistent() && c.simUs == 0 && c.stepUs == 2_500 && c.gapThresholdUs == GAP_THRESHOLD_US
    ensures var sims := EmissionStamps(c, [0, 300_000]);
            Fires(sims, 0) && Fires(sims, 1) && sims[1] - sims[0] == 297_500
  {
    hide EmissionStamps, Fires, Clock.Consistent;
    StallAfterTheFirstCall(c, 300_000);
  }

  lemma FirstCallTakesOneStep(c: Clock)
    requires c.Consistent() && c.simUs == 0 && c.stepUs < U64_MAX
    ensures Step(c, 0).simUs == c.stepUs
  {
    AbsorbedBound(c, 0);
    DeficitIsAbsorbedOrDiscarded(c, 0);
  }

  lemma LandsOnTheWall(c: Clock, wall: U64)
    requires c.Consistent() && wall > c.simUs + Max(c.gapThresholdUs, c.stepUs)
    ensures Step(c, wall).simUs == wall
  {
    DeficitIsAbsorbedOrDiscarded(c, wall);
  }

  // ----- the impact impulse -----

  function Until(armedAt: seq<U64>): Option<U64> {
    if armedAt == [] then None else Some(SatAdd(armedAt[|armedAt| - 1], IMPACT_DURATION_US))
  }

  /** The impulse is being reported at `sim`. */
  predicate Active(until: Option<U64>, sim: U64) { until.Some? && sim < until.value }

  /** Sub-step stamps at which the impulse was armed, given which stamps see a hard ground contact. */
  function Armings(stamps: seq<U64>, contact: U64 -> bool, n: nat): seq<U64>
    requires n <= |stamps|
  {
    if n == 0 then []
    else
      var before := Armings(stamps, contact, n - 1);
      if contact(stamps[n - 1]) && !Active(Until(before), stamps[n - 1]) then before + [stamps[n - 1]] else before
  }

  ghost predicate DisjointWindows(armedAt: seq<U64>) {
    forall i, j :: 0 <= i < j < |armedAt| ==> armedAt[i] + IMPACT_DURATION_US <= armedAt[j]
  }

  lemma {:induction false} ImpulseWindowsAreDisjoint(stamps: seq<U64>, contact: U64 -> bool, n: nat)
    requires n <= |stamps| && (forall k :: 0 <= k < |stamps| ==> stamps[k] < U64_MAX)
    ensures DisjointWindows(Armings(stamps, contact, n))
    ensures forall a <- Armings(stamps, contact, n) :: a < U64_MAX && a in stamps[..n] && contact(a)
  {
    if n > 0 {
      ImpulseWindowsAreDisjoint(stamps, contact, n - 1);
      assert stamps[..n] == stamps[..n - 1] + [stamps[n - 1]];
    }
  }

  ghost predicate InAWindow(armedAt: seq<U64>, sim: U64) {
    exists a <- armedAt :: a <= sim < a + IMPACT_DURATION_US
  }

  /** The impulse is reported at `sim` exactly when `sim` lies inside an armed window. */
  lemma ActiveExactlyInsideAWindow(stamps: seq<U64>, contact: U64 -> bool, n: nat, sim: U64)
    requires n <= |stamps| && StrictlyIncreasing(stamps) && sim < U64_MAX
    requires forall k :: 0 <= k < |stamps| ==> stamps[k] < U64_MAX
    requires forall k :: 0 <= k < n ==> stamps[k] <= sim
    ensures Active(Until(Armings(stamps, contact, n)), sim) <==>
            InAWindow(Armings(stamps, contact, n), sim)
  {
    ImpulseWindowsAreDisjoint(stamps, contact, n);
    var arms := Armings(stamps, contact, n);
    if arms != [] {
      var last := arms[|arms| - 1];
      assert last in arms && last <= sim;
      forall a | a in arms ensures a <= last {
        var i :| 0 <= i < |arms| && arms[i] == a;
      }
    }
  }

  /** No hard contact goes unreported: each lies in a window armed by it or before it. */
  lemma {:induction false} EveryHardContactIsInAWindow(stamps: seq<U64>, contact: U64 -> bool, n: nat, k: nat)
    requires k < n <= |stamps| && StrictlyIncreasing(stamps) && contact(stamps[k])
    requires forall i :: 0 <= i < |stamps| ==> stamps[i] < U64_MAX
    ensures InAWindow(Armings(stamps, contact, n), stamps[k])
  {
    if k == n - 1 {
      var before := Armings(stamps, contact, n - 1);
      ImpulseWindowsAreDisjoint(stamps, contact, n - 1);
      if Active(Until(before), stamps[k]) {
        var last := before[|before| - 1];
        assert last in before && last in stamps[..n - 1];
        assert last in Armings(stamps, contact, n) && last <= stamps[k] < last + IMPACT_DURATION_US;
      } else {
        assert stamps[k] in Armings(stamps, contact, n);
      }
    } else {
      EveryHardContactIsInAWindow(stamps, contact, n - 1, k);
      var a :| a in Armings(stamps, contact, n - 1) && a <= stamps[k] < a + IMPACT_DURATION_US;
      assert a in Armings(stamps, contact, n);
    }
  }

  /** One call of a paced run: the wall sits between the clock before it and a step and an increment
      past that, and the clock after it leads by a step at most. */
  lemma PacedCall(c: Clock, walls: seq<U64>, d: int, n: nat)
    requires Paced(c, walls) && IncrementsAtMost(walls, d) && n < |walls|
    ensures StateAt(c, walls, n).simUs <= walls[n] < StateAt(c, walls, n).simUs + c.stepUs + d
    ensures StateAt(c, walls, n + 1).simUs <= walls[n] + c.stepUs
    ensures StateAt(c, walls, n + 1).simUs < U64_MAX
  {
    assert OnDeadline(c, walls, n) && IncrementAtMost(walls, n, d);
    Monotone(c, walls, n, |walls|);
    Monotone(c, walls, n + 1, |walls|);
    LeadsAtMostAStep(StateAt(c, walls, n), walls[n]);
    if n > 0 {
      LagsLessThanAStep(StateAt(c, walls, n - 1), walls[n - 1]);
    }
  }

  /** `s` is the stamp of a sub-step of iteration `i`. */
  ghost predicate StampedIn(c: Clock, walls: seq<U64>, i: nat, s: U64)
    requires c.Consistent() && i < |walls|
  {
    s in Stamps(StateAt(c, walls, i), walls[i])
  }

  /** The impulse spans 100 ms of wall time to within the cadence: from the emission of the iteration
      that armed it to the first emission past its end, the wall moves less than two steps and one
      increment away from the declared duration. */
  lemma ImpulseSpansItsWallTime(c: Clock, walls: seq<U64>, d: int, i: nat, s: U64, j: nat)
    requires Paced(c, walls) && IncrementsAtMost(walls, d) && i <= j < |walls|
    requires StampedIn(c, walls, i, s)
    requires Active(Until([s]), StateAt(c, walls, j).simUs) && !Active(Until([s]), StateAt(c, walls, j + 1).simUs)
    ensures 100_000 - d - c.stepUs < walls[j] - walls[i] < 100_000 + d + 2 * c.stepUs
  {
    PacedCall(c, walls, d, i);
    PacedCall(c, walls, d, j);
    assert StateAt(c, walls, i + 1) == Step(StateAt(c, walls, i), walls[i]);
    StampWithinIteration(StateAt(c, walls, i), walls[i], s);
  }
}
