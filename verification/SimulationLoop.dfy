/** The loop that consumes the planner, iteration by iteration, and what its emissions mean. */
module SimulationLoop {
  import opened Uint
  import opened Wrappers
  import opened Timebase
  import opened TimebaseRuns
  import opened PacingLoop
  import opened TickRate

  // ----- samples -----

  datatype Vec3 = Vec3(x: real, y: real, z: real) {
    function Plus(o: Vec3): Vec3 { Vec3(x + o.x, y + o.y, z + o.z) }
    function Times(k: real): Vec3 { Vec3(x * k, y * k, z * k) }
    function Over(k: real): Vec3
      requires k != 0.0
    {
      Vec3(x / k, y / k, z / k)
    }
  }

  const NOTHING := Vec3(0.0, 0.0, 0.0)

  /** The airborne sample of one sub-step: specific force and angular rate, in the body frame. */
  datatype Sample = Sample(accel: Vec3, gyro: Vec3) {
    function Plus(o: Sample): Sample { Sample(accel.Plus(o.accel), gyro.Plus(o.gyro)) }
    function Times(k: real): Sample { Sample(accel.Times(k), gyro.Times(k)) }
    function Over(k: real): Sample
      requires k != 0.0
    {
      Sample(accel.Over(k), gyro.Over(k))
    }
  }

  const NO_SAMPLE := Sample(NOTHING, NOTHING)

  lemma PlusAssociates(a: Sample, b: Sample, c: Sample)
    ensures a.Plus(b).Plus(c) == a.Plus(b.Plus(c))
  {
  }

  lemma ZeroIsNeutral(a: Sample)
    ensures NO_SAMPLE.Plus(a) == a == a.Plus(NO_SAMPLE)
  {
  }

  lemma DivisionUndone(x: real, k: real)
    requires k != 0.0
    ensures (x / k) * k == x
  {
  }

  lemma MeanTimesCount(a: Sample, k: real)
    requires k != 0.0
    ensures a.Over(k).Times(k) == a && a.Over(1.0) == a
  {
    DivisionUndone(a.accel.x, k);
    DivisionUndone(a.accel.y, k);
    DivisionUndone(a.accel.z, k);
    DivisionUndone(a.gyro.x, k);
    DivisionUndone(a.gyro.y, k);
    DivisionUndone(a.gyro.z, k);
  }

  // ----- the physics, and what it leaves -----

  /** How a sub-step ends: hard on the ground, on it, within the release height, or clear of it. */
  datatype Touch = Hits | Rests | Between | Clear {
    predicate OnGround() { Hits? || Rests? }
  }

  /** The physics the loop steps, as functions of the sub-step's stamp: how it ends, the impulse an
      impact there would have to report, the specific force at rest there, and the airborne sample. */
  datatype Physics = Physics(
    touch: U64 -> Touch, impulse: U64 -> Vec3, rest: U64 -> Vec3, sample: U64 -> Sample, restAtStart: Vec3)

  function HardContact(physics: Physics): U64 -> bool { (stamp: U64) => physics.touch(stamp).Hits? }

  function SumOf(f: U64 -> Sample, stamps: seq<U64>, n: nat): Sample
    requires n <= |stamps|
  {
    if n == 0 then NO_SAMPLE else SumOf(f, stamps, n - 1).Plus(f(stamps[n - 1]))
  }

  function MeanOf(f: U64 -> Sample, stamps: seq<U64>): Sample
    requires stamps != []
  {
    SumOf(f, stamps, |stamps|).Over(|stamps| as real)
  }

  /** The sensor's ground mode: latched by touching the ground, released only by leaving it clearly. */
  datatype Ground = Ground(contact: bool, rest: Vec3)

  function GroundStep(g: Ground, physics: Physics, stamp: U64): Ground {
    match physics.touch(stamp)
    case Hits => Ground(true, physics.rest(stamp))
    case Rests => Ground(true, physics.rest(stamp))
    case Between => g
    case Clear => g.(contact := false)
  }

  function GroundAfter(physics: Physics, stamps: seq<U64>, n: nat): Ground
    requires n <= |stamps|
  {
    if n == 0 then Ground(true, physics.restAtStart)
    else GroundStep(GroundAfter(physics, stamps, n - 1), physics, stamps[n - 1])
  }

  function Last(armedAt: seq<U64>): U64
    requires armedAt != []
  {
    armedAt[|armedAt| - 1]
  }

  /** The specific force an emission reports: a live impulse, the ground's, or the airborne mean. */
  function Reported(physics: Physics, armedAt: seq<U64>, ground: Ground, sim: U64, mean: Sample): Vec3 {
    if Active(Until(armedAt), sim) then physics.impulse(Last(armedAt))
    else if ground.contact then ground.rest
    else mean.accel
  }

  // ----- the run -----

  /** What leaves the loop once per iteration: the two clocks, the interval in sub-steps, which slow
      sensors are fresh and when their readings were taken, the reported force, and the airborne mean. */
  datatype Emission = Emission(
    simUs: U64, integratedUs: U64, steps: U32, magUpdated: bool, baroUpdated: bool, magTakenAt: U64, baroTakenAt: U64,
    accel: Vec3, mean: Sample)

  /** What one iteration is given: the wall time, and whether a reconfigure came before it. */
  datatype Turn = Turn(wall: U64, reconfigured: bool)

  function WallsOf(turns: seq<Turn>): (walls: seq<U64>)
    ensures |walls| == |turns| && forall i :: 0 <= i < |turns| ==> walls[i] == turns[i].wall
  {
    seq(|turns|, i requires 0 <= i < |turns| => turns[i].wall)
  }

  function ArmedBy(c: Clock, walls: seq<U64>, physics: Physics, n: nat): seq<U64>
    requires c.Consistent() && n <= |walls|
  {
    Armings(AllStamps(c, walls, n), HardContact(physics), |AllStamps(c, walls, n)|)
  }

  function GroundBy(c: Clock, walls: seq<U64>, physics: Physics, n: nat): Ground
    requires c.Consistent() && n <= |walls|
  {
    GroundAfter(physics, AllStamps(c, walls, n), |AllStamps(c, walls, n)|)
  }

  /** When the cached 50 Hz reading was taken, after the first `n` emissions; a reconfigure discards it. */
  function CachedAt(sims: seq<U64>, turns: seq<Turn>, n: nat): Option<U64>
    requires n <= |sims| == |turns|
    decreases n, 0
  {
    if n == 0 then None
    else if Fires(sims, n - 1) then Some(sims[n - 1])
    else CachedFor(sims, turns, n - 1)
  }

  /** What of it emission `i` finds. */
  function CachedFor(sims: seq<U64>, turns: seq<Turn>, i: nat): Option<U64>
    requires i < |sims| == |turns|
    decreases i, 1
  {
    if turns[i].reconfigured then None else CachedAt(sims, turns, i)
  }

  /** When the reading emission `i` carries was taken. */
  function TakenAt(sims: seq<U64>, turns: seq<Turn>, i: nat): U64
    requires i < |sims| == |turns|
  {
    if Fires(sims, i) || CachedFor(sims, turns, i).None? then sims[i] else CachedFor(sims, turns, i).value
  }

  function EmissionAt(c: Clock, turns: seq<Turn>, physics: Physics, i: nat): Emission
    requires c.Consistent() && i < |turns|
  {
    var walls := WallsOf(turns);
    var d, p, mean := StateAt(c, walls, i + 1), PlanAt(c, walls, i), MeanOf(physics.sample, Stamps(StateAt(c, walls, i), walls[i]));
    var fires, taken := Fires(EmissionStamps(c, walls), i), TakenAt(EmissionStamps(c, walls), turns, i);
    Emission(d.simUs, d.IntegratedUs(), p.steps, fires, fires, taken, taken,
             Reported(physics, ArmedBy(c, walls, physics, i + 1), GroundBy(c, walls, physics, i + 1), d.simUs, mean), mean)
  }

  function Emissions(c: Clock, turns: seq<Turn>, physics: Physics, n: nat): (e: seq<Emission>)
    requires c.Consistent() && n <= |turns|
    ensures |e| == n
  {
    if n == 0 then [] else Emissions(c, turns, physics, n - 1) + [EmissionAt(c, turns, physics, n - 1)]
  }

  lemma {:induction false} ArmingsOfAPrefix(a: seq<U64>, b: seq<U64>, contact: U64 -> bool, n: nat)
    requires n <= |a|
    ensures Armings(a + b, contact, n) == Armings(a, contact, n)
  {
    if n > 0 {
      ArmingsOfAPrefix(a, b, contact, n - 1);
    }
  }

  lemma {:induction false} GroundOfAPrefix(a: seq<U64>, b: seq<U64>, physics: Physics, n: nat)
    requires n <= |a|
    ensures GroundAfter(physics, a + b, n) == GroundAfter(physics, a, n)
  {
    if n > 0 {
      GroundOfAPrefix(a, b, physics, n - 1);
    }
  }

  /** The schedule and the cache across one emission. */
  lemma SlowSensorsStep(sims: seq<U64>, turns: seq<Turn>, n: nat)
    requires n < |sims| == |turns|
    ensures Fires(sims, n) <==> sims[n] >= NextDue(sims, n)
    ensures n == 0 ==> Fires(sims, n)
    ensures NextDue(sims, n + 1) == if Fires(sims, n) then NextSlot(sims[n], SENSOR_50HZ_PERIOD_US) else NextDue(sims, n)
    ensures CachedAt(sims, turns, n + 1) == if Fires(sims, n) then Some(sims[n]) else CachedFor(sims, turns, n)
  {
    hide NextSlot;
  }

  lemma CacheFound(sims: seq<U64>, turns: seq<Turn>, n: nat)
    requires n < |sims| == |turns|
    ensures CachedFor(sims, turns, n) == if turns[n].reconfigured then None else CachedAt(sims, turns, n)
  {
  }

  lemma EmissionStampIs(c: Clock, walls: seq<U64>, n: nat)
    requires c.Consistent() && n < |walls|
    ensures EmissionStamps(c, walls)[n] == StateAt(c, walls, n + 1).simUs
  {
    EmissionStampAt(c, walls, |walls|, n);
  }

  /** The time of the sub-steps still to come is a u64, and taking it back gives the stamp. */
  lemma StillToCome(simAfter: U64, steps: U32, left: U32, stepUs: U64)
    requires left < steps && Span(steps, stepUs) <= U64_MAX
    ensures 0 <= left * stepUs <= U64_MAX
    ensures SatSub(simAfter, left * stepUs) == SubstepEnd(simAfter, left, stepUs)
  {
    SpanIsProduct(left, stepUs);
    SpanGrows(left, steps, stepUs);
  }

  class Loop {
    const physics: Physics
    var nextMagUs: U64
    var nextBaroUs: U64
    /** When the cached readings were taken. */
    var lastMag: Option<U64>
    var lastBaro: Option<U64>
    var groundImpactUntilUs: Option<U64>
    var groundImpactAccel: Vec3
    var ground: Ground
    var totalTicks: nat
    /** Every sub-step stamp handed to the physics, every arming of the impulse, every emission. */
    var substeps: seq<U64>
    var armedAt: seq<U64>
    var emissions: seq<Emission>

    constructor (physics: Physics)
      ensures this.physics == physics && Fresh()
    {
      this.physics := physics;
      nextMagUs, nextBaroUs, lastMag, lastBaro, totalTicks := 0, 0, None, None, 0;
      groundImpactUntilUs, groundImpactAccel, ground := None, NOTHING, Ground(true, physics.restAtStart);
      substeps, armedAt, emissions := [], [], [];
    }

    predicate Fresh()
      reads this
    {
      && nextMagUs == nextBaroUs == totalTicks == 0 && lastMag == lastBaro == groundImpactUntilUs == None
      && ground == Ground(true, physics.restAtStart)
      && substeps == armedAt == [] && emissions == []
    }

    /** The armings and the ground mode are those of the sub-steps so far; deadline and impulse are the
        last arming's. */
    ghost predicate ContactUpToDate()
      reads this`substeps, this`armedAt, this`groundImpactUntilUs, this`groundImpactAccel, this`ground
    {
      && armedAt == Armings(substeps, HardContact(physics), |substeps|)
      && groundImpactUntilUs == Until(armedAt) && (armedAt != [] ==> groundImpactAccel == physics.impulse(Last(armedAt)))
      && ground == GroundAfter(physics, substeps, |substeps|)
    }

    /** One physics sub-step ending at `stamp`: arms the impulse on a hard contact unless it is live, and
        settles the ground mode. */
    method StepPhysics(stamp: U64) returns (sample: Sample)
      requires ContactUpToDate()
      modifies this`groundImpactUntilUs, this`groundImpactAccel, this`ground, this`armedAt, this`substeps
      ensures ContactUpToDate() && substeps == old(substeps) + [stamp]
      ensures sample == physics.sample(stamp)
    {
      ArmingsOfAPrefix(substeps, [stamp], HardContact(physics), |substeps|);
      GroundOfAPrefix(substeps, [stamp], physics, |substeps|);
      var touch := physics.touch(stamp);
      if touch.OnGround() {
        if touch.Hits? && !Active(groundImpactUntilUs, stamp) {
          groundImpactAccel := physics.impulse(stamp);
          groundImpactUntilUs := Some(SatAdd(stamp, IMPACT_DURATION_US));
          armedAt := armedAt + [stamp];
        }
        ground := Ground(true, physics.rest(stamp));
      } else if touch.Clear? {
        ground := ground.(contact := false);
      }
      substeps := substeps + [stamp];
      sample := physics.sample(stamp);
    }

    /** The force the ground puts in place of the airborne mean, if any. */
    function GroundOverride(sim: U64): Option<Vec3>
      reads this`groundImpactUntilUs, this`groundImpactAccel, this`ground
    {
      if Active(groundImpactUntilUs, sim) then Some(groundImpactAccel)
      else if ground.contact then Some(ground.rest)
      else None
    }

    lemma ContactIsTheSubsteps()
      requires ContactUpToDate()
      ensures armedAt == Armings(substeps, HardContact(physics), |substeps|)
      ensures ground == GroundAfter(physics, substeps, |substeps|)
    {
      hide Armings, GroundAfter;
    }

    lemma OverrideIsReported(sim: U64, mean: Sample)
      requires ContactUpToDate()
      ensures (if GroundOverride(sim).Some? then GroundOverride(sim).value else mean.accel)
              == Reported(physics, armedAt, ground, sim, mean)
    {
      hide Armings, GroundAfter;
    }

    /** One emission: decides the override and the flags, takes or recalls the slow readings, then
        advances both 50 Hz schedules. */
    method SampleAndSend(sim: U64, integrated: U64, steps: U32, mean: Sample)
      modifies this`nextMagUs, this`nextBaroUs, this`lastMag, this`lastBaro, this`emissions, this`totalTicks
      ensures emissions == old(emissions) +
        [Emission(sim, integrated, steps,
                  sim >= old(nextMagUs) || old(totalTicks) == 0, sim >= old(nextBaroUs) || old(totalTicks) == 0,
                  if sim >= old(nextMagUs) || old(lastMag).None? then sim else old(lastMag).value,
                  if sim >= old(nextBaroUs) || old(lastBaro).None? then sim else old(lastBaro).value,
                  if GroundOverride(sim).Some? then GroundOverride(sim).value else mean.accel, mean)]
      ensures nextMagUs == if sim >= old(nextMagUs) then NextSlot(sim, SENSOR_50HZ_PERIOD_US) else old(nextMagUs)
      ensures nextBaroUs == if sim >= old(nextBaroUs) then NextSlot(sim, SENSOR_50HZ_PERIOD_US) else old(nextBaroUs)
      ensures lastMag == if sim >= old(nextMagUs) then Some(sim) else old(lastMag)
      ensures lastBaro == if sim >= old(nextBaroUs) then Some(sim) else old(lastBaro)
      ensures totalTicks == old(totalTicks) + 1
    {
      var substitute := GroundOverride(sim);
      var accel := if substitute.Some? then substitute.value else mean.accel;
      var updateMag := sim >= nextMagUs;
      var updateBaro := sim >= nextBaroUs;
      var mag := if updateMag || lastMag.None? then sim else lastMag.value;
      var baro := if updateBaro || lastBaro.None? then sim else lastBaro.value;
      if updateMag {
        lastMag, nextMagUs := Some(mag), NextSlot(sim, SENSOR_50HZ_PERIOD_US);
      }
      if updateBaro {
        lastBaro, nextBaroUs := Some(baro), NextSlot(sim, SENSOR_50HZ_PERIOD_US);
      }
      var firstTick := totalTicks == 0;
      emissions := emissions + [Emission(sim, integrated, steps, updateMag || firstTick, updateBaro || firstTick,
                                         mag, baro, accel, mean)];
      totalTicks := totalTicks + 1;
    }

    /** The sub-steps of one iteration: each stamped back from the clock the plan reached, and folded
        into a mean whose first sample is taken as it is. */
    method RunSubsteps(simAfter: U64, steps: U32, stepUs: U64) returns (mean: Sample)
      requires steps >= 1 && Span(steps, stepUs) <= U64_MAX && ContactUpToDate()
      modifies this`groundImpactUntilUs, this`groundImpactAccel, this`ground, this`armedAt, this`substeps
      ensures ContactUpToDate() && substeps == old(substeps) + StampList(simAfter, steps, stepUs)
      ensures mean == MeanOf(physics.sample, StampList(simAfter, steps, stepUs))
    {
      hide SubstepEnd, ContactUpToDate, Sample.Plus, Sample.Over;
      ghost var before, stamps := substeps, StampList(simAfter, steps, stepUs);
      var sum, count := NO_SAMPLE, 0;
      var step := 1;
      while step <= steps
        invariant 1 <= step <= steps + 1 && count == step - 1
        invariant ContactUpToDate() && substeps == before + stamps[..step - 1]
        invariant sum == SumOf(physics.sample, stamps, step - 1)
      {
        StillToCome(simAfter, steps, steps - step, stepUs);
        var stamp := SatSub(simAfter, (steps - step) * stepUs);
        assert stamp == stamps[step - 1];
        var sample := StepPhysics(stamp);
        assert stamps[..step] == stamps[..step - 1] + [stamp];
        ZeroIsNeutral(sample);
        sum := if count == 0 then sample else sum.Plus(sample);
        count := count + 1;
        step := step + 1;
      }
      assert stamps[..steps] == stamps;
      MeanTimesCount(sum, 1.0);
      mean := if count <= 1 then sum else sum.Over(count as real);
    }

    /** The whole session: one iteration for each turn. */
    method Run(hz: U32, turns: seq<Turn>)
      requires ValidateTickRate(hz).Accepted? && Fresh()
      modifies this
      ensures substeps == AllStamps(LoopClock(hz), WallsOf(turns), |turns|)
      ensures armedAt == ArmedBy(LoopClock(hz), WallsOf(turns), physics, |turns|)
      ensures ground == GroundBy(LoopClock(hz), WallsOf(turns), physics, |turns|)
      ensures emissions == Emissions(LoopClock(hz), turns, physics, |turns|)
    {
      AcceptedRateIsExact(hz);
      ghost var c := LoopClock(hz);
      var stepUs := StepUs(hz);
      var tb := new Planner(stepUs, GAP_THRESHOLD_US, BudgetStepsAt(stepUs, GAP_THRESHOLD_US));
      var n := 0;
      while n < |turns|
        invariant 0 <= n <= |turns| && fresh(tb) && InStep(tb, c, turns, n)
      {
        Iterate(tb, c, turns, n, stepUs);
        n := n + 1;
      }
    }

    /** The loop and its planner stand where `n` iterations of the run put them. */
    ghost predicate InStep(tb: Planner, c: Clock, turns: seq<Turn>, n: nat)
      requires c.Consistent() && n <= |turns|
      reads this, tb
    {
      var walls := WallsOf(turns);
      && totalTicks == n
      && tb.Valid() && tb.View() == StateAt(c, walls, n)
      && substeps == AllStamps(c, walls, n)
      && ContactUpToDate()
      && nextMagUs == nextBaroUs == NextDue(EmissionStamps(c, walls), n)
      && lastMag == lastBaro == CachedAt(EmissionStamps(c, walls), turns, n)
      && emissions == Emissions(c, turns, physics, n)
    }

    /** One iteration: drop the caches after a reconfigure, plan from the wall, run the sub-steps, emit
        once. */
    method Iterate(tb: Planner, ghost c: Clock, turns: seq<Turn>, n: nat, stepUs: U64)
      requires c.Consistent() && n < |turns| && stepUs == c.stepUs && InStep(tb, c, turns, n)
      modifies this`nextMagUs, this`nextBaroUs, this`lastMag, this`lastBaro, this`groundImpactUntilUs,
               this`groundImpactAccel, this`ground, this`totalTicks, this`substeps, this`armedAt, this`emissions, tb
      ensures InStep(tb, c, turns, n + 1)
    {
      hide Step, Decide, StampList, Clock.AccountedUs, ContactUpToDate, Armings, GroundAfter, NextSlot, MeanOf, SumOf,
           Reported, Active, GroundOverride, Fires, NextDue, CachedAt, CachedFor, EmissionStamps;
      ghost var d, walls := tb.View(), WallsOf(turns);
      SlowSensorsStep(EmissionStamps(c, walls), turns, n);
      if turns[n].reconfigured {
        lastMag, lastBaro := None, None;
      }
      CacheFound(EmissionStamps(c, walls), turns, n);
      var plan := tb.Plan(turns[n].wall);
      assert tb.View() == StateAt(c, walls, n + 1);
      assert StampList(tb.simUs, plan.steps, stepUs) == Stamps(d, walls[n]);
      AbsorbedBound(d, walls[n]);
      var mean := RunSubsteps(tb.simUs, plan.steps, stepUs);
      EmissionStampIs(c, walls, n);
      ContactIsTheSubsteps();
      OverrideIsReported(tb.simUs, mean);
      assert substeps == AllStamps(c, walls, n + 1) && armedAt == ArmedBy(c, walls, physics, n + 1);
      assert ground == GroundBy(c, walls, physics, n + 1);
      SampleAndSend(tb.simUs, tb.View().IntegratedUs(), plan.steps, mean);
      assert emissions == Emissions(c, turns, physics, n) + [EmissionAt(c, turns, physics, n)];
    }
  }

  // ----- what the emissions mean -----

  /** The two emission clocks are apart by exactly the time the session has discarded, saturated or
      not, and the last sub-step of the iteration carries the emission's own stamp. */
  lemma SensorMinusGpsIsTheDiscard(c: Clock, turns: seq<Turn>, physics: Physics, i: nat)
    requires c.Consistent() && i < |turns|
    ensures var e, walls := EmissionAt(c, turns, physics, i), WallsOf(turns);
            && e.simUs - e.integratedUs == StateAt(c, walls, i + 1).discardedUs
            && var s := Stamps(StateAt(c, walls, i), walls[i]); |s| == e.steps && s[|s| - 1] == e.simUs
  {
    hide Step, Decide, Clock.AccountedUs, Reported, MeanOf, Fires, TakenAt, ArmedBy, GroundBy;
    var walls := WallsOf(turns);
    var d, s := StateAt(c, walls, i), Stamps(StateAt(c, walls, i), walls[i]);
    assert StateAt(c, walls, i + 1) == Step(d, walls[i]) && Step(d, walls[i]).discardedUs <= Step(d, walls[i]).simUs;
    assert s[|s| - 1] == SubstepEnd(Step(d, walls[i]).simUs, 0, c.stepUs);
  }

  /** Ground contact is the last word of the sub-steps: in force from the last one on the ground, or
      from the start, unless one since was clear of it, and with that sub-step's resting force. */
  lemma {:induction false} GroundContactIsTheLastWord(physics: Physics, stamps: seq<U64>, n: nat, k: nat)
    requires k < n <= |stamps| && physics.touch(stamps[k]).OnGround()
    requires forall j :: k < j < n ==> !physics.touch(stamps[j]).OnGround()
    ensures GroundAfter(physics, stamps, n).rest == physics.rest(stamps[k])
    ensures GroundAfter(physics, stamps, n).contact <==> forall j :: k < j < n ==> !physics.touch(stamps[j]).Clear?
  {
    if k < n - 1 {
      GroundContactIsTheLastWord(physics, stamps, n - 1, k);
    }
  }

  lemma {:induction false} GroundContactBeforeTouching(physics: Physics, stamps: seq<U64>, n: nat)
    requires n <= |stamps| && forall j :: 0 <= j < n ==> !physics.touch(stamps[j]).OnGround()
    ensures GroundAfter(physics, stamps, n).rest == physics.restAtStart
    ensures GroundAfter(physics, stamps, n).contact <==> forall j :: 0 <= j < n ==> !physics.touch(stamps[j]).Clear?
  {
    if n > 0 {
      GroundContactBeforeTouching(physics, stamps, n - 1);
    }
  }

  /** What an emission reports as specific force is decided by its stamp: inside an armed window the
      impulse of the contact that armed it, and outside all of them, which never overlap, the ground's
      force in contact and the airborne mean otherwise. Nothing is blended. */
  lemma ReportedForceIsTheWindows(c: Clock, turns: seq<Turn>, physics: Physics, i: nat)
    requires c.Consistent() && c.simUs == c.stepsDone == 0 && i < |turns|
    requires StateAt(c, WallsOf(turns), i + 1).simUs < U64_MAX
    ensures var walls, e := WallsOf(turns), EmissionAt(c, turns, physics, i);
            var armedAt, ground := ArmedBy(c, walls, physics, i + 1), GroundBy(c, walls, physics, i + 1);
            && DisjointWindows(armedAt)
            && (forall a <- armedAt :: a <= e.simUs < a + IMPACT_DURATION_US ==> e.accel == physics.impulse(a))
            && (!InAWindow(armedAt, e.simUs) ==> e.accel == if ground.contact then ground.rest else e.mean.accel)
  {
    hide Step, Decide, MeanOf, Fires, TakenAt, GroundAfter, Stamps, StateAt;
    var walls := WallsOf(turns);
    var s, sim := AllStamps(c, walls, i + 1), StateAt(c, walls, i + 1).simUs;
    var arms := ArmedBy(c, walls, physics, i + 1);
    StampsAreSessionGlobal(c, walls, i + 1);
    forall k | 0 <= k < |s| ensures s[k] <= sim {
      assert s[k] <= s[|s| - 1];
    }
    ActiveExactlyInsideAWindow(s, HardContact(physics), |s|, sim);
    ImpulseWindowsAreDisjoint(s, HardContact(physics), |s|);
    OnlyTheLastWindowIsLive(s, arms, sim);
  }

  lemma OnlyTheLastWindowIsLive(stamps: seq<U64>, armedAt: seq<U64>, sim: U64)
    requires DisjointWindows(armedAt)
    requires forall a <- armedAt :: a <= sim
    ensures forall a <- armedAt :: a <= sim < a + IMPACT_DURATION_US ==> a == Last(armedAt)
  {
    forall a | a in armedAt && a <= sim < a + IMPACT_DURATION_US ensures a == Last(armedAt) {
      var k :| 0 <= k < |armedAt| && armedAt[k] == a;
      assert Last(armedAt) in armedAt;
    }
  }

  /** Every magnetometer and barometer reading an emission carries was taken in the emission's own 20 ms
      slot, so it is never 20 ms old, and it is the last update's unless a reconfigure came since. */
  lemma {:induction false} ReadingsAreOfTheSlot(sims: seq<U64>, turns: seq<Turn>, i: nat)
    requires Nondecreasing(sims) && BelowSaturation(sims) && i < |sims| == |turns|
    ensures TakenAt(sims, turns, i) <= sims[i] && Slot(TakenAt(sims, turns, i)) == Slot(sims[i])
    ensures sims[i] - TakenAt(sims, turns, i) < SENSOR_50HZ_PERIOD_US
    ensures CachedAt(sims, turns, i + 1).Some? ==> CachedAt(sims, turns, i + 1).value == TakenAt(sims, turns, i)
  {
    if !Fires(sims, i) && CachedFor(sims, turns, i).Some? {
      ReadingsAreOfTheSlot(sims, turns, i - 1);
      FiresOnTheFirstEmissionOfEachSlot(sims, i);
      assert sims[i - 1] <= sims[i];
    }
  }

  /** Without a reconfigure since, it is the reading of the last update. */
  lemma {:induction false} ReadingIsTheLastUpdates(sims: seq<U64>, turns: seq<Turn>, k: nat, i: nat)
    requires k <= i < |sims| == |turns| && Fires(sims, k)
    requires forall j :: k < j <= i ==> !Fires(sims, j) && !turns[j].reconfigured
    ensures TakenAt(sims, turns, i) == sims[k] && CachedAt(sims, turns, i + 1) == Some(sims[k])
  {
    if k < i {
      ReadingIsTheLastUpdates(sims, turns, k, i - 1);
    }
  }

  /** A reconfigure discards the reading: until the next update each emission takes a new one, which it
      does not flag. */
  lemma {:induction false} ReconfigureDropsTheReading(sims: seq<U64>, turns: seq<Turn>, j: nat, i: nat)
    requires j <= i < |sims| == |turns| && turns[j].reconfigured
    requires forall k :: j <= k <= i ==> !Fires(sims, k)
    ensures TakenAt(sims, turns, i) == sims[i] && CachedAt(sims, turns, i + 1) == None
  {
    if j < i {
      ReconfigureDropsTheReading(sims, turns, j, i - 1);
    }
  }

  /** What an emission flags and carries of the slow sensors: fresh on the first emission and on the first
      of each 20 ms slot, and then taken at its stamp; otherwise a reading of its slot. */
  lemma EmissionFlagsTheSlots(c: Clock, turns: seq<Turn>, physics: Physics, i: nat)
    requires c.Consistent() && i < |turns| && BelowSaturation(EmissionStamps(c, WallsOf(turns)))
    ensures var e, sims := EmissionAt(c, turns, physics, i), EmissionStamps(c, WallsOf(turns));
            && e.simUs == sims[i] && e.steps == PlanAt(c, WallsOf(turns), i).steps
            && e.magUpdated == e.baroUpdated == (i == 0 || sims[i - 1] / 20_000 < sims[i] / 20_000)
            && (e.magUpdated ==> e.magTakenAt == e.simUs)
            && e.magTakenAt == e.baroTakenAt <= e.simUs && e.magTakenAt / 20_000 == e.simUs / 20_000
  {
    hide Step, Decide, Reported, MeanOf, ArmedBy, GroundBy, Fires, NextDue, EmissionStampsTo, EmissionStamps;
    var walls := WallsOf(turns);
    var sims := EmissionStamps(c, walls);
    EmissionStampsNeverRewind(c, walls);
    EmissionStampIs(c, walls, i);
    FiresOnTheFirstEmissionOfEachSlot(sims, i);
    ReadingsAreOfTheSlot(sims, turns, i);
  }

  // ----- the mean, axis by axis -----

  datatype Axis = AccelX | AccelY | AccelZ | GyroX | GyroY | GyroZ {
    function Of(s: Sample): real {
      match this
      case AccelX => s.accel.x
      case AccelY => s.accel.y
      case AccelZ => s.accel.z
      case GyroX => s.gyro.x
      case GyroY => s.gyro.y
      case GyroZ => s.gyro.z
    }
  }

  function AxisSum(axis: Axis, f: U64 -> Sample, stamps: seq<U64>): real {
    if stamps == [] then 0.0 else AxisSum(axis, f, stamps[..|stamps| - 1]) + axis.Of(f(stamps[|stamps| - 1]))
  }

  lemma {:induction false} SumOnAnAxis(axis: Axis, f: U64 -> Sample, stamps: seq<U64>, n: nat)
    requires n <= |stamps|
    ensures axis.Of(SumOf(f, stamps, n)) == AxisSum(axis, f, stamps[..n])
  {
    if n > 0 {
      SumOnAnAxis(axis, f, stamps, n - 1);
      assert stamps[..n][..n - 1] == stamps[..n - 1];
    }
  }

  /** On each axis the mean is the real sum over the sub-steps, divided by their number. */
  lemma MeanIsTheAverageOnEachAxis(axis: Axis, f: U64 -> Sample, stamps: seq<U64>)
    requires stamps != []
    ensures axis.Of(MeanOf(f, stamps)) == AxisSum(axis, f, stamps) / |stamps| as real
  {
    hide SumOf, AxisSum;
    SumOnAnAxis(axis, f, stamps, |stamps|);
    assert stamps[..|stamps|] == stamps;
  }

  /** Samples that are all the same have that sample as their mean. */
  lemma MeanOfEqualSamples(axis: Axis, f: U64 -> Sample, stamps: seq<U64>, v: real)
    requires stamps != [] && forall t <- stamps :: axis.Of(f(t)) == v
    ensures axis.Of(MeanOf(f, stamps)) == v
  {
    hide MeanOf, AxisSum;
    MeanIsTheAverageOnEachAxis(axis, f, stamps);
    SameOnAnAxis(axis, f, stamps, v);
    DivisionOfAProduct(v, |stamps| as real);
  }

  lemma {:induction false} SameOnAnAxis(axis: Axis, f: U64 -> Sample, stamps: seq<U64>, v: real)
    requires forall t <- stamps :: axis.Of(f(t)) == v
    ensures AxisSum(axis, f, stamps) == v * |stamps| as real
  {
    if stamps != [] {
      SameOnAnAxis(axis, f, stamps[..|stamps| - 1], v);
      assert stamps[|stamps| - 1] in stamps;
    }
  }

  lemma DivisionOfAProduct(v: real, k: real)
    requires k > 0.0
    ensures (v * k) / k == v
  {
  }

  /** What an emission hands over: its mean times its interval, in units of one sub-step. */
  function Delivered(e: Emission): Sample { e.mean.Times(e.steps as real) }

  function DeliveredMotion(e: seq<Emission>): Sample {
    if e == [] then NO_SAMPLE else DeliveredMotion(e[..|e| - 1]).Plus(Delivered(e[|e| - 1]))
  }

  lemma {:induction false} SumOfJoined(f: U64 -> Sample, a: seq<U64>, b: seq<U64>, n: nat)
    requires n <= |b|
    ensures SumOf(f, a + b, |a| + n) == SumOf(f, a, |a|).Plus(SumOf(f, b, n))
  {
    hide Sample.Plus;
    if n > 0 {
      SumOfJoined(f, a, b, n - 1);
      PlusAssociates(SumOf(f, a, |a|), SumOf(f, b, n - 1), f(b[n - 1]));
    } else {
      SumOfPrefix(f, a, b, |a|);
      ZeroIsNeutral(SumOf(f, a, |a|));
    }
  }

  lemma {:induction false} SumOfPrefix(f: U64 -> Sample, a: seq<U64>, b: seq<U64>, n: nat)
    requires n <= |a|
    ensures SumOf(f, a + b, n) == SumOf(f, a, n)
  {
    hide Sample.Plus;
    if n > 0 {
      SumOfPrefix(f, a, b, n - 1);
    }
  }

  lemma EmissionDelivers(c: Clock, turns: seq<Turn>, physics: Physics, i: nat)
    requires c.Consistent() && i < |turns|
    ensures var s := Stamps(StateAt(c, WallsOf(turns), i), WallsOf(turns)[i]);
            Delivered(EmissionAt(c, turns, physics, i)) == SumOf(physics.sample, s, |s|)
  {
    hide Decide, Step, StampList, SumOf, Reported, Fires, TakenAt, ArmedBy, GroundBy, Clock.AccountedUs, Sample.Over, Sample.Times;
    var s := Stamps(StateAt(c, WallsOf(turns), i), WallsOf(turns)[i]);
    MeanTimesCount(SumOf(physics.sample, s, |s|), |s| as real);
  }

  /** Catching up changes how the motion is delivered, never how much: over any run the emitted mean
      forces and rates times their intervals add up to those of every sub-step simulated. */
  lemma {:induction false} MotionIsConserved(c: Clock, turns: seq<Turn>, physics: Physics, n: nat)
    requires c.Consistent() && n <= |turns|
    ensures var stamps := AllStamps(c, WallsOf(turns), n);
            DeliveredMotion(Emissions(c, turns, physics, n)) == SumOf(physics.sample, stamps, |stamps|)
  {
    hide Stamps, Step, StateAt, EmissionAt, Delivered, DeliveredMotion, SumOf, Sample.Plus;
    var walls := WallsOf(turns);
    if n > 0 {
      MotionIsConserved(c, turns, physics, n - 1);
      EmissionDelivers(c, turns, physics, n - 1);
      var stamps := Stamps(StateAt(c, walls, n - 1), walls[n - 1]);
      DeliveredOneMore(Emissions(c, turns, physics, n - 1), EmissionAt(c, turns, physics, n - 1));
      SumOfJoined(physics.sample, AllStamps(c, walls, n - 1), stamps, |stamps|);
    } else {
      NothingDelivered(physics.sample);
    }
  }

  lemma DeliveredOneMore(e: seq<Emission>, next: Emission)
    ensures DeliveredMotion(e + [next]) == DeliveredMotion(e).Plus(Delivered(next))
  {
    assert (e + [next])[..|e|] == e;
  }

  lemma NothingDelivered(f: U64 -> Sample)
    ensures DeliveredMotion([]) == SumOf(f, [], 0)
  {
  }
}
