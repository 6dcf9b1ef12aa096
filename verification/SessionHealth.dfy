/** Health windows, the session latches they feed, and the published snapshot the arming gate and the
    browser read. Ratios are exact rationals; a window that measures nothing has no ratio. Times of
    the announcers are milliseconds of a monotonic clock, and `t0` is when they start. */
module SessionHealth {
  import opened Uint
  import opened Wrappers
  import opened Health
  import opened WakeHistogram
  import opened Announcers
  import opened Timebase
  import opened TimebaseRuns

  /** Any discarded time is a fault whatever the rate; no measurement is not one. */
  function TimebaseHealth(realised: Option<real>, discardedUs: U64): Health {
    if discardedUs > 0 then Faulted
    else match realised
      case None => Ok
      case Some(r) => if r >= 0.99 then Ok else if r >= 0.90 then Degraded else Faulted
  }

  /** Achieved iteration rate over the target rate. */
  function Realised(iterations: nat, wallUs: U64, targetHz: U32): Option<real> {
    if wallUs == 0 || targetHz == 0 then None
    else Some(iterations as real / (wallUs as real / 1_000_000.0) / targetHz as real)
  }

  /** What one window accumulates, and the session totals it started from. */
  datatype Window = Window(
    iterations: nat, steps: nat, wakeLateTotalUs: nat, wakeLateSamples: nat, wakeLateMaxUs: nat, overrunUs: nat,
    dropsAtStart: nat, discardedAtStart: U64, gapsAtStart: U32)

  const EMPTY_WINDOW := Window(0, 0, 0, 0, 0, 0, 0, 0, 0)

  /** `restart`: a new window from the session totals it starts at. */
  function Restart(drops: nat, c: Clock): Window {
    EMPTY_WINDOW.(dropsAtStart := drops, discardedAtStart := c.discardedUs, gapsAtStart := c.gapCount)
  }

  datatype Session = Session(overrunUs: nat, wakeLateMaxUs: nat, minRealised: Option<real>, worst: Health)

  /** The part of the snapshot that measures the host: it outlives a reconfigure. */
  datatype Pacing = Pacing(
    tickRateHz: real, stepsPerSec: real, driftUs: int, discardedMs: U32, gapCount: U32, maxGapMs: U32, catchupSteps: U64,
    sessionInvalid: bool, wakeLateAvgUs: U32, wakeLateMaxUs: U32, wakeLateP99Us: U32, overrunUs: U32, stepUs: U32,
    health: Health, worst: Health, minRealised: real)

  const NO_PACING := Pacing(0.0, 0.0, 0, 0, 0, 0, 0, false, 0, 0, 0, 0, 0, Ok, Ok, 0.0)

  /** The published snapshot: message counts of the build in force beside the host's pacing. */
  datatype Stats = Stats(messages: nat, sensorDrops: nat, pacing: Pacing)

  const NO_STATS := Stats(0, 0, NO_PACING)

  /** The loop's diagnostics as a value: `wakeLate` is every wake lateness of the session, `policy` the
      browser annunciator's, which lives in a task of its own. */
  datatype Ledger = Ledger(
    clock: Clock, window: Window, session: Session, wakeLate: seq<nat>, stats: Stats, reporter: Reporter, policy: Policy)

  /** `Publish` is a snapshot sent that the annunciator wakes for, which it does at `at`. */
  datatype Event =
    | Iteration(wall: U64, late: Option<nat>, overrun: nat, messages: nat, drops: nat)
    | CloseWindow(windowUs: U64, sessionUs: U64, at: nat)
    | Publish(at: nat)
    | Reconfigure

  function Start(c: Clock, t0: nat): Ledger {
    Ledger(c, EMPTY_WINDOW, Session(0, 0, None, Ok), [], NO_STATS, NewReporter(t0), NewPolicy(t0))
  }

  function Record(w: Window, steps: nat, wakeLate: Option<nat>, overrun: nat): Window {
    var slept := w.(iterations := w.iterations + 1, steps := w.steps + steps, overrunUs := w.overrunUs + overrun);
    match wakeLate
    case None => slept
    case Some(late) =>
      slept.(wakeLateTotalUs := w.wakeLateTotalUs + late, wakeLateSamples := w.wakeLateSamples + 1,
             wakeLateMaxUs := Max(w.wakeLateMaxUs, late))
  }

  function RecordSession(s: Session, wakeLate: Option<nat>, overrun: nat): Session {
    s.(overrunUs := s.overrunUs + overrun,
       wakeLateMaxUs := if wakeLate.Some? then Max(s.wakeLateMaxUs, wakeLate.value) else s.wakeLateMaxUs)
  }

  function SmallerRatio(a: Option<real>, b: Option<real>): Option<real> {
    match (a, b)
    case (None, _) => b
    case (_, None) => a
    case (Some(x), Some(y)) => Some(if x <= y then x else y)
  }

  /** Time this window lost: the session total less what earlier windows already answered for. */
  function WindowDiscard(l: Ledger): U64 { SatSub(l.clock.discardedUs, l.window.discardedAtStart) }

  function Verdict(l: Ledger, windowUs: U64, targetHz: U32): Health {
    TimebaseHealth(Realised(l.window.iterations, windowUs, targetHz), WindowDiscard(l))
  }

  function PerSecond(count: nat, us: U64): real {
    if us == 0 then 0.0 else count as real / (us as real / 1_000_000.0)
  }

  function RollUpSession(l: Ledger, windowUs: U64, targetHz: U32): Session {
    l.session.(minRealised := SmallerRatio(l.session.minRealised, Realised(l.window.iterations, windowUs, targetHz)),
               worst := Worse(l.session.worst, Verdict(l, windowUs, targetHz)))
  }

  /** The 99th percentile of every wake lateness of the session. */
  function WakeLateP99(samples: seq<nat>): nat { Quantile(samples, Target(|samples|, 0.99)) }

  function PublishedPacing(l: Ledger, windowUs: U64, sessionUs: U64, targetHz: U32): Pacing {
    var s, w, c := RollUpSession(l, windowUs, targetHz), l.window, l.clock;
    Pacing(
      tickRateHz := PerSecond(w.iterations, windowUs),
      stepsPerSec := PerSecond(w.steps, windowUs),
      driftUs := Max(-0x8000_0000, Min(c.DriftUs(sessionUs), 0x7FFF_FFFF)),
      discardedMs := SaturateU32(c.discardedUs / 1000),
      gapCount := c.gapCount,
      maxGapMs := SaturateU32(c.maxGapUs / 1000),
      catchupSteps := c.catchupSteps,
      sessionInvalid := c.sessionInvalid,
      wakeLateAvgUs := if w.wakeLateSamples == 0 then 0 else Min(w.wakeLateTotalUs / w.wakeLateSamples, U32_MAX),
      wakeLateMaxUs := Min(s.wakeLateMaxUs, U32_MAX),
      wakeLateP99Us := Min(WakeLateP99(l.wakeLate), U32_MAX),
      overrunUs := Min(w.overrunUs, U32_MAX),
      stepUs := SaturateU32(c.stepUs),
      health := Verdict(l, windowUs, targetHz),
      worst := s.worst,
      minRealised := if s.minRealised.Some? then s.minRealised.value else 0.0)
  }

  /** `roll_up_timebase_window`: folds the window into the session and the snapshot. */
  function RollUp(l: Ledger, windowUs: U64, sessionUs: U64, targetHz: U32): Ledger {
    l.(session := RollUpSession(l, windowUs, targetHz),
       stats := l.stats.(pacing := PublishedPacing(l, windowUs, sessionUs, targetHz)))
  }

  /** Sensor messages the open window saw dropped, as the reporter is told. */
  function WindowDrops(l: Ledger): nat { Max(l.stats.sensorDrops - l.window.dropsAtStart, 0) }

  /** `stats_after_reconfigure`: the counts restart, the pacing survives. */
  function StatsAfterReconfigure(previous: Stats): Stats { NO_STATS.(pacing := previous.pacing) }

  function LedgerStep(l: Ledger, e: Event, targetHz: U32): Ledger
    requires l.clock.Consistent()
  {
    match e
    case Iteration(wall, late, overrun, messages, drops) =>
      l.(clock := Step(l.clock, wall),
         window := Record(l.window, Decide(l.clock, wall).steps, late, overrun),
         session := RecordSession(l.session, late, overrun),
         wakeLate := if late.Some? then l.wakeLate + [late.value] else l.wakeLate,
         stats := l.stats.(messages := l.stats.messages + messages, sensorDrops := l.stats.sensorDrops + drops))
    case CloseWindow(windowUs, sessionUs, at) =>
      RollUp(l, windowUs, sessionUs, targetHz)
      .(window := Restart(l.stats.sensorDrops, l.clock),
        reporter := ReporterStep(l.reporter, Observation(Verdict(l, windowUs, targetHz), at)))
    case Publish(at) => l.(policy := PolicyStep(l.policy, Observation(l.stats.pacing.health, at)))
    case Reconfigure => l.(stats := StatsAfterReconfigure(l.stats))
  }

  /** The same three inputs as the arming gate. */
  predicate Compromised(s: Stats) {
    s.pacing.sessionInvalid || s.pacing.discardedMs > 0 || s.pacing.worst == Faulted
  }

  // ----- the loop's own bookkeeping -----

  class Diagnostics {
    const tb: Planner
    const targetHz: U32
    const wakeLate: WakeLateHistogram
    const reporter: TimebaseReporter
    const annunciator: AnnunciatorPolicy
    var window: Window
    var session: Session
    var stats: Stats

    ghost function View(): Ledger
      reads this, tb, wakeLate, reporter, annunciator
    {
      Ledger(tb.View(), window, session, wakeLate.samples, stats, reporter.View(), annunciator.View())
    }

    ghost predicate Valid()
      reads this, tb, wakeLate, wakeLate.buckets, reporter, annunciator
    {
      tb.Valid() && wakeLate.Valid() && Sound(View())
    }

    constructor (tb: Planner, t0: nat, targetHz: U32)
      requires tb.Valid() && tb.discardedUs == 0
      ensures this.tb == tb && this.targetHz == targetHz
      ensures fresh(wakeLate) && fresh(wakeLate.buckets) && fresh(reporter) && fresh(annunciator)
      ensures Valid() && View() == Start(tb.View(), t0)
    {
      this.tb, this.targetHz := tb, targetHz;
      window, session, stats := EMPTY_WINDOW, Session(0, 0, None, Ok), NO_STATS;
      wakeLate := new WakeLateHistogram();
      reporter := new TimebaseReporter(t0);
      annunciator := new AnnunciatorPolicy(t0);
    }

    /** One iteration: plan, then record its steps, its wake lateness if it slept, and its overrun. */
    method Iterate(wall: U64, late: Option<nat>, overrun: nat, messages: nat, drops: nat)
      requires Valid()
      modifies this, tb, wakeLate, wakeLate.buckets
      ensures Valid() && View() == LedgerStep(old(View()), Iteration(wall, late, overrun, messages, drops), targetHz)
    {
      hide Sound, WakeLateHistogram.Valid;
      SoundStep(View(), Iteration(wall, late, overrun, messages, drops), targetHz);
      SoundIsConsistent(View());
      var plan := tb.Plan(wall);
      stats := stats.(messages := stats.messages + messages, sensorDrops := stats.sensorDrops + drops);
      window := window.(iterations := window.iterations + 1, steps := window.steps + plan.steps);
      if late.Some? {
        window := window.(wakeLateTotalUs := window.wakeLateTotalUs + late.value,
                          wakeLateSamples := window.wakeLateSamples + 1,
                          wakeLateMaxUs := Max(window.wakeLateMaxUs, late.value));
      }
      window := window.(overrunUs := window.overrunUs + overrun);
      session := session.(overrunUs := session.overrunUs + overrun);
      if late.Some? {
        session := session.(wakeLateMaxUs := Max(session.wakeLateMaxUs, late.value));
        wakeLate.Record(late.value);
      }
    }

    /** Grades the window and folds it into the session latches, the snapshot and, while the loop runs,
        the reporter; the window a shutdown interrupts is not reported. A snapshot taken here never
        hides lost time, and never takes back a refusal to arm. */
    method RollUpWindow(windowUs: U64, sessionUs: U64, reportAt: Option<nat>) returns (said: Announcement, drops: nat)
      requires Valid()
      modifies this`session, this`stats, reporter
      ensures View() == RollUp(old(View()), windowUs, sessionUs, targetHz).(reporter := reporter.View())
      ensures var seen := old(View()).reporter;
              match reportAt
              case None => reporter.View() == seen && said == Silent
              case Some(at) =>
                var o := Observation(stats.pacing.health, at);
                reporter.View() == ReporterStep(seen, o) && said == ReporterSays(seen, o)
      ensures drops == WindowDrops(old(View()))
      ensures tb.discardedUs > 0 ==> stats.pacing.worst == Faulted
      ensures old(Compromised(stats)) ==> Compromised(stats)
    {
      hide Sound, Quantile, WakeLateHistogram.Valid, ReporterStep, ReporterSays;
      ghost var before := View();
      CloseAnswersForEveryLoss(before, windowUs, sessionUs, targetHz);
      RollUpKeepsRefusal(before, windowUs, sessionUs, targetHz);
      var realised := Realised(window.iterations, windowUs, targetHz);
      var verdict := TimebaseHealth(realised, SatSub(tb.discardedUs, window.discardedAtStart));
      session := session.(minRealised := SmallerRatio(session.minRealised, realised));
      if Rank(verdict) > Rank(session.worst) {
        session := session.(worst := verdict);
      }
      assert session == RollUpSession(before, windowUs, targetHz);
      var p99 := wakeLate.QuantileUs(0.99);
      drops := Max(stats.sensorDrops - window.dropsAtStart, 0);
      stats := stats.(pacing := Pacing(
        PerSecond(window.iterations, windowUs), PerSecond(window.steps, windowUs),
        Max(-0x8000_0000, Min(tb.View().DriftUs(sessionUs), 0x7FFF_FFFF)),
        SaturateU32(tb.discardedUs / 1000), tb.gapCount, SaturateU32(tb.maxGapUs / 1000), tb.catchupSteps,
        tb.sessionInvalid,
        if window.wakeLateSamples == 0 then 0 else Min(window.wakeLateTotalUs / window.wakeLateSamples, U32_MAX),
        Min(session.wakeLateMaxUs, U32_MAX), Min(p99, U32_MAX), Min(window.overrunUs, U32_MAX),
        SaturateU32(tb.stepUs), verdict, session.worst,
        if session.minRealised.Some? then session.minRealised.value else 0.0));
      assert stats.pacing == PublishedPacing(before, windowUs, sessionUs, targetHz);
      said := Silent;
      if reportAt.Some? {
        said := reporter.Decide(verdict, reportAt.value);
      }
    }

    method Close(windowUs: U64, sessionUs: U64, at: nat) returns (said: Announcement, drops: nat)
      requires Valid()
      modifies this, reporter
      ensures Valid() && View() == LedgerStep(old(View()), CloseWindow(windowUs, sessionUs, at), targetHz)
      ensures drops == WindowDrops(old(View())) && said == ReporterSays(old(View()).reporter, Observation(stats.pacing.health, at))
      ensures old(Compromised(stats)) ==> Compromised(stats)
    {
      hide Sound, RollUpSession, PublishedPacing, Verdict, WakeLateHistogram.Valid, ReporterStep, ReporterSays;
      ghost var before := View();
      SoundStep(before, CloseWindow(windowUs, sessionUs, at), targetHz);
      SoundIsConsistent(before);
      VerdictIsPublished(before, windowUs, sessionUs, targetHz);
      said, drops := RollUpWindow(windowUs, sessionUs, Some(at));
      window := EMPTY_WINDOW.(dropsAtStart := stats.sensorDrops, discardedAtStart := tb.discardedUs, gapsAtStart := tb.gapCount);
    }

    /** Sends the snapshot out; the annunciator says whether its health goes to the browser. */
    method PublishStats(at: nat) returns (snapshot: Stats, change: Transition)
      requires Valid()
      modifies annunciator
      ensures Valid() && View() == LedgerStep(old(View()), Publish(at), targetHz) && snapshot == stats
      ensures var o := Observation(stats.pacing.health, at);
              change == if Announces(old(View()).policy, o) then Change(o.health, old(View()).policy.announced) else NoChange
    {
      hide Sound, WakeLateHistogram.Valid, Announces, PolicyStep;
      SoundStep(View(), Publish(at), targetHz);
      SoundIsConsistent(View());
      snapshot := stats;
      change := annunciator.Observe(snapshot.pacing.health, at);
    }

    method ApplyReconfigure()
      requires Valid()
      modifies this`stats
      ensures Valid() && View() == LedgerStep(old(View()), Reconfigure, targetHz)
      ensures Compromised(stats) == old(Compromised(stats))
    {
      stats := Stats(0, 0, stats.pacing);
    }
  }

  // ----- invariants of every interleaving -----

  /** Earlier windows answer only for time really lost, a loss they answered for is latched, and the
      snapshot never claims more than the clock and the session hold. */
  predicate Sound(l: Ledger) {
    && l.clock.Consistent()
    && l.window.discardedAtStart <= l.clock.discardedUs
    && (l.window.discardedAtStart > 0 ==> l.session.worst == Faulted)
    && (l.stats.pacing.sessionInvalid ==> l.clock.sessionInvalid)
    && l.stats.pacing.discardedMs <= SaturateU32(l.clock.discardedUs / 1000)
    && l.stats.pacing.worst == l.session.worst
    && l.session.wakeLateMaxUs == MaxOf(l.wakeLate)
    && l.stats.pacing.wakeLateP99Us <= l.stats.pacing.wakeLateMaxUs
  }

  lemma SoundIsConsistent(l: Ledger)
    requires Sound(l)
    ensures l.clock.Consistent()
  {
  }

  lemma VerdictIsPublished(l: Ledger, windowUs: U64, sessionUs: U64, targetHz: U32)
    ensures PublishedPacing(l, windowUs, sessionUs, targetHz).health == Verdict(l, windowUs, targetHz)
  {
  }

  /** At every roll-up, the last one at shutdown included: lost time means a latched fault, and the
      published totals are the session's. */
  lemma CloseAnswersForEveryLoss(l: Ledger, windowUs: U64, sessionUs: U64, targetHz: U32)
    requires Sound(l)
    ensures var r := RollUp(l, windowUs, sessionUs, targetHz);
            var p := r.stats.pacing;
            && (l.clock.discardedUs > 0 ==> p.worst == Faulted)
            && (p.discardedMs > 0 ==> p.worst == Faulted)
            && p.discardedMs == SaturateU32(l.clock.discardedUs / 1000)
            && p.sessionInvalid == l.clock.sessionInvalid
            && p.worst == r.session.worst && Rank(p.worst) >= Rank(p.health) && Rank(p.worst) >= Rank(l.session.worst)
            && p.wakeLateP99Us <= p.wakeLateMaxUs && r.session.wakeLateMaxUs == l.session.wakeLateMaxUs
  {
    hide Realised, PerSecond, EdgeFrom, MaxOf, Below, Target;
  }

  lemma RollUpKeepsRefusal(l: Ledger, windowUs: U64, sessionUs: U64, targetHz: U32)
    requires Sound(l)
    ensures Compromised(l.stats) ==> Compromised(RollUp(l, windowUs, sessionUs, targetHz).stats)
  {
    hide RollUpSession, PublishedPacing;
    CloseAnswersForEveryLoss(l, windowUs, sessionUs, targetHz);
  }

  lemma SoundStep(l: Ledger, e: Event, targetHz: U32)
    requires Sound(l)
    ensures Sound(LedgerStep(l, e, targetHz))
  {
    hide RollUpSession, PublishedPacing, Step, Decide, Clock.Accounted, ReporterStep, PolicyStep;
    match e
    case Iteration(wall, late, _, _, _) =>
      if late.Some? { assert (l.wakeLate + [late.value])[..|l.wakeLate|] == l.wakeLate; }
      StepIsLater(l.clock, wall);
      StepBounds(l.clock, wall);
      DivMonotone(l.clock.discardedUs, Step(l.clock, wall).discardedUs, 1000);
    case CloseWindow(windowUs, sessionUs, _) =>
      CloseAnswersForEveryLoss(l, windowUs, sessionUs, targetHz);
    case Publish(_) =>
    case Reconfigure =>
  }

  /** No event takes back a refusal to arm. */
  lemma RefusalSurvives(l: Ledger, e: Event, targetHz: U32)
    requires Sound(l)
    ensures Compromised(l.stats) ==> Compromised(LedgerStep(l, e, targetHz).stats)
  {
    hide RollUpSession, PublishedPacing, Step, Decide, Clock.Accounted, ReporterStep, PolicyStep;
    if e.CloseWindow? {
      RollUpKeepsRefusal(l, e.windowUs, e.sessionUs, targetHz);
    }
  }

  function LedgerAt(c: Clock, t0: nat, events: seq<Event>, targetHz: U32, n: nat): (l: Ledger)
    requires c.Consistent() && c.discardedUs == 0 && n <= |events|
    ensures Sound(l)
  {
    if n == 0 then Start(c, t0)
    else
      SoundStep(LedgerAt(c, t0, events, targetHz, n - 1), events[n - 1], targetHz);
      LedgerStep(LedgerAt(c, t0, events, targetHz, n - 1), events[n - 1], targetHz)
  }

  /** Loss reported by the windows closed in the first `n` events. */
  function ReportedLoss(c: Clock, t0: nat, events: seq<Event>, targetHz: U32, n: nat): nat
    requires c.Consistent() && c.discardedUs == 0 && n <= |events|
  {
    if n == 0 then 0
    else ReportedLoss(c, t0, events, targetHz, n - 1)
         + if events[n - 1].CloseWindow? then WindowDiscard(LedgerAt(c, t0, events, targetHz, n - 1)) else 0
  }

  /** Over any interleaving of iterations, closes and reconfigures, the losses the windows reported and
      the open window's own add up to the session's, so none is counted twice or missed. */
  lemma {:induction false} WindowLossesSumToTheSession(c: Clock, t0: nat, events: seq<Event>, targetHz: U32, n: nat)
    requires c.Consistent() && c.discardedUs == 0 && n <= |events|
    ensures var l := LedgerAt(c, t0, events, targetHz, n);
            && ReportedLoss(c, t0, events, targetHz, n) + WindowDiscard(l) == l.clock.discardedUs
            && ReportedLoss(c, t0, events, targetHz, n) == l.window.discardedAtStart
  {
    hide Sound, LedgerStep;
    if n > 0 {
      WindowLossesSumToTheSession(c, t0, events, targetHz, n - 1);
      LossAcrossAnEvent(LedgerAt(c, t0, events, targetHz, n - 1), events[n - 1], targetHz);
    }
  }

  /** Only an iteration adds loss, and only a close moves it from the open window to the closed ones. */
  lemma LossAcrossAnEvent(l: Ledger, e: Event, targetHz: U32)
    requires Sound(l)
    ensures var m := LedgerStep(l, e, targetHz);
            && m.clock.discardedUs >= l.clock.discardedUs
            && (!e.Iteration? ==> m.clock == l.clock)
            && m.window.discardedAtStart == (if e.CloseWindow? then l.clock.discardedUs else l.window.discardedAtStart)
            && m.window.gapsAtStart == (if e.CloseWindow? then l.clock.gapCount else l.window.gapsAtStart)
            && m.window.discardedAtStart <= m.clock.discardedUs
            && l.window.discardedAtStart <= l.clock.discardedUs
  {
    hide RollUpSession, PublishedPacing, Step, Decide, Clock.Accounted, ReporterStep, PolicyStep;
    if e.Iteration? {
      StepIsLater(l.clock, e.wall);
    }
  }

  // ----- what the closed windows add up to -----

  function VerdictAt(c: Clock, t0: nat, events: seq<Event>, targetHz: U32, k: nat): Health
    requires c.Consistent() && c.discardedUs == 0 && k < |events| && events[k].CloseWindow?
  {
    Verdict(LedgerAt(c, t0, events, targetHz, k), events[k].windowUs, targetHz)
  }

  /** `h` is the worst verdict of the windows closed in the first `n` events, and fine if there are none. */
  ghost predicate IsWorstOfClosed(c: Clock, t0: nat, events: seq<Event>, targetHz: U32, n: nat, h: Health)
    requires c.Consistent() && c.discardedUs == 0 && n <= |events|
  {
    && (forall k :: 0 <= k < n && events[k].CloseWindow? ==> Rank(VerdictAt(c, t0, events, targetHz, k)) <= Rank(h))
    && (h == Ok || exists k :: 0 <= k < n && events[k].CloseWindow? && VerdictAt(c, t0, events, targetHz, k) == h)
  }

  lemma WorstAcrossAnEvent(l: Ledger, e: Event, targetHz: U32)
    requires Sound(l)
    ensures LedgerStep(l, e, targetHz).session.worst ==
            if e.CloseWindow? then Worse(l.session.worst, Verdict(l, e.windowUs, targetHz)) else l.session.worst
  {
    hide PublishedPacing, Step, Decide, Clock.Accounted, ReporterStep, Verdict;
  }

  lemma WorstOfOneMore(c: Clock, t0: nat, events: seq<Event>, targetHz: U32, n: nat, h: Health)
    requires c.Consistent() && c.discardedUs == 0 && n < |events| && IsWorstOfClosed(c, t0, events, targetHz, n, h)
    ensures IsWorstOfClosed(c, t0, events, targetHz, n + 1,
              if events[n].CloseWindow? then Worse(h, VerdictAt(c, t0, events, targetHz, n)) else h)
  {
    hide VerdictAt;
    if events[n].CloseWindow? {
      var v := VerdictAt(c, t0, events, targetHz, n);
      if Rank(v) <= Rank(h) && h != Ok {
        var k :| 0 <= k < n && events[k].CloseWindow? && VerdictAt(c, t0, events, targetHz, k) == h;
      }
    }
  }

  lemma PublishedIsTheSessions(l: Ledger)
    requires Sound(l)
    ensures l.stats.pacing.worst == l.session.worst
  {
  }

  /** Over any interleaving the published worst health is the worst verdict of all closed windows:
      nothing else raises it and nothing lowers it. */
  lemma {:induction false} PublishedWorstIsTheWorstWindow(c: Clock, t0: nat, events: seq<Event>, targetHz: U32, n: nat)
    requires c.Consistent() && c.discardedUs == 0 && n <= |events|
    ensures IsWorstOfClosed(c, t0, events, targetHz, n, LedgerAt(c, t0, events, targetHz, n).stats.pacing.worst)
  {
    hide LedgerStep, Verdict, Sound, Worse;
    PublishedIsTheSessions(LedgerAt(c, t0, events, targetHz, n));
    if n > 0 {
      hide IsWorstOfClosed;
      var l := LedgerAt(c, t0, events, targetHz, n - 1);
      PublishedWorstIsTheWorstWindow(c, t0, events, targetHz, n - 1);
      PublishedIsTheSessions(l);
      WorstAcrossAnEvent(l, events[n - 1], targetHz);
      WorstOfOneMore(c, t0, events, targetHz, n - 1, l.session.worst);
    }
  }

  /** What the reporter is shown: the verdict of every closed window, in order. */
  function Shown(c: Clock, t0: nat, events: seq<Event>, targetHz: U32, n: nat): seq<Observation>
    requires c.Consistent() && c.discardedUs == 0 && n <= |events|
  {
    if n == 0 then []
    else Shown(c, t0, events, targetHz, n - 1)
         + if events[n - 1].CloseWindow? then [Observation(VerdictAt(c, t0, events, targetHz, n - 1), events[n - 1].at)] else []
  }

  /** The reporter is the log reporter run over the windows, so its rate limits and its promise never
      to understate hold of every interleaving, and reconfigures do not reset it. */
  lemma {:induction false} ReporterFollowsTheWindows(c: Clock, t0: nat, events: seq<Event>, targetHz: U32, n: nat)
    requires c.Consistent() && c.discardedUs == 0 && n <= |events|
    ensures var shown := Shown(c, t0, events, targetHz, n);
            LedgerAt(c, t0, events, targetHz, n).reporter == ReporterAt(t0, shown, |shown|)
  {
    hide Step, Decide, ReporterStep, RollUp, Verdict, Sound;
    if n > 0 {
      ReporterFollowsTheWindows(c, t0, events, targetHz, n - 1);
      var before := Shown(c, t0, events, targetHz, n - 1);
      if events[n - 1].CloseWindow? {
        var o := Observation(VerdictAt(c, t0, events, targetHz, n - 1), events[n - 1].at);
        ReporterOfAPrefix(t0, before, [o], |before|);
        assert (before + [o])[|before|] == o;
      } else {
        assert Shown(c, t0, events, targetHz, n) == before;
      }
    }
  }

  lemma {:induction false} ReporterOfAPrefix(t0: nat, a: seq<Observation>, b: seq<Observation>, n: nat)
    requires n <= |a|
    ensures ReporterAt(t0, a + b, n) == ReporterAt(t0, a, n)
  {
    hide ReporterStep, PolicyStep;
    if n > 0 {
      ReporterOfAPrefix(t0, a, b, n - 1);
    }
  }

  // ----- a window as its events -----

  /** Iterations since the last close in the first `n` events, the steps they ran, the time they were
      already late by, and the wake latenesses of those that slept. */
  function IterationsInWindow(events: seq<Event>, n: nat): nat
    requires n <= |events|
  {
    if n == 0 || events[n - 1].CloseWindow? then 0
    else IterationsInWindow(events, n - 1) + (if events[n - 1].Iteration? then 1 else 0)
  }

  function StepsInWindow(c: Clock, t0: nat, events: seq<Event>, targetHz: U32, n: nat): nat
    requires c.Consistent() && c.discardedUs == 0 && n <= |events|
  {
    if n == 0 || events[n - 1].CloseWindow? then 0
    else StepsInWindow(c, t0, events, targetHz, n - 1)
         + if events[n - 1].Iteration? then Decide(LedgerAt(c, t0, events, targetHz, n - 1).clock, events[n - 1].wall).steps else 0
  }

  function OverrunInWindow(events: seq<Event>, n: nat): nat
    requires n <= |events|
  {
    if n == 0 || events[n - 1].CloseWindow? then 0
    else OverrunInWindow(events, n - 1) + (if events[n - 1].Iteration? then events[n - 1].overrun else 0)
  }

  predicate Slept(e: Event) { e.Iteration? && e.late.Some? }

  function LatesInWindow(events: seq<Event>, n: nat): seq<nat>
    requires n <= |events|
  {
    if n == 0 || events[n - 1].CloseWindow? then []
    else LatesInWindow(events, n - 1) + if Slept(events[n - 1]) then [events[n - 1].late.value] else []
  }

  /** Of the whole session. */
  function Lates(events: seq<Event>, n: nat): seq<nat>
    requires n <= |events|
  {
    if n == 0 then [] else Lates(events, n - 1) + if Slept(events[n - 1]) then [events[n - 1].late.value] else []
  }

  function TotalOverrun(events: seq<Event>, n: nat): nat
    requires n <= |events|
  {
    if n == 0 then 0 else TotalOverrun(events, n - 1) + (if events[n - 1].Iteration? then events[n - 1].overrun else 0)
  }

  /** Messages sent since the last reconfigure. */
  function MessagesSinceReset(events: seq<Event>, n: nat): nat
    requires n <= |events|
  {
    if n == 0 || events[n - 1].Reconfigure? then 0
    else MessagesSinceReset(events, n - 1) + (if events[n - 1].Iteration? then events[n - 1].messages else 0)
  }

  function Sum(s: seq<nat>): nat { if s == [] then 0 else Sum(s[..|s| - 1]) + s[|s| - 1] }

  lemma OneMoreLate(s: seq<nat>, x: nat)
    ensures Sum(s + [x]) == Sum(s) + x && MaxOf(s + [x]) == Max(MaxOf(s), x)
  {
    assert (s + [x])[..|s|] == s;
  }

  /** The ledger's window and session are the sums of their events. */
  ghost predicate HoldsItsEvents(c: Clock, t0: nat, events: seq<Event>, targetHz: U32, n: nat)
    requires c.Consistent() && c.discardedUs == 0 && n <= |events|
  {
    HoldsCounts(c, t0, events, targetHz, n) && HoldsLates(c, t0, events, targetHz, n)
  }

  ghost predicate HoldsCounts(c: Clock, t0: nat, events: seq<Event>, targetHz: U32, n: nat)
    requires c.Consistent() && c.discardedUs == 0 && n <= |events|
  {
    var l := LedgerAt(c, t0, events, targetHz, n);
    && l.window.iterations == IterationsInWindow(events, n)
    && l.window.steps == StepsInWindow(c, t0, events, targetHz, n)
    && l.window.overrunUs == OverrunInWindow(events, n) && l.session.overrunUs == TotalOverrun(events, n)
    && l.stats.messages == MessagesSinceReset(events, n)
  }

  ghost predicate HoldsLates(c: Clock, t0: nat, events: seq<Event>, targetHz: U32, n: nat)
    requires c.Consistent() && c.discardedUs == 0 && n <= |events|
  {
    Holds(LedgerAt(c, t0, events, targetHz, n), LatesInWindow(events, n), Lates(events, n))
  }

  /** What each kind of event adds to the window, the session and the message count. */
  lemma FieldsAcrossAnEvent(l: Ledger, e: Event, targetHz: U32)
    requires Sound(l)
    ensures var m, w := LedgerStep(l, e, targetHz), l.window;
            && (e.Iteration? ==>
                  && m.window.iterations == w.iterations + 1 && m.window.steps == w.steps + Decide(l.clock, e.wall).steps
                  && m.window.overrunUs == w.overrunUs + e.overrun && m.session.overrunUs == l.session.overrunUs + e.overrun
                  && m.stats.messages == l.stats.messages + e.messages
                  && if e.late.Some? then
                       && m.window.wakeLateSamples == w.wakeLateSamples + 1
                       && m.window.wakeLateTotalUs == w.wakeLateTotalUs + e.late.value
                       && m.window.wakeLateMaxUs == Max(w.wakeLateMaxUs, e.late.value)
                       && m.wakeLate == l.wakeLate + [e.late.value]
                     else
                       && m.window.wakeLateSamples == w.wakeLateSamples && m.window.wakeLateTotalUs == w.wakeLateTotalUs
                       && m.window.wakeLateMaxUs == w.wakeLateMaxUs && m.wakeLate == l.wakeLate)
            && (!e.Iteration? ==>
                  && m.wakeLate == l.wakeLate && m.session.overrunUs == l.session.overrunUs
                  && m.stats.messages == if e.Reconfigure? then 0 else l.stats.messages)
            && (e.Publish? || e.Reconfigure? ==> m.window == w)
            && (e.CloseWindow? ==> m.window == EMPTY_WINDOW.(dropsAtStart := l.stats.sensorDrops,
                                     discardedAtStart := l.clock.discardedUs, gapsAtStart := l.clock.gapCount))
  {
    hide Step, Decide, Clock.Accounted, ReporterStep, PolicyStep, Verdict, Realised, PublishedPacing, SmallerRatio, MaxOf;
  }

  lemma {:induction false} LedgerHoldsItsCounts(c: Clock, t0: nat, events: seq<Event>, targetHz: U32, n: nat)
    requires c.Consistent() && c.discardedUs == 0 && n <= |events|
    ensures HoldsCounts(c, t0, events, targetHz, n)
  {
    hide LedgerStep, Sound, Decide;
    if n > 0 {
      LedgerHoldsItsCounts(c, t0, events, targetHz, n - 1);
      FieldsAcrossAnEvent(LedgerAt(c, t0, events, targetHz, n - 1), events[n - 1], targetHz);
    }
  }

  lemma OneMoreEvent(c: Clock, t0: nat, events: seq<Event>, targetHz: U32, n: nat)
    requires c.Consistent() && c.discardedUs == 0 && n <= |events|
    ensures LedgerAt(c, t0, events, targetHz, 0) == Start(c, t0)
    ensures n > 0 ==> LedgerAt(c, t0, events, targetHz, n) == LedgerStep(LedgerAt(c, t0, events, targetHz, n - 1), events[n - 1], targetHz)
  {
  }

  /** The latenesses across one event. */
  lemma LatesAcrossAnEvent(events: seq<Event>, n: nat)
    requires n < |events|
    ensures var before, after, e := LatesInWindow(events, n), LatesInWindow(events, n + 1), events[n];
            if e.CloseWindow? then after == []
            else if Slept(e) then after == before + [e.late.value]
            else after == before
    ensures Lates(events, n + 1) == if Slept(events[n]) then Lates(events, n) + [events[n].late.value] else Lates(events, n)
  {
  }

  /** `l` holds these latenesses of its window and of its session. */
  ghost predicate Holds(l: Ledger, window: seq<nat>, session: seq<nat>) {
    && l.window.wakeLateSamples == |window| && l.window.wakeLateTotalUs == Sum(window)
    && l.window.wakeLateMaxUs == MaxOf(window) && l.wakeLate == session
  }

  lemma HoldsAcrossAnEvent(l: Ledger, e: Event, targetHz: U32, window: seq<nat>, session: seq<nat>)
    requires Sound(l) && Holds(l, window, session)
    ensures var m := LedgerStep(l, e, targetHz);
            if e.CloseWindow? then Holds(m, [], session)
            else if Slept(e) then Holds(m, window + [e.late.value], session + [e.late.value])
            else Holds(m, window, session)
  {
    hide LedgerStep, Sound, Sum, MaxOf;
    NothingLate();
    LateFieldsAcrossAnEvent(l, e, targetHz);
    if Slept(e) { OneMoreLate(window, e.late.value); }
  }

  lemma HoldsLatesAtFirst(c: Clock, t0: nat, events: seq<Event>, targetHz: U32)
    requires c.Consistent() && c.discardedUs == 0
    ensures HoldsLates(c, t0, events, targetHz, 0)
  {
    hide Holds, LatesInWindow, Lates, Sound, Start;
    NoEventsYet(events);
    NothingHeldYet(c, t0);
  }

  lemma NothingHeldYet(c: Clock, t0: nat)
    ensures Holds(Start(c, t0), [], [])
  {
  }

  lemma HoldsLatesNext(c: Clock, t0: nat, events: seq<Event>, targetHz: U32, n: nat)
    requires c.Consistent() && c.discardedUs == 0 && n < |events|
    requires HoldsLates(c, t0, events, targetHz, n)
    ensures HoldsLates(c, t0, events, targetHz, n + 1)
  {
    hide LedgerAt, LedgerStep, Sound, Holds, LatesInWindow, Lates;
    OneMoreEvent(c, t0, events, targetHz, n + 1);
    LatesAcrossAnEvent(events, n);
    HoldsAcrossAnEvent(LedgerAt(c, t0, events, targetHz, n), events[n], targetHz, LatesInWindow(events, n), Lates(events, n));
  }

  lemma {:induction false} LedgerHoldsItsLates(c: Clock, t0: nat, events: seq<Event>, targetHz: U32, n: nat)
    requires c.Consistent() && c.discardedUs == 0 && n <= |events|
    ensures HoldsLates(c, t0, events, targetHz, n)
  {
    hide HoldsLates;
    if n > 0 {
      LedgerHoldsItsLates(c, t0, events, targetHz, n - 1);
      HoldsLatesNext(c, t0, events, targetHz, n - 1);
    } else {
      HoldsLatesAtFirst(c, t0, events, targetHz);
    }
  }

  lemma LateFieldsAcrossAnEvent(l: Ledger, e: Event, targetHz: U32)
    requires Sound(l)
    ensures var m := LedgerStep(l, e, targetHz);
            && m.wakeLate == (if Slept(e) then l.wakeLate + [e.late.value] else l.wakeLate)
            && if e.CloseWindow? then m.window.wakeLateSamples == m.window.wakeLateTotalUs == m.window.wakeLateMaxUs == 0
               else if Slept(e) then
                 && m.window.wakeLateSamples == l.window.wakeLateSamples + 1
                 && m.window.wakeLateTotalUs == l.window.wakeLateTotalUs + e.late.value
                 && m.window.wakeLateMaxUs == Max(l.window.wakeLateMaxUs, e.late.value)
               else
                 && m.window.wakeLateSamples == l.window.wakeLateSamples
                 && m.window.wakeLateTotalUs == l.window.wakeLateTotalUs && m.window.wakeLateMaxUs == l.window.wakeLateMaxUs
  {
    hide LedgerStep, Sound;
    FieldsAcrossAnEvent(l, e, targetHz);
  }

  lemma NoEventsYet(events: seq<Event>)
    ensures LatesInWindow(events, 0) == Lates(events, 0) == []
  {
  }

  lemma LedgerHoldsItsEvents(c: Clock, t0: nat, events: seq<Event>, targetHz: U32, n: nat)
    requires c.Consistent() && c.discardedUs == 0 && n <= |events|
    ensures HoldsItsEvents(c, t0, events, targetHz, n)
  {
    hide LedgerAt, HoldsCounts, HoldsLates;
    LedgerHoldsItsCounts(c, t0, events, targetHz, n);
    LedgerHoldsItsLates(c, t0, events, targetHz, n);
  }

  lemma NothingLate()
    ensures Sum([]) == MaxOf([]) == 0
  {
  }

  /** What a close publishes of a window and a session, in terms of what happened in them. */
  lemma ClosePublishesTheWindow(c: Clock, t0: nat, events: seq<Event>, targetHz: U32, n: nat, windowUs: U64, sessionUs: U64)
    requires c.Consistent() && c.discardedUs == 0 && n <= |events|
    ensures var l, lates := LedgerAt(c, t0, events, targetHz, n), LatesInWindow(events, n);
            var p := RollUp(l, windowUs, sessionUs, targetHz).stats.pacing;
            && p.tickRateHz == PerSecondOf(IterationsInWindow(events, n), windowUs)
            && p.stepsPerSec == PerSecondOf(StepsInWindow(c, t0, events, targetHz, n), windowUs)
            && p.overrunUs == Min(OverrunInWindow(events, n), U32_MAX)
            && p.wakeLateAvgUs == (if lates == [] then 0 else Min(Sum(lates) / |lates|, U32_MAX))
            && p.wakeLateMaxUs == Min(MaxOf(Lates(events, n)), U32_MAX)
            && PublishesP99(p.wakeLateP99Us, Lates(events, n))
  {
    hide Step, Decide, ReporterStep, PolicyStep, Sum, MaxOf, Verdict, Realised, EdgeFrom, Target, Below;
    LedgerHoldsItsEvents(c, t0, events, targetHz, n);
    P99IsOfTheSession(Lates(events, n));
    RatesAgree(IterationsInWindow(events, n), windowUs);
    RatesAgree(StepsInWindow(c, t0, events, targetHz, n), windowUs);
  }

  /** `count` events in `us` microseconds, per second. */
  function PerSecondOf(count: nat, us: U64): real { if us == 0 then 0.0 else (count * 1_000_000) as real / us as real }

  lemma RatesAgree(count: nat, us: U64)
    ensures PerSecond(count, us) == PerSecondOf(count, us)
  {
    if us > 0 {
      var x := us as real;
      QuotientIs(count as real, x / 1_000_000.0, PerSecondOf(count, us));
    }
  }

  lemma QuotientIs(a: real, b: real, q: real)
    requires b > 0.0 && q * b == a
    ensures a / b == q
  {
  }

  /** The published p99 is the order statistic of rank 0.99, rounded up, of every lateness so far. */
  ghost predicate PublishesP99(p99: U32, samples: seq<nat>) {
    if samples == [] then p99 == 0
    else exists r: nat :: p99 == Min(r, U32_MAX) && ReportsQuantile(r, samples, 0.99)
  }

  lemma P99IsOfTheSession(samples: seq<nat>)
    ensures PublishesP99(Min(WakeLateP99(samples), U32_MAX), samples)
  {
    hide EdgeFrom, Target, ReportsQuantile;
    if samples != [] {
      QuantileReportsItsRank(samples, 0.99);
    }
  }

  /** What a close publishes of the clock. */
  lemma ClosePublishesTheClock(l: Ledger, windowUs: U64, sessionUs: U64, targetHz: U32)
    requires Sound(l)
    ensures var p, d := RollUp(l, windowUs, sessionUs, targetHz).stats.pacing, l.clock;
            && p.driftUs == Max(-0x8000_0000, Min(sessionUs - d.simUs, 0x7FFF_FFFF))
            && p.discardedMs == Min(d.discardedUs / 1000, U32_MAX) && p.maxGapMs == Min(d.maxGapUs / 1000, U32_MAX)
            && p.gapCount == d.gapCount && p.catchupSteps == d.catchupSteps && p.sessionInvalid == d.sessionInvalid
            && p.stepUs == Min(d.stepUs, U32_MAX)
  {
    hide Verdict, Realised, PerSecond, Quantile, Target;
  }

  /** The verdict of a window: lost time is a fault; otherwise, with `k` iterations against the rate, it
      is fine from 99 % of them on, a fault below 90 %, and degraded between; a window without length or
      rate measures nothing. */
  lemma WindowVerdictExactlyWhen(c: Clock, t0: nat, events: seq<Event>, targetHz: U32, n: nat, windowUs: U64, sessionUs: U64)
    requires c.Consistent() && c.discardedUs == 0 && n <= |events|
    ensures var l, k := LedgerAt(c, t0, events, targetHz, n), IterationsInWindow(events, n);
            var health := RollUp(l, windowUs, sessionUs, targetHz).stats.pacing.health;
            var due := targetHz * windowUs;
            if WindowDiscard(l) > 0 then health == Faulted
            else if due == 0 then health == Ok
            else && (health == Ok <==> k * 1_000_000 * 100 >= 99 * due)
                 && (health == Faulted <==> k * 1_000_000 * 10 < 9 * due)
  {
    hide LedgerAt, IterationsInWindow, HoldsItsEvents, PublishedPacing, RollUpSession, TimebaseHealth, Realised, WindowDiscard;
    var l := LedgerAt(c, t0, events, targetHz, n);
    IterationsHeld(c, t0, events, targetHz, n);
    VerdictIsPublished(l, windowUs, sessionUs, targetHz);
    HealthExactlyWhen(l.window.iterations, WindowDiscard(l), windowUs, targetHz);
  }

  lemma IterationsHeld(c: Clock, t0: nat, events: seq<Event>, targetHz: U32, n: nat)
    requires c.Consistent() && c.discardedUs == 0 && n <= |events|
    ensures LedgerAt(c, t0, events, targetHz, n).window.iterations == IterationsInWindow(events, n)
  {
    hide LedgerAt, IterationsInWindow;
    LedgerHoldsItsEvents(c, t0, events, targetHz, n);
  }

  lemma HealthExactlyWhen(k: nat, lost: U64, windowUs: U64, targetHz: U32)
    ensures var health, due := TimebaseHealth(Realised(k, windowUs, targetHz), lost), targetHz * windowUs;
            if lost > 0 then health == Faulted
            else if due == 0 then health == Ok
            else && (health == Ok <==> k * 1_000_000 * 100 >= 99 * due)
                 && (health == Faulted <==> k * 1_000_000 * 10 < 9 * due)
  {
    if windowUs > 0 && targetHz > 0 {
      hide Realised;
      MulMonotone(1, targetHz, windowUs);
      RatioAgainst(k, windowUs, targetHz, 99, 100);
      RatioAgainst(k, windowUs, targetHz, 90, 100);
    } else {
      NothingDue(windowUs, targetHz);
    }
  }

  lemma NothingDue(windowUs: U64, targetHz: U32)
    requires windowUs == 0 || targetHz == 0
    ensures targetHz * windowUs == 0
  {
  }

  /** Comparing the realised ratio with a fraction, without dividing. */
  lemma RatioAgainst(k: nat, windowUs: U64, targetHz: U32, num: nat, den: nat)
    requires windowUs > 0 && targetHz > 0 && den > 0
    ensures Realised(k, windowUs, targetHz).Some?
    ensures Realised(k, windowUs, targetHz).value >= num as real / den as real <==>
            k * 1_000_000 * den >= num * (targetHz * windowUs)
  {
    var r := Realised(k, windowUs, targetHz).value;
    var due := targetHz as real * windowUs as real;
    RealisedTimesDue(k, windowUs, targetHz);
    ScaledComparison(r, due, num as real, den as real);
    assert (k * 1_000_000 * den) as real == (r * due) * den as real;
    assert (num * (targetHz * windowUs)) as real == num as real * due;
  }

  lemma RealisedTimesDue(k: nat, windowUs: U64, targetHz: U32)
    requires windowUs > 0 && targetHz > 0
    ensures targetHz as real * windowUs as real > 0.0
    ensures Realised(k, windowUs, targetHz).value * (targetHz as real * windowUs as real) == (k * 1_000_000) as real
  {
    var w, h := windowUs as real, targetHz as real;
    var perSecond := k as real / (w / 1_000_000.0);
    assert perSecond * w == k as real * 1_000_000.0;
    assert (perSecond / h) * h == perSecond;
    var q := perSecond / h;
    assert q * (h * w) == (q * h) * w;
  }

  lemma ScaledComparison(r: real, due: real, num: real, den: real)
    requires due > 0.0 && den > 0.0
    ensures r >= num / den <==> (r * due) * den >= num * due
  {
    var q := num / den;
    assert q * den == num;
    assert num * due == (q * due) * den;
    assert (r * due) * den - (q * due) * den == (r - q) * (due * den);
    assert due * den > 0.0;
    SignOfProduct(r - q, due * den);
  }

  lemma SignOfProduct(a: real, b: real)
    requires b > 0.0
    ensures a * b >= 0.0 <==> a >= 0.0
  {
  }

  /** The ratio of closed window `k`. */
  function RatioOf(events: seq<Event>, targetHz: U32, k: nat): Option<real>
    requires k < |events| && events[k].CloseWindow?
  {
    Realised(IterationsInWindow(events, k), events[k].windowUs, targetHz)
  }

  ghost predicate IsLowestOfClosed(events: seq<Event>, targetHz: U32, n: nat, m: Option<real>)
    requires n <= |events|
  {
    && (forall k :: 0 <= k < n && events[k].CloseWindow? && RatioOf(events, targetHz, k).Some? ==>
          m.Some? && m.value <= RatioOf(events, targetHz, k).value)
    && (m.Some? ==> exists k :: 0 <= k < n && events[k].CloseWindow? && RatioOf(events, targetHz, k) == m)
  }

  /** The published lowest ratio is the lowest of all closed windows that measured one. */
  lemma {:induction false} PublishedLowestRatioIsTheLowestWindows(c: Clock, t0: nat, events: seq<Event>, targetHz: U32, n: nat)
    requires c.Consistent() && c.discardedUs == 0 && n <= |events|
    ensures var l := LedgerAt(c, t0, events, targetHz, n);
            && IsLowestOfClosed(events, targetHz, n, l.session.minRealised)
            && l.stats.pacing.minRealised == (if l.session.minRealised.Some? then l.session.minRealised.value else 0.0)
  {
    hide LedgerStep, Verdict, Realised, Sound;
    if n > 0 {
      PublishedLowestRatioIsTheLowestWindows(c, t0, events, targetHz, n - 1);
      LedgerHoldsItsEvents(c, t0, events, targetHz, n - 1);
      LowestAcrossAnEvent(LedgerAt(c, t0, events, targetHz, n - 1), events[n - 1], targetHz);
      if events[n - 1].CloseWindow? {
        assert RatioOf(events, targetHz, n - 1) ==
               Realised(LedgerAt(c, t0, events, targetHz, n - 1).window.iterations, events[n - 1].windowUs, targetHz);
      }
    }
  }

  lemma LowestAcrossAnEvent(l: Ledger, e: Event, targetHz: U32)
    requires Sound(l)
    ensures var m := LedgerStep(l, e, targetHz);
            && m.session.minRealised == (if e.CloseWindow? then
                 SmallerRatio(l.session.minRealised, Realised(l.window.iterations, e.windowUs, targetHz))
               else l.session.minRealised)
            && (!e.CloseWindow? ==> m.stats.pacing == l.stats.pacing)
            && (e.CloseWindow? ==> m.stats.pacing.minRealised == if m.session.minRealised.Some? then m.session.minRealised.value else 0.0)
  {
    hide Step, Decide, Clock.Accounted, ReporterStep, PolicyStep, Verdict, Realised, PerSecond, Quantile, SmallerRatio;
  }

  // ----- what the browser is told -----

  /** The verdict of the last window closed in the first `n` events; fine before there is one. */
  function LatestVerdict(c: Clock, t0: nat, events: seq<Event>, targetHz: U32, n: nat): Health
    requires c.Consistent() && c.discardedUs == 0 && n <= |events|
  {
    if n == 0 then Ok
    else if events[n - 1].CloseWindow? then VerdictAt(c, t0, events, targetHz, n - 1)
    else LatestVerdict(c, t0, events, targetHz, n - 1)
  }

  /** What a snapshot carries between two closes is the last window's verdict, reconfigured or not. */
  lemma {:induction false} SnapshotCarriesTheLatestVerdict(c: Clock, t0: nat, events: seq<Event>, targetHz: U32, n: nat)
    requires c.Consistent() && c.discardedUs == 0 && n <= |events|
    ensures LedgerAt(c, t0, events, targetHz, n).stats.pacing.health == LatestVerdict(c, t0, events, targetHz, n)
  {
    hide Step, Decide, Sound, RollUpSession, ReporterStep, PolicyStep, PublishedPacing, Verdict;
    if n > 0 {
      SnapshotCarriesTheLatestVerdict(c, t0, events, targetHz, n - 1);
      if events[n - 1].CloseWindow? {
        VerdictIsPublished(LedgerAt(c, t0, events, targetHz, n - 1), events[n - 1].windowUs, events[n - 1].sessionUs, targetHz);
      }
    }
  }

  /** What the annunciator observes: at each publication, the verdict of the last closed window. */
  function Seen(c: Clock, t0: nat, events: seq<Event>, targetHz: U32, n: nat): seq<Observation>
    requires c.Consistent() && c.discardedUs == 0 && n <= |events|
  {
    if n == 0 then []
    else Seen(c, t0, events, targetHz, n - 1)
         + if events[n - 1].Publish? then [Observation(LatestVerdict(c, t0, events, targetHz, n - 1), events[n - 1].at)] else []
  }

  lemma {:induction false} PolicyOfAPrefix(t0: nat, a: seq<Observation>, b: seq<Observation>, n: nat)
    requires n <= |a|
    ensures PolicyAt(t0, a + b, n) == PolicyAt(t0, a, n)
  {
    hide PolicyStep;
    if n > 0 {
      PolicyOfAPrefix(t0, a, b, n - 1);
    }
  }

  lemma PolicyAcrossAnEvent(l: Ledger, e: Event, targetHz: U32)
    requires Sound(l)
    ensures LedgerStep(l, e, targetHz).policy ==
            if e.Publish? then PolicyStep(l.policy, Observation(l.stats.pacing.health, e.at)) else l.policy
  {
    hide RollUpSession, PublishedPacing, Step, Decide, Clock.Accounted, ReporterStep, PolicyStep;
  }

  /** The annunciator is the policy run over the publications, not over the windows: a window's verdict
      counts once for each snapshot sent before the next close, and not at all if there is none. */
  lemma {:induction false} AnnunciatorFollowsThePublishes(c: Clock, t0: nat, events: seq<Event>, targetHz: U32, n: nat)
    requires c.Consistent() && c.discardedUs == 0 && n <= |events|
    ensures var seen := Seen(c, t0, events, targetHz, n);
            LedgerAt(c, t0, events, targetHz, n).policy == PolicyAt(t0, seen, |seen|)
  {
    hide LedgerStep, PolicyStep, Sound, LatestVerdict;
    if n > 0 {
      AnnunciatorFollowsThePublishes(c, t0, events, targetHz, n - 1);
      PolicyAcrossAnEvent(LedgerAt(c, t0, events, targetHz, n - 1), events[n - 1], targetHz);
      var before := Seen(c, t0, events, targetHz, n - 1);
      if events[n - 1].Publish? {
        SnapshotCarriesTheLatestVerdict(c, t0, events, targetHz, n - 1);
        var o := Observation(LatestVerdict(c, t0, events, targetHz, n - 1), events[n - 1].at);
        PolicyOfAPrefix(t0, before, [o], |before|);
        assert (before + [o])[|before|] == o;
      } else {
        assert Seen(c, t0, events, targetHz, n) == before;
      }
    }
  }

  /** When the browser is told, over any interleaving: a worse verdict at its first publication; a better
      one exactly when it is what the last three publications carried, from however few windows, and
      five seconds have passed since the last message. */
  lemma BrowserIsToldExactlyWhen(c: Clock, t0: nat, events: seq<Event>, targetHz: U32, k: nat)
    requires c.Consistent() && c.discardedUs == 0 && k < |events| && events[k].Publish?
    ensures var told, h := LedgerAt(c, t0, events, targetHz, k).policy, LatestVerdict(c, t0, events, targetHz, k);
            var seen := Seen(c, t0, events, targetHz, k + 1);
            Announces(told, Observation(h, events[k].at)) <==>
              || Rank(h) > Rank(told.announced)
              || (Rank(h) < Rank(told.announced) && LastThree(seen, |seen|, h)
                  && Since(events[k].at, told.lastSent) >= MIN_INTERVAL_MS)
  {
    hide Announces, PolicyStep, LatestVerdict;
    var before, seen := Seen(c, t0, events, targetHz, k), Seen(c, t0, events, targetHz, k + 1);
    var o := Observation(LatestVerdict(c, t0, events, targetHz, k), events[k].at);
    AnnunciatorFollowsThePublishes(c, t0, events, targetHz, k);
    PolicyOfAPrefix(t0, before, [o], |before|);
    assert seen == before + [o] && seen[|before|] == o;
    AnnouncesExactlyWhen(t0, seen, |before|);
  }

  // ----- dropped messages and reconfigures -----

  /** Messages dropped since the last close in the first `n` events. */
  function DroppedInWindow(events: seq<Event>, n: nat): nat
    requires n <= |events|
  {
    if n == 0 then 0
    else match events[n - 1]
      case Iteration(_, _, _, _, drops) => DroppedInWindow(events, n - 1) + drops
      case CloseWindow(_, _, _) => 0
      case Publish(_) => DroppedInWindow(events, n - 1)
      case Reconfigure => DroppedInWindow(events, n - 1)
  }

  /** Those of them dropped before the window's last reconfigure; none if it saw no reconfigure. */
  function DroppedBeforeReset(events: seq<Event>, n: nat): (d: nat)
    requires n <= |events|
    ensures d <= DroppedInWindow(events, n)
  {
    if n == 0 then 0
    else match events[n - 1]
      case Iteration(_, _, _, _, _) => DroppedBeforeReset(events, n - 1)
      case CloseWindow(_, _, _) => 0
      case Publish(_) => DroppedBeforeReset(events, n - 1)
      case Reconfigure => DroppedInWindow(events, n - 1)
  }

  /** The open window has seen a reconfigure. */
  predicate ResetInWindow(events: seq<Event>, n: nat)
    requires n <= |events|
  {
    n > 0 && (events[n - 1].Reconfigure? || (!events[n - 1].CloseWindow? && ResetInWindow(events, n - 1)))
  }

  lemma {:induction false} DropCounters(c: Clock, t0: nat, events: seq<Event>, targetHz: U32, n: nat)
    requires c.Consistent() && c.discardedUs == 0 && n <= |events|
    ensures var l := LedgerAt(c, t0, events, targetHz, n);
            if ResetInWindow(events, n) then l.stats.sensorDrops == DroppedInWindow(events, n) - DroppedBeforeReset(events, n)
            else l.stats.sensorDrops == DroppedInWindow(events, n) + l.window.dropsAtStart
  {
    hide Step, Decide, Sound, PublishedPacing, RollUpSession, ReporterStep, RecordSession;
    if n > 0 {
      DropCounters(c, t0, events, targetHz, n - 1);
    }
  }

  /** A fault line names the drops of its own window exactly when no reconfigure fell into it, or there
      is nothing to lose: the reconfigure zeroes the count but not the window's baseline. It never
      names more. */
  lemma WindowDropsAreExactlyWhen(c: Clock, t0: nat, events: seq<Event>, targetHz: U32, n: nat)
    requires c.Consistent() && c.discardedUs == 0 && n <= |events|
    ensures var l := LedgerAt(c, t0, events, targetHz, n);
            && WindowDrops(l) <= DroppedInWindow(events, n)
            && (WindowDrops(l) == DroppedInWindow(events, n) <==>
                  || !ResetInWindow(events, n)
                  || DroppedInWindow(events, n) == 0
                  || l.window.dropsAtStart == DroppedBeforeReset(events, n) == 0)
  {
    hide Sound, LedgerStep;
    DropCounters(c, t0, events, targetHz, n);
  }

  /** Two drops in one window, a reconfigure, and one in the next: the next is reported as none. */
  lemma AReconfigureHidesDrops(c: Clock, t0: nat, wall: U64, targetHz: U32)
    requires c.Consistent() && c.discardedUs == 0
    ensures var events := [Iteration(wall, None, 0, 0, 2), CloseWindow(1_000_000, 1_000_000, t0 + 1_000), Reconfigure,
                           Iteration(wall, None, 0, 1, 1)];
            DroppedInWindow(events, 4) == 1 && WindowDrops(LedgerAt(c, t0, events, targetHz, 4)) == 0
  {
    hide Step, Decide, PublishedPacing, RollUpSession, ReporterStep, PolicyStep;
    var events := [Iteration(wall, None, 0, 0, 2), CloseWindow(1_000_000, 1_000_000, t0 + 1_000), Reconfigure,
                   Iteration(wall, None, 0, 1, 1)];
    assert LedgerAt(c, t0, events, targetHz, 1) == LedgerStep(Start(c, t0), events[0], targetHz);
    assert LedgerAt(c, t0, events, targetHz, 2) == LedgerStep(LedgerAt(c, t0, events, targetHz, 1), events[1], targetHz);
    assert LedgerAt(c, t0, events, targetHz, 3) == LedgerStep(LedgerAt(c, t0, events, targetHz, 2), events[2], targetHz);
    assert DroppedInWindow(events, 2) == 0 == DroppedInWindow(events, 3);
  }

  // ----- the whole session -----

  /** Once the published session is refused, it is refused at every later event. */
  lemma {:induction false} CompromisedIsForever(c: Clock, t0: nat, events: seq<Event>, targetHz: U32, i: nat, j: nat)
    requires c.Consistent() && c.discardedUs == 0 && i <= j <= |events|
    requires Compromised(LedgerAt(c, t0, events, targetHz, i).stats)
    ensures Compromised(LedgerAt(c, t0, events, targetHz, j).stats)
    decreases j - i
  {
    hide Compromised, LedgerStep, Sound;
    if i < j {
      CompromisedIsForever(c, t0, events, targetHz, i, j - 1);
      RefusalSurvives(LedgerAt(c, t0, events, targetHz, j - 1), events[j - 1], targetHz);
    }
  }

  /** The clock of an interleaving is the planner's run over its iterations alone. */
  function Walls(events: seq<Event>, n: nat): seq<U64>
    requires n <= |events|
  {
    if n == 0 then []
    else Walls(events, n - 1) + if events[n - 1].Iteration? then [events[n - 1].wall] else []
  }

  lemma {:induction false} StateOfAPrefix(c: Clock, a: seq<U64>, b: seq<U64>, n: nat)
    requires c.Consistent() && n <= |a|
    ensures StateAt(c, a + b, n) == StateAt(c, a, n)
  {
    hide Step;
    if n > 0 {
      StateOfAPrefix(c, a, b, n - 1);
    }
  }

  lemma {:induction false} ClockIgnoresWindows(c: Clock, t0: nat, events: seq<Event>, targetHz: U32, n: nat)
    requires c.Consistent() && c.discardedUs == 0 && n <= |events|
    ensures LedgerAt(c, t0, events, targetHz, n).clock == Final(c, Walls(events, n))
  {
    hide Step, Decide;
    if n > 0 {
      ClockIgnoresWindows(c, t0, events, targetHz, n - 1);
      var before := Walls(events, n - 1);
      if events[n - 1].Iteration? {
        StateOfAPrefix(c, before, [events[n - 1].wall], |before|);
      } else {
        assert Walls(events, n) == before;
      }
    }
  }

  /** What the gate refuses at a close, in any session: one that met a gap, in which time was lost or
      not, or whose worst window faulted. Lost milliseconds add no refusal of their own. */
  lemma RefusedExactlyWhenGapOrFault(
      c: Clock, t0: nat, events: seq<Event>, targetHz: U32, n: nat, windowUs: U64, sessionUs: U64)
    requires c.Consistent() && c.discardedUs == c.gapCount == c.maxGapUs == 0 && !c.sessionInvalid && n <= |events|
    ensures var s, walls := RollUp(LedgerAt(c, t0, events, targetHz, n), windowUs, sessionUs, targetHz).stats, Walls(events, n);
            Compromised(s) <==> GapsMet(c, walls, |walls|) > 0 || s.pacing.worst == Faulted
  {
    hide RollUp, Verdict, Sound;
    var walls := Walls(events, n);
    ClockIgnoresWindows(c, t0, events, targetHz, n);
    GapCountersAreTotals(c, walls, |walls|);
    CloseAnswersForEveryLoss(LedgerAt(c, t0, events, targetHz, n), windowUs, sessionUs, targetHz);
  }

  /** Where one step fits the threshold, what the gate refuses at a close is exactly a session whose
      worst window faulted: lost time and the invalid latch add no refusal of their own. */
  lemma RefusedExactlyWhenTheWorstWindowFaulted(
      c: Clock, t0: nat, events: seq<Event>, targetHz: U32, n: nat, windowUs: U64, sessionUs: U64)
    requires c.Consistent() && c.discardedUs == c.gapCount == 0 && !c.sessionInvalid && c.stepUs <= c.gapThresholdUs
    requires n <= |events|
    ensures var s := RollUp(LedgerAt(c, t0, events, targetHz, n), windowUs, sessionUs, targetHz).stats;
            Compromised(s) <==> s.pacing.worst == Faulted
  {
    var l := LedgerAt(c, t0, events, targetHz, n);
    ClockIgnoresWindows(c, t0, events, targetHz, n);
    LatchesAgreeAlways(c, Walls(events, n), |Walls(events, n)|);
    CloseAnswersForEveryLoss(l, windowUs, sessionUs, targetHz);
  }
}
