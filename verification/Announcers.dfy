/** The two rate-limited announcers of timebase health: the log reporter and the browser
    annunciator. Times are milliseconds of a monotonic clock. */
module Announcers {
  import opened Uint
  import opened Health

  const MIN_INTERVAL_MS: nat := 5_000
  const HEARTBEAT_MS: nat := 60_000
  const SETTLE_WINDOWS: nat := 3

  datatype Observation = Observation(health: Health, at: nat)

  /** `saturating_duration_since` */
  function Since(now: nat, then_: nat): nat { Max(now - then_, 0) }

  // ----- what any announcer that walks up and down three ranks owes -----

  /** How often consecutive ranks rise, and how often they fall. */
  function Rises(r: seq<nat>): nat {
    if |r| < 2 then 0 else Rises(r[..|r| - 1]) + (if r[|r| - 2] < r[|r| - 1] then 1 else 0)
  }

  function Falls(r: seq<nat>): nat {
    if |r| < 2 then 0 else Falls(r[..|r| - 1]) + (if r[|r| - 2] > r[|r| - 1] then 1 else 0)
  }

  /** Each rise climbs at least one rank and each fall drops at most two. */
  lemma {:induction false} RisesArePaidByFalls(r: seq<nat>)
    requires r != [] && r[0] == 0 && forall i :: 0 <= i < |r| ==> r[i] <= 2
    ensures Rises(r) <= r[|r| - 1] + 2 * Falls(r)
  {
    if |r| >= 2 {
      RisesArePaidByFalls(r[..|r| - 1]);
    }
  }

  lemma NoRiseYet()
    ensures Rises([0]) == Falls([0]) == 0
  {
  }

  lemma AppendRank(r: seq<nat>, rank: nat)
    requires r != []
    ensures Rises(r + [rank]) == Rises(r) + (if r[|r| - 1] < rank then 1 else 0)
    ensures Falls(r + [rank]) == Falls(r) + (if r[|r| - 1] > rank then 1 else 0)
  {
    assert (r + [rank])[..|r|] == r;
  }

  lemma WholeIntervals(count: int, time: int)
    requires MIN_INTERVAL_MS * count <= time
    ensures count <= time / MIN_INTERVAL_MS
  {
  }

  // ----- the log reporter -----

  datatype Announcement = Silent | Heartbeat | Recovered(from: Health) | AnnounceDegraded | AnnounceFaulted {
    /** A line about the health itself, not the once-a-minute proof of life. */
    predicate Speaks() { !Silent? && !Heartbeat? }
  }

  datatype Reporter = Reporter(lastWarning: nat, lastHeartbeat: nat, reported: Health)

  function NewReporter(now: nat): Reporter { Reporter(now, now, Ok) }

  predicate Throttled(s: Reporter, o: Observation) {
    Rank(o.health) <= Rank(s.reported) && Since(o.at, s.lastWarning) < MIN_INTERVAL_MS
  }

  function ReporterSays(s: Reporter, o: Observation): Announcement {
    if o.health == Ok && s.reported == Ok then
      if Since(o.at, s.lastHeartbeat) >= HEARTBEAT_MS then Heartbeat else Silent
    else if Throttled(s, o) then Silent
    else match o.health
      case Ok => Recovered(s.reported)
      case Degraded => AnnounceDegraded
      case Faulted => AnnounceFaulted
  }

  function ReporterStep(s: Reporter, o: Observation): Reporter {
    var said := ReporterSays(s, o);
    Reporter(if said.Speaks() then o.at else s.lastWarning,
             if said.Heartbeat? || said.Recovered? then o.at else s.lastHeartbeat,
             if said.Speaks() then o.health else s.reported)
  }

  class TimebaseReporter {
    var lastWarning: nat
    var lastHeartbeat: nat
    var reported: Health

    function View(): Reporter
      reads this
    {
      Reporter(lastWarning, lastHeartbeat, reported)
    }

    constructor (now: nat)
      ensures View() == NewReporter(now)
    {
      lastWarning, lastHeartbeat, reported := now, now, Ok;
    }

    method Decide(health: Health, now: nat) returns (said: Announcement)
      modifies this
      ensures said == ReporterSays(old(View()), Observation(health, now))
      ensures View() == ReporterStep(old(View()), Observation(health, now))
    {
      var escalated := Rank(health) > Rank(reported);
      var throttled := !escalated && Since(now, lastWarning) < MIN_INTERVAL_MS;
      if health == Ok {
        if reported != Ok {
          if throttled {
            return Silent;
          }
          var from := reported;
          reported, lastWarning, lastHeartbeat := Ok, now, now;
          return Recovered(from);
        }
        if Since(now, lastHeartbeat) >= HEARTBEAT_MS {
          lastHeartbeat := now;
          return Heartbeat;
        }
        return Silent;
      }
      if throttled {
        return Silent;
      }
      reported, lastWarning := health, now;
      said := if health == Faulted then AnnounceFaulted else AnnounceDegraded;
    }
  }

  function ReporterAt(t0: nat, obs: seq<Observation>, n: nat): Reporter
    requires n <= |obs|
  {
    if n == 0 then NewReporter(t0) else ReporterStep(ReporterAt(t0, obs, n - 1), obs[n - 1])
  }

  function TimeBefore(t0: nat, obs: seq<Observation>, n: nat): nat
    requires n <= |obs|
  {
    if n == 0 then t0 else obs[n - 1].at
  }

  ghost predicate InOrder(t0: nat, obs: seq<Observation>) {
    forall i :: 0 <= i < |obs| ==> TimeBefore(t0, obs, i) <= obs[i].at
  }

  /** One observation: what is on record is at least as bad as what was seen, an escalation is said at
      once and word for word, and anything else waits out the interval. */
  lemma ReporterNeverUnderstates(s: Reporter, o: Observation)
    ensures var d, said := ReporterStep(s, o), ReporterSays(s, o);
            && Rank(d.reported) >= Rank(o.health)
            && (Rank(o.health) > Rank(s.reported) ==> said.Speaks() && d.reported == o.health)
            && (said.Speaks() && Rank(o.health) <= Rank(s.reported) ==> Since(o.at, s.lastWarning) >= MIN_INTERVAL_MS)
            && (d.reported != s.reported ==> said.Speaks())
            && d.lastWarning == (if said.Speaks() then o.at else s.lastWarning)
            && (said.AnnounceFaulted? ==> o.health == Faulted) && (said.AnnounceDegraded? ==> o.health == Degraded)
            && (said.Recovered? ==> o.health == Ok && said.from == s.reported != Ok)
            && (said.Heartbeat? <==> o.health == s.reported == Ok && o.at - s.lastHeartbeat >= 60_000)
            && d.lastHeartbeat == (if said.Heartbeat? || said.Recovered? then o.at else s.lastHeartbeat)
  {
  }

  /** When a line goes out: at once for a worse health, and otherwise exactly when there is something to
      say, a fault standing or one to withdraw, and five seconds have passed since the last. It says the
      health observed, which then stands on record; a recovery is said exactly of a return to fine. */
  lemma ReporterSpeaksExactlyWhen(s: Reporter, o: Observation)
    ensures var d, said := ReporterStep(s, o), ReporterSays(s, o);
            && (said.Speaks() <==>
                  || Rank(o.health) > Rank(s.reported)
                  || (!(o.health == s.reported == Ok) && o.at - s.lastWarning >= 5_000))
            && d.reported == (if said.Speaks() then o.health else s.reported)
            && (o.at - s.lastWarning >= 5_000 ==> d.reported == o.health)
            && (said.Speaks() ==> said == match o.health
                                          case Ok => Recovered(s.reported)
                                          case Degraded => AnnounceDegraded
                                          case Faulted => AnnounceFaulted)
  {
  }

  /** A loop that starts and stays fine says so first a minute after its start. */
  lemma FirstHeartbeat(t0: nat, at: nat)
    ensures ReporterSays(NewReporter(t0), Observation(Ok, at)) == if at - t0 >= 60_000 then Heartbeat else Silent
  {
  }

  /** A verdict held until five seconds past the last line before it stands on record, whatever stood
      there: a fault that passed is withdrawn, and one that stays is repeated. */
  lemma {:induction false} HeldVerdictStands(t0: nat, obs: seq<Observation>, i: nat, j: nat)
    requires i <= j < |obs| && forall k :: i <= k <= j ==> obs[k].health == obs[j].health
    requires obs[j].at >= ReporterAt(t0, obs, i).lastWarning + 5_000
    ensures ReporterAt(t0, obs, j + 1).reported == obs[j].health
  {
    hide ReporterSays, ReporterStep;
    SaidSinceOrNot(t0, obs, i, j);
    ReporterSpeaksExactlyWhen(ReporterAt(t0, obs, j), obs[j]);
  }

  lemma {:induction false} SaidSinceOrNot(t0: nat, obs: seq<Observation>, i: nat, j: nat)
    requires i <= j < |obs| && forall k :: i <= k <= j ==> obs[k].health == obs[j].health
    ensures || ReporterAt(t0, obs, j).lastWarning == ReporterAt(t0, obs, i).lastWarning
            || ReporterAt(t0, obs, j).reported == obs[j].health
    decreases j - i
  {
    hide ReporterSays, ReporterStep;
    if i < j {
      SaidSinceOrNot(t0, obs, i, j - 1);
      ReporterSpeaksExactlyWhen(ReporterAt(t0, obs, j - 1), obs[j - 1]);
      ReporterNeverUnderstates(ReporterAt(t0, obs, j - 1), obs[j - 1]);
    }
  }

  function ReporterRanks(t0: nat, obs: seq<Observation>, n: nat): (r: seq<nat>)
    requires n <= |obs|
    ensures |r| == n + 1 && r[n] == Rank(ReporterAt(t0, obs, n).reported)
    ensures r[0] == 0 && forall i :: 0 <= i < |r| ==> r[i] <= 2
  {
    if n == 0 then [0] else ReporterRanks(t0, obs, n - 1) + [Rank(ReporterAt(t0, obs, n).reported)]
  }

  /** Lines the reporter emitted about health. */
  function Lines(t0: nat, obs: seq<Observation>, n: nat): nat
    requires n <= |obs|
  {
    if n == 0 then 0
    else Lines(t0, obs, n - 1) + (if ReporterSays(ReporterAt(t0, obs, n - 1), obs[n - 1]).Speaks() then 1 else 0)
  }

  /** Lines that are not escalations, each at least an interval after the line before it. */
  lemma {:induction false} QuietLinesAreSpaced(t0: nat, obs: seq<Observation>, n: nat)
    requires InOrder(t0, obs) && n <= |obs|
    ensures var s, r := ReporterAt(t0, obs, n), ReporterRanks(t0, obs, n);
            && t0 <= s.lastWarning <= TimeBefore(t0, obs, n)
            && Falls(r) + Rises(r) <= Lines(t0, obs, n)
            && MIN_INTERVAL_MS * (Lines(t0, obs, n) - Rises(r)) <= s.lastWarning - t0
  {
    hide ReporterSays, ReporterStep, Rises, Falls;
    if n > 0 {
      QuietLinesAreSpaced(t0, obs, n - 1);
      ReporterNeverUnderstates(ReporterAt(t0, obs, n - 1), obs[n - 1]);
      AppendRank(ReporterRanks(t0, obs, n - 1), Rank(ReporterAt(t0, obs, n).reported));
    } else {
      NoRiseYet();
    }
  }

  /** The log cannot be flooded: over any run, however the verdict flaps, the reporter emits at most
      two lines plus three for every five seconds. */
  lemma ReporterIsRateLimited(t0: nat, obs: seq<Observation>)
    requires InOrder(t0, obs) && obs != []
    ensures Lines(t0, obs, |obs|) <= 2 + 3 * ((obs[|obs| - 1].at - t0) / MIN_INTERVAL_MS)
    ensures Rises(ReporterRanks(t0, obs, |obs|)) <= 2 + 2 * Falls(ReporterRanks(t0, obs, |obs|))
  {
    hide Lines, Rises, Falls, ReporterAt, ReporterRanks, InOrder;
    QuietLinesAreSpaced(t0, obs, |obs|);
    RisesArePaidByFalls(ReporterRanks(t0, obs, |obs|));
    WholeIntervals(Lines(t0, obs, |obs|) - Rises(ReporterRanks(t0, obs, |obs|)), obs[|obs| - 1].at - t0);
  }

  // ----- the browser annunciator -----

  datatype Policy = Policy(announced: Health, candidate: Health, consecutive: U32, lastSent: nat)

  /** Backdated by one interval where the clock allows it. */
  function NewPolicy(now: nat): Policy {
    Policy(Ok, Ok, 0, if now >= MIN_INTERVAL_MS then now - MIN_INTERVAL_MS else now)
  }

  /** Length of the current run of equal observations, stopped at the last u32. */
  function RunAfter(s: Policy, o: Observation): U32 {
    if o.health == s.candidate then Min(s.consecutive + 1, U32_MAX) else 1
  }

  predicate Announces(s: Policy, o: Observation) {
    && o.health != s.announced
    && (|| Rank(o.health) > Rank(s.announced)
        || (RunAfter(s, o) >= SETTLE_WINDOWS && Since(o.at, s.lastSent) >= MIN_INTERVAL_MS))
  }

  function PolicyStep(s: Policy, o: Observation): Policy {
    Policy(if Announces(s, o) then o.health else s.announced, o.health, RunAfter(s, o),
           if Announces(s, o) then o.at else s.lastSent)
  }

  datatype Transition = NoChange | Change(to: Health, from: Health)

  class AnnunciatorPolicy {
    var announced: Health
    var candidate: Health
    var consecutive: U32
    var lastSent: nat

    function View(): Policy
      reads this
    {
      Policy(announced, candidate, consecutive, lastSent)
    }

    constructor (now: nat)
      ensures View() == NewPolicy(now)
    {
      announced, candidate, consecutive := Ok, Ok, 0;
      lastSent := if now >= MIN_INTERVAL_MS then now - MIN_INTERVAL_MS else now;
    }

    method Observe(observed: Health, now: nat) returns (change: Transition)
      modifies this
      ensures View() == PolicyStep(old(View()), Observation(observed, now))
      ensures change == if Announces(old(View()), Observation(observed, now))
                        then Change(observed, old(announced)) else NoChange
    {
      if observed == candidate {
        consecutive := SatAdd32(consecutive, 1);
      } else {
        candidate, consecutive := observed, 1;
      }
      if observed == announced {
        return NoChange;
      }
      var escalating := Rank(observed) > Rank(announced);
      var settled := consecutive >= SETTLE_WINDOWS && Since(now, lastSent) >= MIN_INTERVAL_MS;
      if !escalating && !settled {
        return NoChange;
      }
      var previous := announced;
      announced, lastSent := observed, now;
      change := Change(observed, previous);
    }
  }

  function PolicyAt(t0: nat, obs: seq<Observation>, n: nat): Policy
    requires n <= |obs|
  {
    if n == 0 then NewPolicy(t0) else PolicyStep(PolicyAt(t0, obs, n - 1), obs[n - 1])
  }

  function Messages(t0: nat, obs: seq<Observation>, n: nat): nat
    requires n <= |obs|
  {
    if n == 0 then 0
    else Messages(t0, obs, n - 1) + (if Announces(PolicyAt(t0, obs, n - 1), obs[n - 1]) then 1 else 0)
  }

  /** How many observations up to the n-th are equal to it, without a break. */
  function RunLength(obs: seq<Observation>, n: nat): nat
    requires n <= |obs|
  {
    if n == 0 then 0
    else if n >= 2 && obs[n - 1].health == obs[n - 2].health then RunLength(obs, n - 1) + 1
    else 1
  }

  lemma {:induction false} RunLengthBounded(obs: seq<Observation>, n: nat)
    requires n <= |obs|
    ensures RunLength(obs, n) <= n
    ensures forall k :: n - RunLength(obs, n) <= k < n ==> obs[k].health == obs[n - 1].health
  {
    if n > 0 {
      RunLengthBounded(obs, n - 1);
    }
  }

  /** The counter is the length of the run being observed. */
  lemma {:induction false} CounterIsTheRun(t0: nat, obs: seq<Observation>, n: nat)
    requires n <= |obs|
    ensures PolicyAt(t0, obs, n).consecutive == Min(RunLength(obs, n), U32_MAX)
    ensures PolicyAt(t0, obs, n).candidate == if n == 0 then Ok else obs[n - 1].health
  {
    if n > 0 {
      CounterIsTheRun(t0, obs, n - 1);
    }
  }

  ghost predicate LastThree(obs: seq<Observation>, n: nat, h: Health)
    requires n <= |obs|
  {
    n >= 3 && obs[n - 1].health == obs[n - 2].health == obs[n - 3].health == h
  }

  lemma {:induction false} RunOfThree(obs: seq<Observation>, n: nat)
    requires 1 <= n <= |obs|
    ensures RunLength(obs, n) >= 3 <==> LastThree(obs, n, obs[n - 1].health)
  {
    RunLengthBounded(obs, n);
    if LastThree(obs, n, obs[n - 1].health) {
      assert RunLength(obs, n) == RunLength(obs, n - 1) + 1 == RunLength(obs, n - 2) + 2;
    }
  }

  /** When the browser hears something: at once for a worse verdict; for a better one exactly when it
      is the third in a row and five seconds have passed since the last message. What it hears is the
      verdict observed, which then stands announced. */
  lemma AnnouncesExactlyWhen(t0: nat, obs: seq<Observation>, i: nat)
    requires i < |obs|
    ensures var s, o := PolicyAt(t0, obs, i), obs[i];
            && Rank(PolicyAt(t0, obs, i + 1).announced) >= Rank(o.health)
            && PolicyAt(t0, obs, i + 1).announced == (if Announces(s, o) then o.health else s.announced)
            && (Announces(s, o) <==>
                || Rank(o.health) > Rank(s.announced)
                || (Rank(o.health) < Rank(s.announced) && LastThree(obs, i + 1, o.health)
                    && o.at - s.lastSent >= 5_000))
  {
    CounterIsTheRun(t0, obs, i);
    CounterIsTheRun(t0, obs, i + 1);
    RunOfThree(obs, i + 1);
  }

  function PolicyRanks(t0: nat, obs: seq<Observation>, n: nat): (r: seq<nat>)
    requires n <= |obs|
    ensures |r| == n + 1 && r[n] == Rank(PolicyAt(t0, obs, n).announced)
    ensures r[0] == 0 && forall i :: 0 <= i < |r| ==> r[i] <= 2
  {
    if n == 0 then [0] else PolicyRanks(t0, obs, n - 1) + [Rank(PolicyAt(t0, obs, n).announced)]
  }

  lemma {:induction false} TimeIsOrdered(t0: nat, obs: seq<Observation>, n: nat)
    requires InOrder(t0, obs) && 1 <= n <= |obs|
    ensures t0 <= obs[n - 1].at
  {
    assert TimeBefore(t0, obs, n - 1) <= obs[n - 1].at;
    if n > 1 {
      TimeIsOrdered(t0, obs, n - 1);
    }
  }

  /** The first message is an escalation, and each recovery leaves at least an interval after the message
      before it. */
  lemma {:induction false} RecoveriesAreSpaced(t0: nat, obs: seq<Observation>, n: nat)
    requires InOrder(t0, obs) && n <= |obs|
    ensures var s, r := PolicyAt(t0, obs, n), PolicyRanks(t0, obs, n);
            && s.lastSent <= TimeBefore(t0, obs, n)
            && Messages(t0, obs, n) == Falls(r) + Rises(r)
            && (Messages(t0, obs, n) == 0 ==> s.announced == Ok && Falls(r) == 0)
            && (Messages(t0, obs, n) > 0 ==> t0 <= s.lastSent && 5_000 * Falls(r) <= s.lastSent - t0)
  {
    hide Rises, Falls;
    if n > 0 {
      RecoveriesAreSpaced(t0, obs, n - 1);
      TimeIsOrdered(t0, obs, n);
      AppendRank(PolicyRanks(t0, obs, n - 1), Rank(PolicyAt(t0, obs, n).announced));
    } else {
      NoRiseYet();
    }
  }

  /** The person flying is not flooded: at most two messages plus three for every five seconds. */
  lemma AnnunciatorIsRateLimited(t0: nat, obs: seq<Observation>)
    requires InOrder(t0, obs) && obs != []
    ensures Messages(t0, obs, |obs|) <= 2 + 3 * ((obs[|obs| - 1].at - t0) / 5_000)
    ensures Rises(PolicyRanks(t0, obs, |obs|)) <= 2 + 2 * Falls(PolicyRanks(t0, obs, |obs|))
  {
    hide Messages, Rises, Falls, PolicyAt, PolicyRanks, InOrder;
    RecoveriesAreSpaced(t0, obs, |obs|);
    RisesArePaidByFalls(PolicyRanks(t0, obs, |obs|));
    if Messages(t0, obs, |obs|) > 0 {
      WholeIntervals(Falls(PolicyRanks(t0, obs, |obs|)), obs[|obs| - 1].at - t0);
    } else {
      TimeIsOrdered(t0, obs, |obs|);
    }
  }

  lemma {:induction false} FlappingOnlyEscalates(t0: nat, obs: seq<Observation>, n: nat)
    requires n <= |obs| && forall k :: 0 <= k <= |obs| ==> RunLength(obs, k) < 3
    ensures Messages(t0, obs, n) <= Rank(PolicyAt(t0, obs, n).announced)
  {
    if n > 0 {
      FlappingOnlyEscalates(t0, obs, n - 1);
      CounterIsTheRun(t0, obs, n);
    }
  }

  /** A health that is never observed three times in a row is announced at most twice, however long it
      flaps. What is observed is a published snapshot, not a window. */
  lemma FlappingAnnouncesAtMostTwice(t0: nat, obs: seq<Observation>)
    requires forall k :: 0 <= k <= |obs| ==> RunLength(obs, k) < 3
    ensures Messages(t0, obs, |obs|) <= 2
  {
    FlappingOnlyEscalates(t0, obs, |obs|);
  }

  // ----- windows published more than once -----

  /** What the annunciator observes when each window's verdict is published `p` times, the i-th
      publication at `at(i)`. */
  function Published(windows: seq<Health>, p: nat, at: nat -> nat): (obs: seq<Observation>)
    ensures forall i :: 0 <= i < |obs| ==> obs[i].at == at(i)
  {
    if windows == [] then []
    else
      var before := Published(windows[..|windows| - 1], p, at);
      before + seq(p, j requires 0 <= j < p => Observation(windows[|windows| - 1], at(|before| + j)))
  }

  /** No verdict holds for three windows in a row. */
  ghost predicate Flapping(windows: seq<Health>) {
    forall i :: 0 <= i && i + 2 < |windows| ==> !(windows[i] == windows[i + 1] == windows[i + 2])
  }

  /** However and whenever the windows flap, the browser hears of at most two changes. */
  ghost predicate FlappingIsQuiet(t0: nat, p: nat) {
    forall windows, at: nat -> nat | Flapping(windows) && Climbs(t0, at) :: QuietOver(t0, windows, p, at)
  }

  ghost predicate Climbs(t0: nat, at: nat -> nat) { t0 <= at(0) && forall i: nat, j: nat :: i <= j ==> at(i) <= at(j) }

  ghost predicate QuietOver(t0: nat, windows: seq<Health>, p: nat, at: nat -> nat) {
    Messages(t0, Published(windows, p, at), |Published(windows, p, at)|) <= 2
  }

  lemma {:induction false} PublishedOnce(windows: seq<Health>, at: nat -> nat)
    ensures var obs := Published(windows, 1, at);
            |obs| == |windows| && forall i :: 0 <= i < |obs| ==> obs[i].health == windows[i]
  {
    if windows != [] {
      PublishedOnce(windows[..|windows| - 1], at);
    }
  }

  lemma OnceIsQuiet(t0: nat, windows: seq<Health>, at: nat -> nat)
    requires Flapping(windows)
    ensures QuietOver(t0, windows, 1, at)
  {
    var obs := Published(windows, 1, at);
    PublishedOnce(windows, at);
    forall k | 0 <= k <= |obs| ensures RunLength(obs, k) < 3 {
      if k > 0 {
        RunOfThree(obs, k);
        if k >= 3 {
          assert !(windows[k - 3] == windows[k - 3 + 1] == windows[k - 3 + 2]);
        }
      }
    }
    FlappingAnnouncesAtMostTwice(t0, obs);
  }

  /** Between two points at which different healths stand announced, a message went out. */
  lemma {:induction false} EachChangeIsAMessage(t0: nat, obs: seq<Observation>, i: nat, j: nat)
    requires i <= j <= |obs|
    ensures Messages(t0, obs, i) <= Messages(t0, obs, j)
    ensures PolicyAt(t0, obs, i).announced != PolicyAt(t0, obs, j).announced ==> Messages(t0, obs, i) < Messages(t0, obs, j)
    decreases j - i
  {
    if i < j {
      EachChangeIsAMessage(t0, obs, i, j - 1);
    }
  }

  /** A third equal observation in a row, an interval after the one before it, leaves that health
      announced. */
  lemma ThirdInARowStands(t0: nat, obs: seq<Observation>, n: nat)
    requires InOrder(t0, obs) && 3 <= n <= |obs| && LastThree(obs, n, Ok)
    requires obs[n - 1].at >= obs[n - 2].at + MIN_INTERVAL_MS
    ensures PolicyAt(t0, obs, n).announced == Ok
  {
    hide PolicyAt, Announces, InOrder;
    AnnouncesExactlyWhen(t0, obs, n - 1);
    SentByNow(t0, obs, n - 1);
    PolicyOneMore(t0, obs, n - 1);
  }

  lemma SentByNow(t0: nat, obs: seq<Observation>, n: nat)
    requires InOrder(t0, obs) && 1 <= n <= |obs|
    ensures PolicyAt(t0, obs, n).lastSent <= obs[n - 1].at
  {
    hide PolicyAt, InOrder, Falls, Rises, PolicyRanks, Messages;
    RecoveriesAreSpaced(t0, obs, n);
  }

  lemma PolicyOneMore(t0: nat, obs: seq<Observation>, n: nat)
    requires n < |obs|
    ensures PolicyAt(t0, obs, n + 1) == PolicyStep(PolicyAt(t0, obs, n), obs[n])
  {
  }

  lemma FaultStands(t0: nat, obs: seq<Observation>, n: nat)
    requires 1 <= n <= |obs| && obs[n - 1].health == Faulted
    ensures PolicyAt(t0, obs, n).announced == Faulted
  {
  }

  lemma OneMoreWindow(windows: seq<Health>, h: Health, p: nat, at: nat -> nat)
    ensures var before, after := Published(windows, p, at), Published(windows + [h], p, at);
            && |after| == |before| + p && after[..|before|] == before
            && forall j :: |before| <= j < |after| ==> after[j].health == h
  {
    assert (windows + [h])[..|windows|] == windows;
  }

  /** A fault, two healthy windows and a fault, each published `p` times. */
  lemma FaultOkOkFault(p: nat, at: nat -> nat)
    ensures var obs := Published([Faulted, Ok, Ok, Faulted], p, at);
            && |obs| == p + p + p + p
            && (forall i :: 0 <= i < |obs| ==> obs[i].health == if p <= i < p + p + p then Ok else Faulted)
  {
    hide Published;
    NothingPublished(p, at);
    OneMoreWindow([], Faulted, p, at);
    OneMoreWindow([Faulted], Ok, p, at);
    OneMoreWindow([Faulted, Ok], Ok, p, at);
    OneMoreWindow([Faulted, Ok, Ok], Faulted, p, at);
    assert [] + [Faulted] == [Faulted] && [Faulted] + [Ok] == [Faulted, Ok];
    assert [Faulted, Ok] + [Ok] == [Faulted, Ok, Ok] && [Faulted, Ok, Ok] + [Faulted] == [Faulted, Ok, Ok, Faulted];
    var three, all := Published([Faulted, Ok, Ok], p, at), Published([Faulted, Ok, Ok, Faulted], p, at);
    forall i | 0 <= i < |three| ensures all[i].health == if p <= i then Ok else Faulted {
      assert all[i] == three[i];
      if i < p + p {
        assert three[i] == Published([Faulted, Ok], p, at)[i];
      }
    }
  }

  lemma NothingPublished(p: nat, at: nat -> nat)
    ensures Published([], p, at) == []
  {
  }

  lemma NothingAnnounced(t0: nat, obs: seq<Observation>)
    ensures PolicyAt(t0, obs, 0).announced == Ok
  {
  }

  /** Three changes of what stands announced, hence three messages. */
  lemma ThreeMessages(t0: nat, obs: seq<Observation>, p: nat)
    requires p >= 2 && |obs| == p + p + p + p && InOrder(t0, obs)
    requires forall i :: 0 <= i < |obs| ==> obs[i].health == if p <= i < p + p + p then Ok else Faulted
    requires obs[p + 2].at >= obs[p + 1].at + MIN_INTERVAL_MS
    ensures Messages(t0, obs, |obs|) >= 3
  {
    hide PolicyAt, Messages, InOrder;
    NothingAnnounced(t0, obs);
    FaultStands(t0, obs, 1);
    ThirdInARowStands(t0, obs, p + 3);
    FaultStands(t0, obs, |obs|);
    EachChangeIsAMessage(t0, obs, 0, 1);
    EachChangeIsAMessage(t0, obs, 1, p + 3);
    EachChangeIsAMessage(t0, obs, p + 3, |obs|);
  }

  /** One publication each interval. */
  function EachInterval(t0: nat): nat -> nat { i => t0 + MIN_INTERVAL_MS * i }

  lemma EachIntervalIsInOrder(t0: nat, obs: seq<Observation>)
    requires forall i :: 0 <= i < |obs| ==> obs[i].at == EachInterval(t0)(i)
    ensures InOrder(t0, obs) && Climbs(t0, EachInterval(t0))
    ensures forall i :: 0 < i < |obs| ==> obs[i].at == TimeBefore(t0, obs, i) + MIN_INTERVAL_MS
  {
  }

  lemma FaultOkOkFaultIsLoud(t0: nat, p: nat)
    requires p >= 2
    ensures !QuietOver(t0, [Faulted, Ok, Ok, Faulted], p, EachInterval(t0))
  {
    hide Messages, Published, EachInterval, InOrder, Climbs;
    var at := EachInterval(t0);
    var obs := Published([Faulted, Ok, Ok, Faulted], p, at);
    FaultOkOkFault(p, at);
    EachIntervalIsInOrder(t0, obs);
    assert TimeBefore(t0, obs, p + 2) == obs[p + 1].at;
    ThreeMessages(t0, obs, p);
  }

  lemma TwiceIsNot(t0: nat, p: nat)
    requires p >= 2
    ensures !FlappingIsQuiet(t0, p)
  {
    hide QuietOver, EachInterval;
    FaultOkOkFaultIsLoud(t0, p);
    EachIntervalIsInOrder(t0, []);
    assert Flapping([Faulted, Ok, Ok, Faulted]);
  }

  /** The policy keeps quiet over windows that flap exactly when each of them is published once: then
      observations are windows. The loop publishes about twice a window. */
  lemma FlappingIsQuietExactlyWhenPublishedOnce(t0: nat, p: nat)
    requires p >= 1
    ensures FlappingIsQuiet(t0, p) <==> p == 1
  {
    if p == 1 {
      forall windows, at: nat -> nat | Flapping(windows) && Climbs(t0, at) ensures QuietOver(t0, windows, p, at) {
        OnceIsQuiet(t0, windows, at);
      }
    } else {
      TwiceIsNot(t0, p);
    }
  }

  /** At the daemon's own pace: seven one-second windows that flap, a snapshot every half second. */
  function HalfSeconds(t0: nat): (obs: seq<Observation>)
    ensures |obs| == 13
  {
    seq(13, i requires 0 <= i < 13 => Observation(if i < 2 || i == 6 || i == 7 || i == 12 then Faulted else Ok, t0 + 500 * i))
  }

  /** They announce three times within six seconds of the first, at the fault, the recovery and the next
      fault, though no verdict held for three windows. */
  lemma HalfSecondPublishesCanAnnounceThrice(t0: nat)
    ensures var obs, windows := HalfSeconds(t0), [Faulted, Ok, Ok, Faulted, Ok, Ok, Faulted];
            && Flapping(windows) && (forall i :: 0 <= i < 13 ==> obs[i] == Observation(windows[i / 2], t0 + 500 * i))
            && Messages(t0, obs, 13) >= 3
  {
    hide PolicyAt, Messages;
    var obs := HalfSeconds(t0);
    NothingAnnounced(t0, obs);
    FaultStands(t0, obs, 1);
    RecoversAtFiveSeconds(t0);
    FaultStands(t0, obs, 13);
    EachChangeIsAMessage(t0, obs, 0, 1);
    EachChangeIsAMessage(t0, obs, 1, 11);
    EachChangeIsAMessage(t0, obs, 11, 13);
  }

  lemma RecoversAtFiveSeconds(t0: nat)
    ensures PolicyAt(t0, HalfSeconds(t0), 11).announced == Ok
  {
    var obs := HalfSeconds(t0);
    assert PolicyAt(t0, obs, 1) == Policy(Faulted, Faulted, 1, t0);
    assert PolicyAt(t0, obs, 3) == Policy(Faulted, Ok, 1, t0);
    assert PolicyAt(t0, obs, 5) == Policy(Faulted, Ok, 3, t0);
    assert PolicyAt(t0, obs, 7) == Policy(Faulted, Faulted, 1, t0);
    assert PolicyAt(t0, obs, 9) == Policy(Faulted, Ok, 1, t0);
  }
}
