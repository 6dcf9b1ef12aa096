/** The readiness wait after an estimator restart. */
module Px4Ready {
  import opened Uint
  import opened Wrappers
  import opened Px4Health

  datatype Timing = Timing(healthGuard: nat, readyTimeout: nat, sysStatusAbsent: nat)

  /** One wait: what arrives while it lasts, when the restart began and was confirmed, when the wait
      itself starts. */
  datatype Wait = Wait(trace: seq<Received>, beganAt: nat, confirmedAt: nat, timing: Timing, start: nat) {
    function ReadyAfter(): nat { confirmedAt + timing.healthGuard }
    function AbsentBy(): nat { confirmedAt + timing.sysStatusAbsent }
    function GiveUpAt(): nat { confirmedAt + timing.readyTimeout }

    /** The snapshot at `t` is a pass the guard accepts. */
    predicate PassesAt(t: nat) {
      var v := VerdictBy(trace, t);
      v.Some? && v.value.canArm && v.value.at >= ReadyAfter()
    }

    /** The snapshot at `t` was received after the confirmation. */
    predicate HeardBy(t: nat) {
      var v := VerdictBy(trace, t);
      v.Some? && v.value.at >= confirmedAt
    }

    function ReasonBy(t: nat): Reason {
      var f := FailBy(trace, t);
      if f.Some? && f.value.at >= beganAt then Px4Said(f.value.text) else NotReadyInTime(timing.readyTimeout / 1000)
    }
  }

  datatype Reason = Px4Said(text: string) | NotReadyInTime(seconds: nat)

  /** How a wait ends, and when. "Unknown" is decided on a snapshot taken at `seen`. */
  datatype Outcome = Healthy(at: nat) | Unknown(seen: nat, at: nat) | Failed(reason: Reason, at: nat)

  /** Arrival of the first verdict after `t`, or `none` if none is to come. */
  function NextVerdict(trace: seq<Received>, t: nat, none: nat): (n: nat) {
    if trace == [] then none
    else if trace[0].SysStatus? && trace[0].at > t then Min(trace[0].at, none)
    else NextVerdict(trace[1..], t, none)
  }

  lemma {:induction false} NothingBeforeTheNextVerdict(trace: seq<Received>, t: nat, none: nat)
    requires Ordered(trace) && none > t
    ensures t < NextVerdict(trace, t, none) <= none
    ensures forall i :: 0 <= i < |trace| && trace[i].SysStatus? && trace[i].at > t ==>
              trace[i].at >= NextVerdict(trace, t, none)
  {
    if trace != [] && !(trace[0].SysStatus? && trace[0].at > t) {
      NothingBeforeTheNextVerdict(trace[1..], t, none);
      forall i | 0 <= i < |trace| && trace[i].SysStatus? && trace[i].at > t
        ensures trace[i].at >= NextVerdict(trace, t, none)
      {
        assert trace[i] == trace[1..][i - 1];
      }
    }
  }

  /** Between arrivals the snapshot does not change. */
  lemma {:induction false} SameSnapshot(trace: seq<Received>, t: nat, u: nat)
    requires t <= u && forall i :: 0 <= i < |trace| && trace[i].SysStatus? && trace[i].at > t ==> trace[i].at > u
    ensures VerdictBy(trace, t) == VerdictBy(trace, u)
  {
    if trace != [] {
      SameSnapshot(trace[..|trace| - 1], t, u);
    }
  }

  /** Whatever delays the wait: a pass rests on an accepted verdict, "unknown" on silence from the
      confirmation to its snapshot, a failure on the timeout, and its text on a refusal received since
      the restart. */
  ghost predicate Grounded(w: Wait, o: Outcome) {
    match o
    case Healthy(at) =>
      exists i: nat :: IsLastVerdict(w.trace, at, i) && w.trace[i].canArm && w.trace[i].at >= w.confirmedAt + w.timing.healthGuard
    case Unknown(seen, at) =>
      at >= w.confirmedAt + w.timing.sysStatusAbsent && at >= seen && forall m :: m in w.trace && m.SysStatus? && m.at <= seen ==> m.at < w.confirmedAt
    case Failed(reason, at) =>
      && at >= w.confirmedAt + w.timing.readyTimeout
      && match reason
         case Px4Said(text) => exists i: nat :: IsLastRefusal(w.trace, at, i) && w.trace[i].text == text && w.trace[i].at >= w.beganAt
         case NotReadyInTime(seconds) =>
           seconds == w.timing.readyTimeout / 1000 && forall m <- w.trace :: IsRefusal(m) && m.at <= at ==> m.at < w.beganAt
  }

  /** By `t` the last verdict is a pass received at least the guard after the confirmation. */
  ghost predicate PassShown(w: Wait, t: nat) {
    exists i: nat :: IsLastVerdict(w.trace, t, i) && w.trace[i].canArm && w.trace[i].at >= w.confirmedAt + w.timing.healthGuard
  }

  /** By `t` the last verdict was received since the confirmation. */
  ghost predicate HeardShown(w: Wait, t: nat) {
    exists i: nat :: IsLastVerdict(w.trace, t, i) && w.trace[i].at >= w.confirmedAt
  }

  lemma SnapshotMeans(w: Wait, t: nat)
    ensures w.PassesAt(t) <==> PassShown(w, t)
    ensures w.HeardBy(t) <==> HeardShown(w, t)
  {
    VerdictByIsTheLast(w.trace, t);
  }

  /** What the wait comes to when it is woken on time, read off the trace alone: the first pass up to the
      timeout if anything was heard in time, silence at its deadline otherwise, the timeout last. */
  ghost predicate Expected(w: Wait, o: Outcome) {
    var silence, end := Max(w.start, w.confirmedAt + w.timing.sysStatusAbsent), Max(w.start, w.confirmedAt + w.timing.readyTimeout);
    match o
    case Unknown(seen, at) => seen == at == silence && !HeardShown(w, silence)
    case Healthy(at) =>
      HeardShown(w, silence) && w.start <= at <= end && PassShown(w, at) && forall t: nat :: w.start <= t < at ==> !PassShown(w, t)
    case Failed(reason, at) =>
      HeardShown(w, silence) && at == end && reason == w.ReasonBy(end) && forall t: nat :: w.start <= t <= end ==> !PassShown(w, t)
  }

  lemma ExpectedIsAFunction(w: Wait, o: Outcome, o': Outcome)
    requires Expected(w, o) && Expected(w, o')
    ensures o == o'
  {
    if o.Healthy? && o'.Healthy? {
      assert !(o.at < o'.at) && !(o'.at < o.at);
    }
  }

  lemma StaysHeard(w: Wait, t: nat, u: nat)
    requires Ordered(w.trace) && t <= u && w.HeardBy(t)
    ensures w.HeardBy(u)
  {
    VerdictByIsLatest(w.trace, t);
    VerdictByIsLatest(w.trace, u);
    var v := VerdictBy(w.trace, t).value;
    var i :| 0 <= i < |w.trace| && w.trace[i] == SysStatus(v.canArm, v.at);
  }

  /** Where a wait woken on time stands on entering its loop at `now`: nothing has passed yet, and it
      has either not heard and is not past the silence deadline, or heard by that deadline. */
  ghost predicate OnTime(w: Wait, now: nat, heard: bool) {
    var silence := Max(w.start, w.AbsentBy());
    && w.start <= now <= Max(w.start, w.GiveUpAt())
    && (forall t: nat :: w.start <= t < now ==> !w.PassesAt(t))
    && (if heard then w.HeardBy(silence) else now <= silence)
  }

  /** Hearing something on time is hearing it by the silence deadline. */
  lemma HeardOnTime(w: Wait, now: nat, heard: bool)
    requires Ordered(w.trace) && OnTime(w, now, heard) && (heard || w.HeardBy(now))
    ensures w.HeardBy(Max(w.start, w.AbsentBy()))
  {
    if !heard {
      StaysHeard(w, now, Max(w.start, w.AbsentBy()));
    }
  }

  lemma EndsAsExpected(w: Wait, now: nat, heard: bool)
    requires Ordered(w.trace) && w.start >= w.confirmedAt && OnTime(w, now, heard)
    requires w.timing.sysStatusAbsent <= w.timing.readyTimeout
    ensures w.PassesAt(now) ==> Expected(w, Healthy(now))
    ensures !heard && !w.HeardBy(now) && now >= w.AbsentBy() ==> Expected(w, Unknown(now, now))
    ensures (heard || w.HeardBy(now)) && !w.PassesAt(now) && now >= w.GiveUpAt() ==>
              Expected(w, Failed(w.ReasonBy(now), now))
  {
    hide PassShown, HeardShown;
    if heard || w.HeardBy(now) {
      HeardOnTime(w, now, heard);
    }
    SnapshotMeans(w, Max(w.start, w.AbsentBy()));
    SnapshotMeans(w, now);
    forall t: nat | w.start <= t <= now ensures w.PassesAt(t) <==> PassShown(w, t) {
      SnapshotMeans(w, t);
    }
  }

  lemma WakesOnTime(w: Wait, now: nat, heard: bool, stillHeard: bool)
    requires Ordered(w.trace) && OnTime(w, now, heard) && stillHeard == (heard || w.HeardBy(now))
    requires w.timing.sysStatusAbsent <= w.timing.readyTimeout
    requires !w.PassesAt(now) && now < w.GiveUpAt() && (stillHeard || now < w.AbsentBy())
    ensures OnTime(w, NextVerdict(w.trace, now, DueBy(w, stillHeard)), stillHeard)
  {
    var wake := NextVerdict(w.trace, now, DueBy(w, stillHeard));
    NothingBeforeTheNextVerdict(w.trace, now, DueBy(w, stillHeard));
    if stillHeard {
      HeardOnTime(w, now, heard);
    }
    forall t: nat | w.start <= t < wake ensures !w.PassesAt(t) {
      if t >= now {
        SameSnapshot(w.trace, now, t);
      }
    }
  }

  /** When the wait wakes if nothing arrives. */
  function DueBy(w: Wait, heard: bool): nat {
    if heard then w.GiveUpAt() else Min(w.AbsentBy(), w.GiveUpAt())
  }

  /** An outcome read off a snapshot rests on what was received, however late it was read and however
      long after it the clock and the refusal were. */
  lemma SnapshotGroundsTheOutcome(w: Wait, seen: nat, now: nat, read: nat)
    requires Ordered(w.trace) && seen <= now <= read
    ensures w.PassesAt(seen) ==> Grounded(w, Healthy(seen))
    ensures !w.HeardBy(seen) && now >= w.AbsentBy() ==> Grounded(w, Unknown(seen, now))
    ensures now >= w.GiveUpAt() ==> Grounded(w, Failed(w.ReasonBy(read), read))
  {
    VerdictByIsLatest(w.trace, seen);
    VerdictByIsTheLast(w.trace, seen);
    FailByIsTheLast(w.trace, read);
    var fail := FailBy(w.trace, read);
    if fail.Some? {
      var i: nat :| IsLastRefusal(w.trace, read, i);
      if fail.value.at < w.beganAt {
        forall m | m in w.trace && IsRefusal(m) && m.at <= read ensures m.at < w.beganAt {
          EarlierThanTheLastRefusal(w.trace, read, i, m);
        }
      }
    }
  }

  lemma EarlierThanTheLastRefusal(trace: seq<Received>, t: nat, i: nat, m: Received)
    requires Ordered(trace) && IsLastRefusal(trace, t, i) && m in trace && IsRefusal(m) && m.at <= t
    ensures m.at <= trace[i].at
  {
    var j :| 0 <= j < |trace| && trace[j] == m;
  }

  /** What delays a wait: the k-th wake-up past the moment it was due, the k-th reading of the clock past
      the snapshot, and the reading of the refusal past the last clock. */
  datatype Delays = Delays(wake: nat -> nat, clock: nat -> nat, refusal: nat) {
    ghost predicate Absent() { refusal == 0 && forall k :: wake(k) == clock(k) == 0 }
  }

  /** Waits. A verdict that arrives between a snapshot and the clock read after it wakes the next round
      at once. */
  method WaitForPx4Ready(w: Wait, delays: Delays) returns (outcome: Outcome)
    requires Ordered(w.trace) && w.start >= w.confirmedAt
    ensures outcome.at >= w.start && Grounded(w, outcome)
    ensures outcome.Unknown? ==> exists k :: outcome.at == outcome.seen + delays.clock(k)
    ensures delays.Absent() && w.timing.sysStatusAbsent <= w.timing.readyTimeout ==>
              Expected(w, outcome) && outcome.at <= Max(w.start, w.confirmedAt + w.timing.readyTimeout)
  {
    hide VerdictBy, FailBy, NextVerdict, Grounded, Expected, OnTime;
    ghost var prompt := delays.Absent() && w.timing.sysStatusAbsent <= w.timing.readyTimeout;
    if prompt { StartsOnTime(w); }
    var heard := false;
    var seen, round := w.start, 0;
    while true
      invariant seen >= w.start
      invariant heard ==> w.HeardBy(seen)
      invariant prompt ==> OnTime(w, seen, heard)
      decreases w.GiveUpAt() - seen
    {
      var now := seen + delays.clock(round);
      SnapshotGroundsTheOutcome(w, seen, now, now + delays.refusal);
      if prompt {
        EndsAsExpected(w, now, heard);
        EndsInTime(w, now, heard);
      }
      ghost var heardBefore := heard;
      var current := VerdictBy(w.trace, seen);
      if current.Some? {
        heard := heard || current.value.at >= w.confirmedAt;
        if current.value.canArm && current.value.at >= w.ReadyAfter() {
          return Healthy(seen);
        }
      }
      if !heard && now >= w.AbsentBy() {
        return Unknown(seen, now);
      }
      if now >= w.GiveUpAt() {
        var fail := FailBy(w.trace, now + delays.refusal);
        return Failed(if fail.Some? && fail.value.at >= w.beganAt then Px4Said(fail.value.text)
                      else NotReadyInTime(w.timing.readyTimeout / 1000), now + delays.refusal);
      }
      var due := Max(now, NextVerdict(w.trace, seen, DueBy(w, heard)));
      NothingBeforeTheNextVerdict(w.trace, seen, DueBy(w, heard));
      if heard {
        StaysHeard(w, seen, due + delays.wake(round));
      }
      if prompt {
        WakesOnTime(w, seen, heardBefore, heard);
      }
      seen := due + delays.wake(round);
      round := round + 1;
    }
  }

  lemma StartsOnTime(w: Wait)
    ensures OnTime(w, w.start, false)
  {
  }

  lemma EndsInTime(w: Wait, now: nat, heard: bool)
    requires OnTime(w, now, heard)
    ensures now <= Max(w.start, w.GiveUpAt())
  {
  }
}
