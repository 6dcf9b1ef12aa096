/** What the receiver keeps of the flight controller's own verdict. Times are milliseconds. */
module Px4Health {
  import opened Wrappers

  const PREFLIGHT_FAIL_PREFIX := "Preflight Fail"

  /** A received message the monitor looks at. */
  datatype Received = SysStatus(canArm: bool, at: nat) | StatusText(text: string, at: nat)

  datatype Verdict = Verdict(canArm: bool, at: nat)
  datatype Fail = Fail(text: string, at: nat)

  predicate IsRefusal(m: Received) { m.StatusText? && PREFLIGHT_FAIL_PREFIX <= m.text }

  /** The last verdict, and the last pre-arm refusal, received by `t`. */
  function VerdictBy(trace: seq<Received>, t: nat): Option<Verdict> {
    if trace == [] then None
    else
      var m := trace[|trace| - 1];
      if m.SysStatus? && m.at <= t then Some(Verdict(m.canArm, m.at)) else VerdictBy(trace[..|trace| - 1], t)
  }

  function FailBy(trace: seq<Received>, t: nat): Option<Fail> {
    if trace == [] then None
    else
      var m := trace[|trace| - 1];
      if IsRefusal(m) && m.at <= t then Some(Fail(m.text, m.at)) else FailBy(trace[..|trace| - 1], t)
  }

  ghost predicate Ordered(trace: seq<Received>) {
    forall i, j :: 0 <= i < j < |trace| ==> trace[i].at <= trace[j].at
  }

  class Px4HealthMonitor {
    var health: Option<Verdict>
    var preflightFail: Option<Fail>
    ghost var seen: seq<Received>
    ghost var clock: nat

    ghost predicate Valid()
      reads this
    {
      && (forall i :: 0 <= i < |seen| ==> seen[i].at <= clock)
      && health == VerdictBy(seen, clock) && preflightFail == FailBy(seen, clock)
    }

    constructor ()
      ensures Valid() && seen == [] && clock == 0
    {
      health, preflightFail, seen, clock := None, None, [], 0;
    }

    method Observe(m: Received)
      requires Valid() && m.at >= clock
      modifies this
      ensures Valid() && seen == old(seen) + [m] && clock == m.at
    {
      SnapshotSettles(seen, clock, m.at);
      assert (seen + [m])[..|seen|] == seen;
      match m {
        case SysStatus(canArm, at) => health := Some(Verdict(canArm, at));
        case StatusText(text, at) =>
          if PREFLIGHT_FAIL_PREFIX <= text {
            preflightFail := Some(Fail(text, at));
          }
      }
      seen, clock := seen + [m], m.at;
    }

    /** The latest refusal, when received at or after `since`. */
    function PreflightFailSince(since: nat): (r: Option<string>)
      requires Valid()
      reads this
      ensures r.Some? <==> FailBy(seen, clock).Some? && FailBy(seen, clock).value.at >= since
      ensures r.Some? ==> r.value == FailBy(seen, clock).value.text
    {
      if preflightFail.Some? && preflightFail.value.at >= since then Some(preflightFail.value.text) else None
    }
  }

  /** With everything already received, a later look sees the same. */
  lemma {:induction false} SnapshotSettles(trace: seq<Received>, t: nat, u: nat)
    requires (forall i :: 0 <= i < |trace| ==> trace[i].at <= t) && t <= u
    ensures VerdictBy(trace, t) == VerdictBy(trace, u) && FailBy(trace, t) == FailBy(trace, u)
  {
    if trace != [] {
      SnapshotSettles(trace[..|trace| - 1], t, u);
    }
  }

  /** What is yet to arrive does not show. */
  lemma {:induction false} FutureDoesNotShow(past: seq<Received>, future: seq<Received>, t: nat)
    requires forall i :: 0 <= i < |future| ==> future[i].at > t
    ensures VerdictBy(past + future, t) == VerdictBy(past, t) && FailBy(past + future, t) == FailBy(past, t)
    decreases |future|
  {
    if future == [] {
      assert past + future == past;
    } else {
      FutureDoesNotShow(past, future[..|future| - 1], t);
      assert (past + future)[..|past + future| - 1] == past + future[..|future| - 1];
    }
  }

  /** The last refusal by `t`, as an index, is what the monitor gives: no earlier one, and no later. */
  predicate IsLastRefusal(trace: seq<Received>, t: nat, i: nat) {
    && i < |trace| && IsRefusal(trace[i]) && trace[i].at <= t
    && forall j :: i < j < |trace| ==> !(IsRefusal(trace[j]) && trace[j].at <= t)
  }

  predicate IsLastVerdict(trace: seq<Received>, t: nat, i: nat) {
    && i < |trace| && trace[i].SysStatus? && trace[i].at <= t
    && forall j :: i < j < |trace| ==> !(trace[j].SysStatus? && trace[j].at <= t)
  }

  lemma {:induction false} FailByIsTheLast(trace: seq<Received>, t: nat)
    ensures FailBy(trace, t).Some? <==> exists i: nat :: IsLastRefusal(trace, t, i)
    ensures forall i: nat :: IsLastRefusal(trace, t, i) ==> FailBy(trace, t) == Some(Fail(trace[i].text, trace[i].at))
    ensures FailBy(trace, t).None? ==> forall m <- trace :: IsRefusal(m) ==> m.at > t
  {
    if trace != [] {
      var n := |trace| - 1;
      FailByIsTheLast(trace[..n], t);
      if IsRefusal(trace[n]) && trace[n].at <= t {
        assert IsLastRefusal(trace, t, n);
      } else {
        forall i: nat ensures IsLastRefusal(trace, t, i) <==> IsLastRefusal(trace[..n], t, i) {
        }
        assert forall m <- trace :: m == trace[n] || m in trace[..n];
      }
    }
  }

  lemma {:induction false} VerdictByIsTheLast(trace: seq<Received>, t: nat)
    ensures VerdictBy(trace, t).Some? <==> exists i: nat :: IsLastVerdict(trace, t, i)
    ensures forall i: nat :: IsLastVerdict(trace, t, i) ==> VerdictBy(trace, t) == Some(Verdict(trace[i].canArm, trace[i].at))
  {
    if trace != [] {
      var n := |trace| - 1;
      VerdictByIsTheLast(trace[..n], t);
      if trace[n].SysStatus? && trace[n].at <= t {
        assert IsLastVerdict(trace, t, n);
      } else {
        forall i: nat ensures IsLastVerdict(trace, t, i) <==> IsLastVerdict(trace[..n], t, i) {
        }
      }
    }
  }

  /** A snapshot is a message of the trace, the latest of its kind by then. */
  lemma {:induction false} VerdictByIsLatest(trace: seq<Received>, t: nat)
    requires Ordered(trace)
    ensures var v := VerdictBy(trace, t);
            && (v.Some? ==> v.value.at <= t && SysStatus(v.value.canArm, v.value.at) in trace)
            && (forall i :: 0 <= i < |trace| && trace[i].SysStatus? && trace[i].at <= t ==> v.Some? && trace[i].at <= v.value.at)
  {
    if trace != [] {
      var before, last := trace[..|trace| - 1], trace[|trace| - 1];
      VerdictByIsLatest(before, t);
      assert forall m :: m in before ==> m in trace;
      forall i | 0 <= i < |trace| && trace[i].SysStatus? && trace[i].at <= t
        ensures VerdictBy(trace, t).Some? && trace[i].at <= VerdictBy(trace, t).value.at
      {
        if i < |trace| - 1 {
          assert before[i] == trace[i];
        }
      }
    }
  }
}
