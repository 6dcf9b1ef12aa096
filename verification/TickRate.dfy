/** `--tick-rate` validation, and what an accepted rate buys the pacing planner. */
module TickRate {
  import opened Uint
  import opened Timebase
  import opened TimebaseRuns

  const NANOS_PER_SEC: U64 := 1_000_000_000
  const MICROS_PER_SEC: U64 := 1_000_000
  const MAX_TICK_RATE_HZ: U32 := 1000

  datatype RateCheck = Accepted(hz: U32) | ZeroRate | AboveCeiling | OffGrid

  function ValidateTickRate(hz: U32): RateCheck {
    if hz == 0 then ZeroRate
    else if hz > MAX_TICK_RATE_HZ then AboveCeiling
    else if NANOS_PER_SEC % hz != 0 || MICROS_PER_SEC % hz != 0 then OffGrid
    else Accepted(hz)
  }

  /** A refusal says which: no rate, one above the ceiling, or one off a grid, and never two of them. */
  lemma RefusedForTheRightReason(hz: U32)
    ensures ValidateTickRate(hz).ZeroRate? <==> hz == 0
    ensures ValidateTickRate(hz).AboveCeiling? <==> hz > 1000
    ensures ValidateTickRate(hz).Accepted? ==> ValidateTickRate(hz).hz == hz
  {
  }

  /** The loop's sub-step, computed without trusting the rate. */
  function StepUs(hz: U32): U64 { MICROS_PER_SEC / Max(hz, 1) }

  /** The planner the loop constructs for a rate. */
  function LoopClock(hz: U32): Clock { Derived(StepUs(hz), GAP_THRESHOLD_US) }

  /** Rates up to the ceiling are accepted exactly when the nanosecond sleep period and the
      microsecond clock advance are the same length of time. */
  lemma AcceptedExactlyWhenTheGridsAgree(hz: U32)
    ensures ValidateTickRate(hz).Accepted? <==>
            1 <= hz <= MAX_TICK_RATE_HZ && NANOS_PER_SEC / hz == (MICROS_PER_SEC / hz) * 1000
  {
    if 1 <= hz <= MAX_TICK_RATE_HZ {
      var q, r := MICROS_PER_SEC / hz, MICROS_PER_SEC % hz;
      assert MICROS_PER_SEC == q * hz + r;
      assert NANOS_PER_SEC == (q * 1000) * hz + r * 1000;
      if r == 0 {
        DivUnique(NANOS_PER_SEC, hz, q * 1000);
        assert NANOS_PER_SEC % hz == 0;
      } else if NANOS_PER_SEC / hz == q * 1000 {
        DivBounds(NANOS_PER_SEC, hz);
      }
    }
  }

  /** An accepted rate has an exact sub-step, a catch-up cap that is the whole budget and at most
      twenty steps, and a sub-step that fits the gap threshold exactly from 50 Hz up. */
  lemma AcceptedRateIsExact(hz: U32)
    requires ValidateTickRate(hz).Accepted?
    ensures StepUs(hz) * hz == MICROS_PER_SEC && StepUs(hz) >= 1000
    ensures LoopClock(hz).Consistent() && LoopClock(hz).stepUs == StepUs(hz)
    ensures FullBudget(LoopClock(hz)) && LoopClock(hz).maxCatchupSteps <= 20
    ensures StepUs(hz) <= GAP_THRESHOLD_US <==> hz >= 50
  {
    var s := StepUs(hz);
    assert MICROS_PER_SEC == s * hz + MICROS_PER_SEC % hz;
    if s < 1000 {
      MulMonotone(s, 999, hz);
    }
    FitsIsQuotient(GAP_THRESHOLD_US, s);
    DivBounds(GAP_THRESHOLD_US, s);
    if GAP_THRESHOLD_US / s > 20 {
      MulMonotone(21, GAP_THRESHOLD_US / s, s);
    }
    if hz >= 50 {
      if s > GAP_THRESHOLD_US { MulMonotone(GAP_THRESHOLD_US + 1, s, hz); }
    } else {
      if s <= GAP_THRESHOLD_US { MulMonotone(s, GAP_THRESHOLD_US, hz); }
    }
  }
}
