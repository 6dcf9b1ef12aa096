# Hardware-in-the-loop daemon: pacing, diagnostics, terrain residency and link protocols

The daemon feeds a flight controller with simulated sensors in real time. This project models the
parts of it that decide *when* and *what*: the planner that paces physics against the wall clock and
the loop that emits from it, the diagnostics that say whether the pacing held, the cache of terrain
tiles the vehicle collides against, the scanners that read a noisy serial link, and the timed
protocols around the flight controller's shell and its readiness to arm.

| file | component |
|---|---|
| `Wrappers.dfy` | a value that may be absent |
| `Uint.dfy` | u32/u64 with their saturating operations; whole steps counted one by one (`Span`, `Fits`) and their agreement with `*` and `/` |
| `Timebase.dfy`, `TimebaseRuns.dfy` | the pacing planner: one call, and whole runs over arbitrary wall times |
| `TickRate.dfy` | rate validation and what an accepted rate buys the planner |
| `PacingLoop.dfy`, `SimulationLoop.dfy` | sub-step stamps, the two emission clocks, the 50 Hz grid, the impact impulse, and the loop that produces them |
| `WakeHistogram.dfy` | wake-lateness quantiles against exact order statistics |
| `Health.dfy`, `SessionHealth.dfy`, `Announcers.dfy` | health windows and session latches; the log and browser announcers |
| `TileGeometry.dfy`, `Terrain.dfy`, `TerrainRefill.dfy`, `TerrainSampling.dfy` | tile validation, one-zoom residency, farthest-first eviction, the refill query, bilinear heights |
| `PromptScan.dfy`, `HeartbeatProbe.dfy`, `FrameReader.dfy` | incremental byte scanners against a scan of everything |
| `NshTask.dfy`, `NshAwait.dfy`, `Px4Health.dfy`, `Px4Ready.dfy` | the shell task, the awaited command, the controller's verdict and the readiness wait |

Each object the daemon updates in place is a class whose methods are proved against functions of its
value; the theorems are about those functions. Planner arithmetic is u64 with saturation on both sides:
the specification counts steps without a width and stops at the last u64, the class computes with
saturating operations, quotients and casts, and the two are proved equal.

What comes from outside is a parameter: wall times, reconfigures, wake lateness and dropped messages; how
each sub-step ends on the ground, its airborne sample and what an impact or rest there reads, as functions
of the sub-step stamp; tile geometry, the MAVLink parser, link state, reads, polls and delays.

Places where the code does less than it or its comments suggest, each with its exact condition:

- A gap is flagged with nothing lost when the deficit lies between the threshold and one step, which
  accepted rates below 50 Hz allow. The three session latches agree in every run exactly when one step
  fits the threshold (`LatchesAgreeExactlyWhenAStepFits`, `AcceptedRateIsExact`).
- The comment at `loop_runner.rs:155-161` bounds the observed mag/baro spacing by period plus threshold,
  40 ms. From 50 Hz up that holds of an update exactly when the wall handed to the call that makes it is
  still within 40 ms of the last update; otherwise the update lands on that wall, so the spacing is the
  stall (`OnlyAStallBreaksTheBound`, `AStallIsTheSpacing`, `FortyMillisecondsCanFail`). At any rate the
  unavoidable step must fit as well (`SpacingKeepsTheBoundExactlyWhen`).
- The parse-buffer limit does not bound the buffer. Earlier reads leave a start byte in front whenever
  enough is left for a read of at most 1024 bytes to overflow, so the overflow path drops nothing and
  only counts a failure (`TheLimitDropsNothing`). While no frame completes the buffer is within the limit
  exactly when no more than the limit has come since the first start byte
  (`QuietBufferIsWithinTheLimitExactlyWhen`); a frame that never completes is over it after nine full
  reads and kept whole ever after (`TheLimitCanFail`).
- The shell waiter refuses a reply exactly when some poll before the one that first sees it fell past the
  waiter's deadline, whether before or after the task's; so it takes the task's deadline answer for
  success when it was not polled between its own deadline and that answer's arrival
  (`ReturnedExactlyWhenNotPolledLate`, `UnpolledMarginAcceptsTheFallback`).
- Answering the missing-tile query settles it under every tie order exactly when the resident bound holds
  all held tiles within squared distance 2r² of the vehicle's, and under some tie order exactly when it
  holds the ring and every nearer tile (`RefillConvergesExactlyWhen`). A bound that covers the ring is
  enough up to radius two; radius three needs 61, which the default of 64 meets (`RefillConverges`), and
  not the 49 of its ring (`RefillNeverSettlesPastTwo`). The daemon uses radius one. Next to the high edge
  of the grid no acceptable tiles answer the query at all (`AnswerableExactlyWhen`).
- The browser's de-escalation rule speaks of windows (`timebase_cli.rs:128-133`) but counts published
  snapshots, about two for each window. A better verdict is announced exactly when the last three
  snapshots carried it, from however few windows, and five seconds have passed
  (`BrowserIsToldExactlyWhen`). Windows that never hold a verdict three times in a row are announced at
  most twice, in every run, exactly when each is published once
  (`FlappingIsQuietExactlyWhenPublishedOnce`, `HalfSecondPublishesCanAnnounceThrice`).
- A fault line's drop count misses drops when a reconfigure falls into its window, which zeroes the count
  under the window's baseline: it is exact if and only if there was no reconfigure, or nothing was
  dropped, or neither the baseline nor the part of the window before the reconfigure held a drop
  (`WindowDropsAreExactlyWhen`, `AReconfigureHidesDrops`).

## Model

| member | source | states |
|---|---|---|
| Timebase.Planner.constructor | crates/simulation/src/timebase.rs:330-343 | step and cap are at least one, every counter starts at zero, and the accounting invariant holds |
| Timebase.Planner.DecideNow | crates/simulation/src/timebase.rs:516-554 | the decision made in saturating u64 operations, a quotient and a u32 cast is the one stated in unbounded step counting |
| Timebase.Planner.ApplyPlan | crates/simulation/src/timebase.rs:557-586 | folding any plan leaves exactly the unbounded counters stopped at the last u64, and the identity assertion in its body cannot fire |
| Timebase.Planner.Plan | crates/simulation/src/timebase.rs:425-429 | one call is one transition of the clock and keeps it consistent |
| Timebase.BudgetSteps | crates/simulation/src/timebase.rs:441-448 | the whole steps the threshold pays for are never fewer than one, zero steps included |
| Timebase.StepsFor | crates/simulation/src/timebase.rs:523-524 | an iteration runs at least one step and never more than the cap |
| Timebase.SimAfter | crates/simulation/src/timebase.rs:558-561 | sim time never rewinds, saturated or not |
| Timebase.AbsorbedBound | crates/simulation/src/timebase.rs:516-554 | an iteration absorbs at least a step and never more than it owed, except the one step it cannot avoid |
| Timebase.DeficitIsAbsorbedOrDiscarded | crates/simulation/src/timebase.rs:526-553 | on a gap, absorbed plus discarded is exactly the deficit (or the one step that overpays it); off a gap nothing is discarded |
| Timebase.DerivedCapPaysTheDeficit | crates/simulation/src/timebase.rs:461-463 | with the derived cap an iteration without a gap leaves less than a step unpaid |
| Timebase.DiscardsExactlyPastStepAndThreshold | crates/simulation/src/timebase.rs:526-553 | a call discards time if and only if the deficit passes both the threshold and one step |
| Timebase.StepsAreTheMostThatFit | crates/simulation/src/timebase.rs:523-524 | every call, gap or not, runs the most whole steps that both the deficit and the threshold pay for, within the cap, and one if they pay for none |
| Timebase.AGapLosesNoMoreThanItMust | crates/simulation/src/timebase.rs:526-553 | with the whole budget a gap discards what lies past the threshold to within one step, so nothing that could be replayed is lost |
| Timebase.ApplyKeepsConsistent | crates/simulation/src/timebase.rs:557-600 | steps times step plus discarded equals sim time, or sim time is saturated and the sum at least that, after any plan; `identity_holds` is true |
| Timebase.IdentityIs | crates/simulation/src/timebase.rs:588-600 | the identity check holds if and only if steps times step plus discarded time is sim time or passes the last u64 |
| Timebase.StepBounds | crates/simulation/src/timebase.rs:425-586 | after a call the clock lags the wall by at most the threshold, neither clock has rewound, and sim time stands still only when saturated |
| TimebaseRuns.EveryRunKeepsTheInvariants | crates/simulation/src/timebase.rs:40-55 | for all constructor arguments and all wall sequences, non-monotone ones included: accounting, bounded lag, step bounds, and monotone counters and latches between any two calls |
| TimebaseRuns.Monotone | crates/simulation/src/timebase.rs:557-586 | between any two points of a run no counter falls and no latch clears |
| TimebaseRuns.CountersAreTotals | crates/simulation/src/timebase.rs:557-574 | below saturation the counters are the exact sums of the plans run, and catch-up steps are all steps but one per iteration |
| TimebaseRuns.GapCountersAreTotals | crates/simulation/src/timebase.rs:575-581 | over any run the gap count is the number of calls past the threshold, the longest gap the largest deficit among them, and the latch set once there is one |
| TimebaseRuns.StepIsExact | crates/simulation/src/timebase.rs:557-574 | below saturation one call moves every total by exactly what was planned |
| TimebaseRuns.DerivedHasFullBudget | crates/simulation/src/timebase.rs:461-463 | the derived cap is the whole budget if and only if the budget fits a u32 |
| TimebaseRuns.LagsLessThanAStep | crates/simulation/src/timebase.rs:461-553 | with the whole budget the clock is never a full step behind the wall it was last given, gap or not |
| TimebaseRuns.LeadsAtMostAStep | crates/simulation/src/timebase.rs:45-55 | a call at or after the deadline leaves the clock at most a step ahead of the wall |
| TimebaseRuns.GapFreeTimeIsSteps | crates/simulation/src/timebase.rs:40-44 | on a gap-free run sim time is exactly the steps executed |
| TimebaseRuns.StepsFollowTheWall | crates/simulation/src/timebase.rs:461-553 | a gap-free, deadline-honouring run has executed the whole steps of its last wall time or one more |
| TimebaseRuns.ScheduleIndependence | crates/simulation/src/timebase.rs:461-553 | two such runs ending at the same wall time differ by at most one step and one step of clock, whatever their jitter and iteration counts |
| TimebaseRuns.NoFalseLatch | crates/simulation/src/timebase.rs:449-463 | a wall that never jumps more than threshold minus step costs no gap, no discard and no latch, deadlines honoured or not |
| TimebaseRuns.GapRecordsDiscard | crates/simulation/src/timebase.rs:516-581 | where a step fits the threshold a call is a gap if and only if it records loss, and a gap lands the clock exactly on the wall |
| TimebaseRuns.LatchesAgreeAlways | crates/simulation/src/timebase.rs:576-581 | the invalid latch, a positive gap count and positive discarded time are equivalent throughout every run |
| TimebaseRuns.LatchesAgreeExactlyWhenAStepFits | crates/simulation/src/timebase.rs:516-581 | that equivalence holds over all runs if and only if the step is at most the threshold |
| TimebaseRuns.WithoutCatchupCountsTicks | crates/simulation/src/timebase.rs:351-353 | without catch-up sim time counts iterations, not wall time |
| TimebaseRuns.WithoutCatchupDriftsByItsLateness | crates/simulation/src/timebase.rs:345-377 | at constant cadence c the old clock drifts by exactly n*(c - step) |
| TickRate.AcceptedExactlyWhenTheGridsAgree | src/timebase_cli.rs:220-251 | a rate up to the ceiling is accepted if and only if the nanosecond period and the microsecond advance are the same time |
| TickRate.AcceptedRateIsExact | src/timebase_cli.rs:220-251 | an accepted rate has an exact sub-step, a full budget of at most twenty steps, and a step within the threshold exactly from 50 Hz up |
| TickRate.RefusedForTheRightReason | src/timebase_cli.rs:220-251 | a refused rate is named as none, above the ceiling or off a grid |
| PacingLoop.IterationStamps | crates/simulation/src/loop_runner.rs:1188-1198 | the stamps of an iteration climb from at least a step past the old clock to exactly the emission stamp |
| PacingLoop.StampsAreSessionGlobal | crates/simulation/src/loop_runner.rs:1178-1198 | across any unsaturated run the stamps strictly increase, one per step done, the last being the clock |
| PacingLoop.StampOfEverySubstep | crates/simulation/src/loop_runner.rs:1189-1197 | the k-th sub-step of the session is stamped k steps plus the time discarded so far |
| PacingLoop.GapFreeStampsAreTheGrid | crates/simulation/src/loop_runner.rs:1189-1197 | without a gap the k-th stamp is exactly k steps |
| PacingLoop.NextSlotIsTheNextBoundary | crates/simulation/src/loop_runner.rs:162-165 | below saturation the next slot is the first period boundary strictly after now, at most a period away |
| PacingLoop.DueAtTheNextSlot | crates/simulation/src/loop_runner.rs:2151-2159 | after any emissions the schedule is due at the boundary after the last of them |
| PacingLoop.FiresOnTheFirstEmissionOfEachSlot | crates/simulation/src/loop_runner.rs:2104-2159 | an update leaves if and only if the emission is the first or enters a new 20 ms slot |
| PacingLoop.NoSlotFiresTwice | crates/simulation/src/loop_runner.rs:147-153 | an update always lies in a later slot than every earlier emission |
| PacingLoop.UpdateSpacing | crates/simulation/src/loop_runner.rs:155-161 | consecutive updates are less than a period plus the last advance apart |
| PacingLoop.SpacingKeepsTheBoundExactlyWhen | crates/simulation/src/loop_runner.rs:155-161 | in any run at any rate, an update comes within period plus threshold of the last one if and only if both the wall handed to its call and the one step that call cannot avoid do |
| PacingLoop.OnlyAStallBreaksTheBound | crates/simulation/src/loop_runner.rs:155-161 | where a step fits the threshold the wall alone settles it, and only a gap in that one iteration breaks the bound, landing the update on the wall |
| PacingLoop.AStallIsTheSpacing | crates/simulation/src/loop_runner.rs:155-161 | whatever the run before, a wall more than the threshold and a period past the last emission is where the next update lands |
| PacingLoop.FortyMillisecondsCanFail | crates/simulation/src/loop_runner.rs:155-161 | at 400 Hz, iterations at 0 and 0.3 s send two consecutive updates 297.5 ms apart |
| PacingLoop.EmissionStampsNeverRewind | crates/simulation/src/timebase.rs:33-39 | emission stamps never decrease, over any run |
| PacingLoop.ImpulseWindowsAreDisjoint | crates/simulation/src/loop_runner.rs:1900-1947 | impulses start only at hard contacts and their 100 ms windows never overlap in sim time |
| PacingLoop.ActiveExactlyInsideAWindow | crates/simulation/src/loop_runner.rs:1604-1607 | the impulse is live at a stamp if and only if the stamp lies in an armed window |
| PacingLoop.EveryHardContactIsInAWindow | crates/simulation/src/loop_runner.rs:1900-1947 | every hard contact is reported by a window armed at or before it |
| PacingLoop.PacedCall | crates/simulation/src/loop_runner.rs:1097-1183 | in a paced run each wall reading lies within an increment and a step of the clock, and the clock leads by at most a step |
| PacingLoop.ImpulseSpansItsWallTime | crates/simulation/src/loop_runner.rs:1583-1607 | from the arming iteration to the first emission past the window the wall moves 100 ms to within the increment bound plus two steps |
| SimulationLoop.Loop.constructor | crates/simulation/src/loop_runner.rs:968-996 | a new loop is due for mag and baro at once, has no cached reading and no impulse, and rests on the ground |
| SimulationLoop.Loop.StepPhysics | crates/simulation/src/loop_runner.rs:1885-2020 | a sub-step arms the impulse, with its own force and deadline, exactly on a hard contact while none is live, and settles the ground mode with its hysteresis |
| SimulationLoop.Loop.SampleAndSend | crates/simulation/src/loop_runner.rs:2062-2180 | an emission carries both clocks, the substituted or mean force, fresh mag and baro exactly when due or first, cached ones otherwise, and moves a schedule only when it fired |
| SimulationLoop.Loop.RunSubsteps | crates/simulation/src/loop_runner.rs:1188-1214 | the sub-step loop hands out exactly the iteration's stamps and returns the mean of their forces and rates |
| SimulationLoop.Loop.Iterate | crates/simulation/src/loop_runner.rs:1141-1225 | one iteration, after a reconfigure or not, takes the loop and its planner from iteration n of the run to n + 1 |
| SimulationLoop.Loop.Run | crates/simulation/src/loop_runner.rs:1028-1225 | for every accepted rate, wall sequence and reconfigures the loop's stamps, armings, ground mode and emissions are those of the run |
| SimulationLoop.SensorMinusGpsIsTheDiscard | crates/simulation/src/loop_runner.rs:332-352 | sensor stamp minus GPS stamp is always the session's discarded time, and the last sub-step carries the emission stamp |
| SimulationLoop.ReportedForceIsTheWindows | crates/simulation/src/loop_runner.rs:1604-1638 | inside one of the run's disjoint impulse windows an emission reports the impulse of the contact that armed it; outside all of them the ground's force in contact and the airborne mean otherwise, never a blend |
| SimulationLoop.GroundContactIsTheLastWord | crates/simulation/src/loop_runner.rs:2004-2019 | after a touch the ground mode holds exactly until a sub-step ends clear of the ground, with the resting force of the last touch |
| SimulationLoop.GroundContactBeforeTouching | crates/simulation/src/loop_runner.rs:983-996 | before any touch it holds from the start, with the level resting force, exactly until a sub-step ends clear |
| SimulationLoop.ReadingsAreOfTheSlot | crates/simulation/src/loop_runner.rs:2130-2165 | every mag and baro reading an emission carries was taken in its own 20 ms slot, reconfigures or not |
| SimulationLoop.ReadingIsTheLastUpdates | crates/simulation/src/loop_runner.rs:2130-2165 | without a reconfigure since, it is the reading of the last update |
| SimulationLoop.ReconfigureDropsTheReading | crates/simulation/src/loop_runner.rs:1151-1158 | after a reconfigure each emission up to the next update takes a reading of its own |
| SimulationLoop.EmissionFlagsTheSlots | crates/simulation/src/loop_runner.rs:2104-2185 | mag and baro are flagged fresh exactly on the first emission and the first of each 20 ms slot, and are then taken at its stamp |
| SimulationLoop.MeanIsTheAverageOnEachAxis | crates/simulation/src/loop_runner.rs:276-312 | on each of the six axes the mean is the real sum over the sub-steps divided by their number |
| SimulationLoop.MeanOfEqualSamples | crates/simulation/src/loop_runner.rs:276-312 | samples that agree on an axis have that value as their mean |
| SimulationLoop.MotionIsConserved | crates/simulation/src/loop_runner.rs:239-330 | over any run, emitted mean forces and rates times their intervals add up to those of every sub-step simulated, axis by axis |
| WakeHistogram.WakeLateHistogram.Record | crates/simulation/src/loop_runner.rs:482-490 | a sample lands in the one bucket of its range and keeps count, overflow and maximum exact |
| WakeHistogram.WakeLateHistogram.QuantileUs | crates/simulation/src/loop_runner.rs:498-517 | for every q in (0, 1], however the recorded samples are sorted, the walk reports the sample of rank q times their number rounded up; nothing recorded reports zero |
| WakeHistogram.QuantileReportsItsRank | crates/simulation/src/loop_runner.rs:492-517 | reporting a sample is giving the upper edge of its bucket, or the end of the range past it, cut at the maximum: never below the sample in range, never more than a bucket above |
| WakeHistogram.QuantileBracketsTheOrderStatistic | crates/simulation/src/loop_runner.rs:492-517 | the walk for a target rank reports the order statistic of that rank |
| WakeHistogram.QuantileIsMonotone | crates/simulation/src/loop_runner.rs:498-517 | a larger q is never reported smaller |
| WakeHistogram.TopQuantileIsTheMaximum | crates/simulation/src/loop_runner.rs:492-517 | q = 1 reports the maximum, cut at the end of the range |
| SessionHealth.Diagnostics.Iterate | crates/simulation/src/loop_runner.rs:1326-1334 | an iteration updates clock, window, session and wake histogram as specified and keeps the ledger sound |
| SessionHealth.Diagnostics.RollUpWindow | crates/simulation/src/loop_runner.rs:1421-1522 | a roll-up grades the window alone, publishes it, and tells the reporter, if there is one, its verdict and its drops; afterwards lost time means a published fault, and a refusal is never withdrawn |
| SessionHealth.Diagnostics.Close | crates/simulation/src/loop_runner.rs:1336-1349 | a close rolls up and starts the next window from the session totals, the drop count included |
| SessionHealth.Diagnostics.PublishStats | src/timebase_cli.rs:415-421 | a publication hands out the snapshot, and the annunciator observes its health and nothing else changes |
| SessionHealth.Diagnostics.ApplyReconfigure | crates/simulation/src/loop_runner.rs:375-402 | a reconfigure restarts message counts and keeps the pacing group, so the arming verdict does not change |
| SessionHealth.CloseAnswersForEveryLoss | crates/simulation/src/loop_runner.rs:1421-1512 | at every roll-up lost time is published as a worst health of Faulted, beside the session's own totals |
| SessionHealth.SoundStep | crates/simulation/src/loop_runner.rs:1326-1512 | every event keeps: losses answered for are latched, the snapshot never claims more than the session holds, and its p99 wake lateness is never above the maximum beside it |
| SessionHealth.RefusalSurvives | src/timebase_cli.rs:396-400 | no single event clears a compromised snapshot |
| SessionHealth.WindowLossesSumToTheSession | crates/simulation/src/loop_runner.rs:1460-1466 | over any interleaving, the losses closed windows reported and the open window's own add up to the session's |
| SessionHealth.PublishedWorstIsTheWorstWindow | crates/simulation/src/loop_runner.rs:1464-1511 | over any interleaving the published worst health is the worst verdict of all closed windows, and fine if there are none |
| SessionHealth.LedgerHoldsItsEvents | crates/simulation/src/loop_runner.rs:563-573 | over any interleaving window and session are the sums of their events: iterations, steps, overrun and wake latenesses since the last close, messages since the last reconfigure |
| SessionHealth.WindowVerdictExactlyWhen | crates/simulation/src/timebase.rs:180-186 | in terms of events, at every close: lost time is a fault; otherwise fine from 99 % of the due iterations on, a fault below 90 %, degraded between |
| SessionHealth.ClosePublishesTheWindow | crates/simulation/src/loop_runner.rs:1472-1508 | a close publishes its window's rates, overrun and average lateness, and the session's largest and 99th percentile lateness, the latter as an order statistic |
| SessionHealth.ClosePublishesTheClock | crates/simulation/src/loop_runner.rs:1479-1509 | a close publishes the clock's own drift, totals and latch, clamped to their fields |
| SessionHealth.PublishedLowestRatioIsTheLowestWindows | crates/simulation/src/loop_runner.rs:1460-1462 | over any interleaving the published lowest ratio is the lowest of all closed windows that measured one |
| SessionHealth.ReporterFollowsTheWindows | crates/simulation/src/loop_runner.rs:1514-1521 | over any interleaving the log reporter has seen exactly the closed windows' verdicts in order, so its rate limits hold of the session |
| SessionHealth.SnapshotCarriesTheLatestVerdict | crates/simulation/src/loop_runner.rs:1510 | over any interleaving the published health is the verdict of the last closed window, reconfigured since or not |
| SessionHealth.AnnunciatorFollowsThePublishes | src/timebase_cli.rs:410-421 | over any interleaving the annunciator has observed, once for each publication, the verdict of the window last closed before it |
| SessionHealth.BrowserIsToldExactlyWhen | src/timebase_cli.rs:176-205 | over any interleaving a publication goes to the browser if and only if it is worse than what stands announced, or better, carried by the last three publications, and five seconds after the last message |
| SessionHealth.WindowDropsAreExactlyWhen | crates/simulation/src/loop_runner.rs:552-556 | a window's reported drops never exceed its own and equal them if and only if no reconfigure, no drop, or no drop before that reconfigure nor in the baseline |
| SessionHealth.AReconfigureHidesDrops | crates/simulation/src/loop_runner.rs:375-402 | two drops in one window, a reconfigure and one in the next: the next reports none |
| SessionHealth.CompromisedIsForever | src/timebase_cli.rs:389-400 | once the published session is compromised it stays so at every later event |
| SessionHealth.ClockIgnoresWindows | crates/simulation/src/loop_runner.rs:1336-1349 | window closes and reconfigures leave the clock a run over the iterations alone |
| SessionHealth.RefusedExactlyWhenGapOrFault | src/timebase_cli.rs:389-400 | at a close, in any session, arming is refused if and only if the session met a gap or its worst window faulted |
| SessionHealth.RefusedExactlyWhenTheWorstWindowFaulted | src/timebase_cli.rs:389-400 | where a step fits the threshold, a close is refused if and only if the worst window faulted |
| Announcers.TimebaseReporter.Decide | crates/simulation/src/loop_runner.rs:663-699 | the reporter's branches and bookkeeping are the specified step |
| Announcers.ReporterNeverUnderstates | crates/simulation/src/loop_runner.rs:656-699 | the reported severity is at least the observed one, escalations are immediate, anything else waits five seconds, a recovery names what it recovered from, and the heartbeat comes exactly each healthy minute |
| Announcers.ReporterSpeaksExactlyWhen | crates/simulation/src/loop_runner.rs:663-699 | a line goes out if and only if the health is worse than the one on record, or there is a fault standing or one to withdraw and five seconds have passed; it says what was observed, which then stands |
| Announcers.HeldVerdictStands | crates/simulation/src/loop_runner.rs:656-699 | over any run, a verdict held until five seconds past the last line stands on record: a fault that passed is withdrawn, one that stays repeated |
| Announcers.FirstHeartbeat | crates/simulation/src/loop_runner.rs:679-686 | a loop that starts and stays fine is first said to be a minute after its start |
| Announcers.QuietLinesAreSpaced | crates/simulation/src/loop_runner.rs:656-699 | lines that are not escalations are each paid for by a five second interval |
| Announcers.ReporterIsRateLimited | crates/simulation/src/loop_runner.rs:202-211 | over any run at most two lines plus three per five seconds, and escalations at most two plus twice the de-escalations |
| Announcers.RisesArePaidByFalls | crates/simulation/src/loop_runner.rs:629-635 | over any walk of ranks from zero, rises are at most the final rank plus twice the falls |
| Announcers.AnnunciatorPolicy.Observe | src/timebase_cli.rs:176-205 | the policy's counters and verdict are the specified step, and it names the health it replaces |
| Announcers.CounterIsTheRun | src/timebase_cli.rs:181-186 | the window counter is the length of the current run of equal verdicts, stopped at the last u32 |
| Announcers.AnnouncesExactlyWhen | src/timebase_cli.rs:188-204 | a message goes out if and only if the verdict is worse, or it is better, third in a row and five seconds after the last; the verdict observed then stands announced, and is never understated |
| Announcers.AnnunciatorIsRateLimited | src/timebase_cli.rs:117-133 | over any run at most two messages plus three for every five seconds |
| Announcers.FlappingAnnouncesAtMostTwice | src/timebase_cli.rs:161-205 | a run in which no health is observed three times in a row announces at most twice, however long |
| Announcers.FlappingIsQuietExactlyWhenPublishedOnce | src/timebase_cli.rs:128-133 | windows that never hold a verdict three times in a row announce at most twice, whatever they are and whenever published, if and only if each is published once |
| Announcers.HalfSecondPublishesCanAnnounceThrice | src/timebase_cli.rs:410-419 | seven such windows of a second, published each half second, announce three times in six seconds |
| TileGeometry.RingDistance | crates/terrain/src/lib.rs:616-624 | tiles of a ring lie within 2r² of its centre, all others at least (r+1)² away, and only the centre at zero |
| TileGeometry.RingSize | crates/terrain/src/lib.rs:389-401 | a ring holds at most (2r+1)² tiles, exactly that many inside the zoom's grid, and all its tiles are tiles of the grid if and only if its far corner is |
| Terrain.ValidateTile | crates/terrain/src/lib.rs:555-594 | a tile passes if and only if its zoom, grid position, distance (200 km), sample count (256²) and every height (finite, within 12 km) are acceptable, and a refusal carries the first reason in check order |
| Terrain.OneReasonOnly | crates/terrain/src/lib.rs:555-594 | the first reason is unique, and never given for an acceptable tile |
| Terrain.RefusalsAreInOrder | crates/terrain/src/lib.rs:317-323 | refusals are named in the order of the batch, each with its own first reason |
| Terrain.EvictToBound | crates/terrain/src/lib.rs:599-632 | eviction cuts to the bound, keeps entries unchanged and nothing kept is farther than anything dropped |
| Terrain.VehicleTileStays | crates/terrain/src/lib.rs:596-598 | the tile under the vehicle is never evicted, under any tie order |
| Terrain.IngestKeepsUsable | crates/terrain/src/lib.rs:325-340 | storing validated tiles keeps one zoom, no zoom exactly when empty, and only plausible tiles |
| Terrain.IngestedTileIsHeld | crates/terrain/src/lib.rs:325-340 | a stored tile not overwritten or cleared by a later one is held as sent, and the last tile decides the zoom |
| Terrain.HeldWasThereOrSent | crates/terrain/src/lib.rs:325-340 | nothing is held that was neither resident nor in the batch |
| Terrain.TerrainCache.constructor | crates/terrain/src/lib.rs:204-218 | a new cache is empty, unanchored, and bounded by at least one tile |
| Terrain.TerrainCache.SetOrigin | crates/terrain/src/lib.rs:225-267 | re-anchoring drops the tiles exactly on a move of more than one metre, which is when frames for the new origin would not have been accepted |
| Terrain.TerrainCache.SetVehicle | crates/terrain/src/lib.rs:269-272 | moving the vehicle touches nothing else |
| Terrain.TerrainCache.InsertTiles | crates/terrain/src/lib.rs:280-369 | accepted plus rejected is the batch, exactly the acceptable tiles are ingested, every other is named in order with its reason (the size or the missing origin for a whole batch), and the result is cut to the bound around the vehicle |
| Terrain.TerrainCache.Validate | crates/terrain/src/lib.rs:317-323 | a batch splits in order into the passing tiles and the named rejections |
| Terrain.TerrainCache.Store | crates/terrain/src/lib.rs:325-340 | the store loop is the ingestion of the whole list |
| Terrain.TerrainCache.Bound | crates/terrain/src/lib.rs:342-347 | eviction restores the resident bound and every other invariant |
| Terrain.TerrainCache.MissingAroundVehicle | crates/terrain/src/lib.rs:375-404 | the query lists exactly the ring coordinates not held, each once and row by row inside the grid, and nothing before an origin or a zoom exists |
| TerrainRefill.TileIsSafeExactlyWhen | crates/terrain/src/lib.rs:599-632 | a tile survives every tie order if and only if the bound holds it with all tiles at most as far, and some tie order if and only if it holds it with all nearer ones |
| TerrainRefill.EvictionSparesTheRing | crates/terrain/src/lib.rs:599-632 | a resident ring survives every tie order if and only if the bound holds all tiles within 2r² |
| TerrainRefill.EvictionCanSpareTheRing | crates/terrain/src/lib.rs:599-632 | it survives some tie order if and only if the bound holds the ring and all tiles nearer than its corners |
| TerrainRefill.RefillConvergesExactlyWhen | crates/terrain/src/lib.rs:371-404 | answering the query leaves the whole ring resident, under every and under some tie order, exactly on those two conditions on what is then held |
| TerrainRefill.RefillConverges | crates/terrain/src/lib.rs:371-404 | whatever else is resident, answering once settles radius up to two under a bound that covers the ring, and radius three under 61 tiles |
| TerrainRefill.RefillNeverSettlesPastTwo | crates/terrain/src/lib.rs:599-632 | from radius three, with a bound that exactly covers the ring and one tile just outside it, every answer leaves a ring tile missing under every tie order |
| TerrainRefill.RefillRound | crates/terrain/src/lib.rs:280-404 | on the cache itself: insert the answer and ask again; nothing is missing on the first condition, something is when the second fails |
| TerrainRefill.AnswerableExactlyWhen | crates/terrain/src/lib.rs:375-404 | acceptable tiles can answer the query if and only if the ring does not pass the high edge of the grid and every missing tile is near enough to the origin |
| TerrainSampling.SampleBetweenItsPosts | crates/terrain/src/lib.rs:519-551 | a bilinear height lies between its four posts |
| TerrainSampling.SampleIsTheSurface | crates/terrain/src/lib.rs:535-551 | within its cell the height is linear in x and in y: whatever such surface the four posts lie on is the height, everywhere in the tile |
| TerrainSampling.SampleIsReadInTheCoveringTile | crates/terrain/src/lib.rs:519-533 | it is read in the tile under the position, columns along x and rows along y, held to the tile's edges |
| TerrainSampling.SampleMeetsItsPosts | crates/terrain/src/lib.rs:519-551 | the surface passes exactly through every post, row-major in the tile, the clamped last row and column included |
| TerrainSampling.SampleIsKnownAndPlausible | crates/terrain/src/lib.rs:519-551 | a height is known if and only if the covering tile is resident, and is always within the elevation bounds |
| PromptScan.PromptIs | src/main.rs:1183-1185 | a prompt is the eight bytes `nsh> ` ESC `[K` anywhere, or `nsh>` with nothing but ASCII white space after it |
| PromptScan.TailFindsOnlyPrompts | src/main.rs:1290-1301 | a prompt found in the tail is a prompt of the whole response |
| PromptScan.TailScanIsWholeScan | src/main.rs:1270-1301 | while the response holds no prompt, the tail test and the whole test agree on every next chunk |
| PromptScan.TailScanFiresWithTheWholeScan | src/main.rs:1178-1301 | for every split into chunks the two tests first fire on the same chunk |
| HeartbeatProbe.ContainsHeartbeat | crates/mavlink-io/src/serial.rs:405-427 | the search is true if and only if a MAVLink 1 or 2 heartbeat header lies somewhere in the bytes |
| HeartbeatProbe.HeartbeatIsAHeader | crates/mavlink-io/src/serial.rs:405-427 | what is searched for is exactly the encoding of some MAVLink 1 or MAVLink 2 header with message id zero |
| HeartbeatProbe.WindowIsATail | crates/mavlink-io/src/serial.rs:386-391 | the trimmed window is always the end of the stream, all of it or at least 512 bytes |
| HeartbeatProbe.WindowSeesWhatTheStreamShows | crates/mavlink-io/src/serial.rs:382-391 | for every next read, searching the window and searching everything read agree |
| HeartbeatProbe.ScanForHeartbeat | crates/mavlink-io/src/serial.rs:374-398 | the probe succeeds on exactly the first read at which the whole stream holds a heartbeat, and its window with a read appended never exceeds 4096 + 256 bytes |
| FrameReader.Reader.DrainToNextFrame | crates/mavlink-io/src/async_io.rs:688-706 | resynchronising drops exactly up to the next start byte, or everything |
| FrameReader.Reader.TakeFrames | crates/mavlink-io/src/async_io.rs:388-436 | the cursor loop takes the same frames and shell data and leaves the same bytes as draining message by message |
| FrameReader.Reader.RelieveOverflow | crates/mavlink-io/src/async_io.rs:375-385 | an oversized buffer gives up its lead once, and the failure is counted |
| FrameReader.Reader.Resync | crates/mavlink-io/src/async_io.rs:447-453 | bytes that cannot begin a frame are dropped, and the failure counted |
| FrameReader.Reader.Feed | crates/mavlink-io/src/async_io.rs:371-464 | after every read the log and the buffer are the whole stream in order, no dropped stretch holds a start byte, the buffer is short or begins with one, and the counters and shell data are the log's |
| FrameReader.ReadAccountsForEveryByte | crates/mavlink-io/src/async_io.rs:371-464 | one read: conservation of bytes, clean drops, settled remainder, and counts |
| FrameReader.FramesAreFrames | crates/mavlink-io/src/async_io.rs:388-436 | draining stops only when the parser does, and frames plus remainder are the buffer |
| FrameReader.ShellDataOfAMessage | crates/mavlink-io/src/async_io.rs:402-425 | a serial-control message of count c yields its first min(c, 70) bytes and ends the reply if and only if c is zero |
| FrameReader.DropStopsAtAStart | crates/mavlink-io/src/async_io.rs:680-706 | what is dropped holds no start byte and what is left begins with one or is empty |
| FrameReader.Reader.Run | crates/mavlink-io/src/async_io.rs:351-464 | over any sequence of reads the stream and the buffer are those of the reads folded one by one |
| FrameReader.OverflowBoundsTheBufferExactlyWhen | crates/mavlink-io/src/async_io.rs:375-385 | of any oversized buffer: it is brought within the limit if and only if no start byte lies in the excess, and otherwise stays over it whenever no frame completes |
| FrameReader.TheLimitDropsNothing | crates/mavlink-io/src/async_io.rs:349-385 | over the reads the task makes a start byte is always in front of an oversized buffer, so the overflow path drops no byte and the read takes, drops and leaves what it would without a limit |
| FrameReader.QuietBufferIsTheStream | crates/mavlink-io/src/async_io.rs:371-464 | from any point of a reader's life, while no frame completes nothing is lost from the first start byte on |
| FrameReader.QuietBufferIsWithinTheLimitExactlyWhen | crates/mavlink-io/src/async_io.rs:375-385 | while no frame completes the buffer is within the limit if and only if no more has come since the first start byte, and a stream that begins with one is kept whole |
| FrameReader.TheLimitCanFail | crates/mavlink-io/src/async_io.rs:375-385 | from a fresh reader, a start byte and zeros in full reads: nine reads or more leave the whole stream in the buffer, over the limit |
| NshTask.Task.TakeCommand | src/main.rs:1206-1263 | a dequeued command is refused at once with the matching text, or becomes the one outstanding request, due after its timeout or two seconds |
| NshTask.Task.TakeArrival | src/main.rs:1270-1320 | one arrival finishes the request exactly when it ends the reply or the whole response shows the prompt, though only the tail is searched |
| NshTask.Task.Absorb | src/main.rs:1268-1322 | a poll's arrivals finish the request at the first of them that completes it, and at no other |
| NshTask.Task.Finish | src/main.rs:1336-1351 | finishing sends one complete response for the outstanding request and clears it |
| NshTask.Task.PollTick | src/main.rs:1266-1353 | the first poll at or after the deadline leaves nothing outstanding, every dequeued command has one response in order, and a fallback never precedes its deadline |
| NshAwait.InternalRequestIds.Next | crates/websocket/src/nsh_await.rs:51-67 | each call returns the current id and advances inside the internal range |
| NshAwait.InternalIdsAreDistinct | crates/websocket/src/nsh_await.rs:51-67 | any 240 consecutive ids differ, and the cycle is exactly 240 |
| NshAwait.RunNsh | crates/websocket/src/nsh_await.rs:84-124 | the wait returns the first complete reply under its id, or a timeout at the first late poll, or the queue's refusal |
| NshAwait.TaskSendsSuchReplies | crates/websocket/src/nsh_await.rs:18-22 | every reply the task sends answers a command dequeued after the call with the four second timeout |
| NshAwait.NeverOkFromTheFallback | crates/websocket/src/nsh_await.rs:18-22 | polled once in the margin between the deadlines, the waiter never returns the task's fallback as success, whatever queueing preceded it |
| NshAwait.ReturnedExactlyWhenNotPolledLate | crates/websocket/src/nsh_await.rs:101-123 | a reply first seen at a poll is returned if and only if no earlier poll was past the reply window |
| NshAwait.UnpolledMarginAcceptsTheFallback | crates/websocket/src/nsh_await.rs:18-22 | without a poll in the margin the echo of the command does count as success |
| Px4Health.Px4HealthMonitor.Observe | crates/simulation/src/px4_health.rs:56-87 | the monitor holds the last verdict and the last pre-arm refusal of everything observed |
| Px4Health.Px4HealthMonitor.PreflightFailSince | crates/simulation/src/px4_health.rs:97-104 | the text is given if and only if the last refusal was received since then |
| Px4Health.VerdictByIsLatest | crates/simulation/src/px4_health.rs:70-81 | a snapshot is a received verdict and the latest by that time |
| Px4Health.VerdictByIsTheLast | crates/simulation/src/px4_health.rs:70-95 | the snapshot at a time is the last verdict of the trace received by then |
| Px4Health.FailByIsTheLast | crates/simulation/src/px4_health.rs:83-104 | the refusal kept at a time is the last one received by then |
| Px4Health.FutureDoesNotShow | crates/simulation/src/px4_health.rs:93-95 | a snapshot of a longer trace at t is the monitor's state after what arrived by t |
| Px4Ready.SnapshotGroundsTheOutcome | crates/websocket/src/px4_ready.rs:53-78 | whatever lies between the snapshot, the clock and the refusal read after it, each outcome rests on received messages |
| Px4Ready.WakesOnTime | crates/websocket/src/px4_ready.rs:79-86 | woken on time, the wait misses no passing snapshot between wake-ups |
| Px4Ready.EndsAsExpected | crates/websocket/src/px4_ready.rs:53-78 | woken on time, each return is the expected outcome |
| Px4Ready.ExpectedIsAFunction | crates/websocket/src/px4_ready.rs:33-45 | the expected outcome is unique |
| Px4Ready.WaitForPx4Ready | crates/websocket/src/px4_ready.rs:40-88 | for any delay of wake-ups, clock and refusal reads every outcome is grounded (the last verdict a pass the guard accepts, silence since confirmation up to the snapshot, timeout with the last refusal since the restart or none); without delay it is the expected outcome and comes by the give-up time |

## Left out

- Flight physics, battery, sensor noise, slopes and attitude: floating point and trigonometry; the loop model takes them as functions of the stamp.
- Tile projection and distances: uninterpreted functions of position, origin and tile; eviction distances are unbounded integers, so an i64 overflow of a squared distance far outside the grid is not modelled.
- IEEE rounding in rates, quantile targets, means and heights: exact reals; an empty window's NaN ratio is an absent value.
- Sums of u64 diagnostics (wake lateness, overruns, histogram counts) are unbounded, so their overflow is not modelled.
- `tokio` scheduling, channels, serial and UDP transport, MAVLink encoding and checksums: replaced by reads, polls, wake-ups and an abstract parser. A failed send that stops the reader task is not modelled.
- Shutdown of the shell task, and its cached connection: the link state found at each command and poll is a parameter.
- A health channel closing under the readiness wait: the monitor it borrows holds the sender.
- Terrain operations are sequential: validation outside the write lock racing a re-anchor is not modelled.
- Surface normals, the altitude datum and the approximate-coverage flag of the cache: they would add only easy members.
- The 5 s statistics window, phase timings, gap log lines, message wording and JSON reports: presentation.
- How often snapshots are published, and those the annunciator's task sleeps through because a later one replaced them: a publication is an event of the interleaving only if it is observed.
- Scheduling promotion, update, board identity, parameter reads, port discovery, heartbeat sending and the connection manager: host effects or simple members.
- SimulationLoop.Loop.SampleAndSend: sends no GPS, whose rate limiter belongs to the sensor library, and its messages always find room; how many were dropped is an input of the diagnostics. Readings are known by when they were taken.
- NshAwait.TaskSendsSuchReplies: requires that no other client's command carries the waiter's id, since the handler accepts any request id from a client.
