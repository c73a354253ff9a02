# Red_MPUDP: a verified model

This project models the parts of Red_MPUDP that keep state or promise something over whole runs, and
proves those promises for every input, run or failure pattern. Each part has a model over values, on
which the laws are proved, and, where the program changes objects in place, classes and methods that
are proved to compute exactly what the model says.

| part of the program | model and laws | objects and loops |
|---|---|---|
| deterministic clock, `internal/testclock` | `TimerModel.dfy`, `TimerLaws.dfy`, `TimerRuns.dfy`, `TimerHandles.dfy`, `TimerOps.dfy` | `TestClock.dfy` |
| rate controller, link, simulator and fairness index, `internal/congestion/phase0sim` | `AimdModel.dfy`, `AimdLaws.dfy`, `AimdSteps.dfy`, `SimModel.dfy`, `SimLaws.dfy`, `SimSteps.dfy`, `Fairness.dfy` | `Phase0Sim.dfy`, `Fairness.dfy` |
| two-phase recovery, `internal/journal` | `Schema.dfy`, `SchemaNames.dfy`, `RecoveryModel.dfy`, `RecoveryLaws.dfy`, `RecoveryCalls.dfy`, `RecoveryConvergence.dfy`, `RecoveryIdempotence.dfy`, `RecoveryRetries.dfy`, `RecoveryConflicts.dfy` | `Recovery.dfy` |
| atomic journal replacement, `internal/journal` | `StoreModel.dfy`, `StoreLaws.dfy`, `StoreOutcomes.dfy` | `Store.dfy` |
| ring and byte-budget queue, `internal/bounded` | `QueueModel.dfy`, `QueueLaws.dfy` | `Ring.dfy`, `ByteQueue.dfy` |
| buffer pool and its users, `internal/packetbuf`, `internal/tun` | `PoolModel.dfy` | `PacketBuf.dfy` |
| key files, `internal/identity` | `Base64.dfy`, `KeyFile.dfy` | |
| IPv4/UDP packets and header checksum, `test/integration` | `InternetChecksum.dfy`, `Ipv4Udp.dfy` | the same files |

`Arith.dfy`, `Ascii.dfy` and `Basics.dfy` hold shared facts and types. `dafny verify dfyconfig.toml` checks everything.

## How the environment enters

* Callbacks of the clock, and goroutines that interleave with `Set` where it drops its lock, are a
  script: the i-th element lists the clock operations done in the i-th unlocked window. Every
  terminating `Set` with any callbacks has such a script.
* Host calls of recovery, file system calls and device calls take their outcomes from a sequence. A
  failed host call may or may not have taken effect; a crash may follow any call. A failed rename or
  remove has had no effect.
* After a crash a directory entry is any value it has had since the last directory sync, each name on
  its own; a file that was not synced may hold anything.
* `sync.Pool` hands out any buffer it holds, makes a new one, or loses one, at any time. Ownership is a
  lease that a Get opens and a Release closes.
* Times, clock readings and random choices are parameters. Durations and times are integers.

## Where the code departs from its documentation

The model follows the code in each case.

* The clock promises firing in deadline order with ties in creation order. A live timer that is reset to
  zero keeps its old number and can fire after a younger one at the same instant
  (`TimerRuns.ZeroResetBreaksOrder`). Among operations with non-negative durations the ones after which
  the next `Set` fires out of order are exactly the resets of a live timer to zero, at the instant of the
  last firing, by an entry created no later than the one that fired (`TimerRuns.OutOfOrderIff`), and runs
  without these are ordered (`TimerRuns.RunOrdered`).
* A duration may be negative, and exactly then the clock steps backwards (`TimerRuns.StepsBackIff`).
* `Reset` is said to behave like `time.Timer.Reset`, which makes an `AfterFunc` timer run its callback
  again. Here the firing after a reset runs the callback exactly when the timer has neither fired nor been
  stopped since it was created (`TimerHandles.ResetRunsCallbackIff`, `TimerHandles.KeepsCallbackIff`). So
  a callback never runs twice, and one whose timer is stopped and then reset never runs at all
  (`TimerHandles.StopThenResetLosesCallback`, `TimerHandles.LostCallbackNeverRuns`).
* Recovery is described as idempotent, a second call being a no-op. Validation accepts journals with
  several records of one sysctl, and then each of three readings fails for some of them:
  a second run ends where the first did exactly when the value that the records take an installed value to
  is one they take nowhere else (`RecoveryIdempotence.IdempotentIff`; a chain of two records fails it,
  `RecoveryIdempotence.ChainDoesNotSettle`); it is a no-op, without a single write, exactly when no record
  would change that value even on the way (`RecoveryIdempotence.SecondRunIsNoOpIff`; two records that swap
  two values are idempotent but fail it, `RecoveryIdempotence.CycleStillWrites`); and retries after
  failures and crashes converge exactly for journals that settle (`RecoveryConvergence.ConvergesIff`; two
  records over one installed value fail only this, `RecoveryIdempotence.SharedValueRests`). Distinct names
  meet all three (`RecoveryIdempotence.DistinctNamesRest`).
* Traffic is said not to be opened before everything else is undone. Over any history of failed and
  crashed runs that holds exactly for journals without a kill switch and for those that settle and rest
  (`RecoveryRetries.AlwaysFailClosedIff`).
* A comment says that the resolver is restored before any route or rule is removed. The code removes
  routes and rules first, whatever becomes of the resolver (`RecoveryConvergence.RoutesGoBeforeResolver`),
  so the order holds exactly when there is no resolver or neither routes nor rules
  (`RecoveryConvergence.ResolverFirstIff`); only route tables and the kill switch wait for it.
* `WriteTo` reports success when the directory sync is refused with EINVAL; a crash may then
  still bring the old journal back (`StoreLaws.SuccessIsDurableIff`, `StoreLaws.OldJournalReturns`).
* The byte budget of the queue is kept over every run exactly when twice the budget fits a 64-bit integer,
  or the queue holds one packet (`QueueLaws.BudgetIff`).
* The two simulated throughputs can sum to more than the capacity when the step does not divide the
  window; `SimLaws.ThroughputIff` gives the exact condition.
* `checkIPv4UDP` slices its port field past the end of packets whose header reaches into their last four
  bytes. It panics on some call exactly for those packets when the slice has no spare capacity
  (`Ipv4Udp.RunsOffIff`), and with enough spare capacity its verdict depends on bytes behind the packet
  (`Ipv4Udp.ReadsBeyondIff`).

## Model

| member | source | states |
|---|---|---|
| TimerLaws.EarliestIsLeast | internal/testclock/clock.go:156-175 | the entry chosen is the one due entry least in (deadline, creation order), so map order does not matter |
| TimerLaws.Splitting | internal/testclock/clock.go:117-154 | Set(t1) then Set(t2) equals Set(t2) in firings, timers, tick counts, channels and final time, for any callbacks |
| TimerLaws.AdvanceAdds | internal/testclock/clock.go:108-113 | Advance(d1) then Advance(d2) equals Advance(d1 + d2) |
| TimerLaws.ExactFiring | internal/testclock/clock.go:117-154 | a callback-free Set fires every owed firing once, in strict order, in exactly Measure passes, and leaves timers and channels in closed form |
| TimerLaws.FiresPerEntry | internal/testclock/clock.go:129-137 | a due one-shot fires once and is gone; a due ticker fires (t-deadline)/period + 1 times and its tick count rises by that |
| TimerLaws.OrderedUnique | internal/testclock/clock.go:156-175 | order and membership determine the firing sequence completely |
| TimerLaws.NothingRemainsDue | internal/testclock/clock.go:124-153 | after Set(t) with any callbacks no active entry is due |
| TimerModel.PassMeasure | internal/testclock/clock.go:124-150 | each pass lowers the number of remaining passes by exactly one |
| TimerRuns.KeepsFutureIff | internal/testclock/clock.go:93-104 | an operation keeps all deadlines in the future exactly when its duration is not negative |
| TimerRuns.OverdueRewinds | internal/testclock/clock.go:129-130 | with a deadline in the past the next pass moves the clock backwards |
| TimerRuns.StepsBackIff | internal/testclock/clock.go:93-130 | the operations after which the next pass moves the clock backwards are exactly those with a negative duration, on a timer that exists |
| TimerRuns.RunTimely | internal/testclock/clock.go:93-154 | over every run with re-entrant callbacks deadlines stay ahead of now, now never decreases, firings stay in time order |
| TimerRuns.KeepsOrderIff | internal/testclock/clock.go:227-244 | an operation keeps every entry after the last firing exactly unless it resets a live timer to now, past a younger entry that just fired |
| TimerRuns.LostOrderMisfires | internal/testclock/clock.go:124-147 | once some entry is not after the last firing, the very next firing is out of order |
| TimerRuns.OutOfOrderIff | internal/testclock/clock.go:117-154 | the operations after which the next Set fires out of order are exactly those resets |
| TimerRuns.RunOrdered | internal/testclock/clock.go:117-175 | over every run in which no operation, in callbacks too, is such a reset where it is applied, all firings are strictly increasing in (deadline, creation order) |
| TimerRuns.NoZeroResets | internal/testclock/clock.go:240-243 | runs that reset no timer to zero are among them |
| TimerRuns.ZeroResetBreaksOrder | internal/testclock/clock.go:240-243 | a reachable family of runs with a zero reset whose firings are out of order |
| TimerRuns.TwoTimersReachable | internal/testclock/clock.go:62-78 | the state those runs start from is reached from a new clock |
| TimerRuns.FreshStart | internal/testclock/clock.go:45-47 | a new clock meets the hypotheses of the run laws |
| TimerHandles.CallbackRunsAtMostOnce | internal/testclock/clock.go:227-239 | over every run the callback of an AfterFunc handle runs at most once, however it is reset |
| TimerHandles.StopQuiets | internal/testclock/clock.go:215-261 | stopping makes a timer or ticker inactive |
| TimerHandles.StoppedNeverFires | internal/testclock/clock.go:117-261 | a stopped handle does not fire again before it is reset, whatever callbacks do |
| TimerHandles.ResetFiresOnce | internal/testclock/clock.go:227-244 | a reset timer fires exactly once, at now + d and not before, and runs a callback exactly when its entry was live and had one |
| TimerHandles.ResetRunsCallbackIff | internal/testclock/clock.go:227-244 | after a reset the callback runs exactly when the time is reached and the handle still had its callback |
| TimerHandles.KeepsCallbackIff | internal/testclock/clock.go:129-137 | a handle loses its callback exactly by TimerStop or by firing, and nothing gives it back |
| TimerHandles.StopThenResetLosesCallback | internal/testclock/clock.go:215-239 | a timer stopped and then reset fires once, without its callback |
| TimerHandles.LostCallbackNeverRuns | internal/testclock/clock.go:215-239 | over every run a callback once lost never runs, whatever is reset |
| TimerOps.NewTickerTicks | internal/testclock/clock.go:81-90 | a new ticker fires at every multiple of its period from now on and at no other time, (t-now)/d times, and counts that many ticks |
| TimerOps.TickerResetTicks | internal/testclock/clock.go:263-274 | a reset ticker, live or stopped, does so with its new period, and goes on counting |
| TimerOps.NewTimerFires | internal/testclock/clock.go:62-68 | a new timer fires once, d from now, sends that time if its channel is empty, and is gone |
| TimerOps.AfterFuncFires | internal/testclock/clock.go:72-78 | once, d from now, running its callback and sending nothing |
| TimerOps.TimerResetFires | internal/testclock/clock.go:227-244 | once, d from now, into the channel the handle was made with |
| TimerOps.ActiveIffWouldFire | internal/testclock/clock.go:215-244 | Stop and Reset report true exactly for a handle that would still fire if left alone |
| TimerOps.StopsOnly | internal/testclock/clock.go:215-261 | a stopped timer is gone, a stopped ticker keeps its count; other handles are no-ops |
| TimerOps.TouchesOnlySubject | internal/testclock/clock.go:93-104 | an operation moves no time, fires nothing and touches no other handle and no channel but the one it drains |
| TimerOps.CreatedLast | internal/testclock/clock.go:93-104 | what is created or recreated comes after every other entry at equal deadlines |
| TimerOps.MovesTo | internal/testclock/clock.go:106-122 | where Set and Advance end, and when they change nothing |
| TimerOps.WindowFollowsFiring | internal/testclock/clock.go:138-149 | a callback acts on the clock after the firing that runs it and before the next |
| TestClock.Clock.Add | internal/testclock/clock.go:93-104 | registers an entry with a fresh id and creation number |
| TestClock.Clock.NewTimer | internal/testclock/clock.go:62-68 | a one-shot with a channel, due d from now |
| TestClock.Clock.AfterFunc | internal/testclock/clock.go:72-78 | a one-shot with a callback, due d from now |
| TestClock.Clock.NewTicker | internal/testclock/clock.go:81-90 | panics exactly for d <= 0 |
| TestClock.Clock.TimerStop | internal/testclock/clock.go:215-225 | the new state and whether the timer was active |
| TestClock.Clock.TimerReset | internal/testclock/clock.go:227-244 | the new state, for live and for fired timers, and whether it was active |
| TestClock.Clock.TickerStop | internal/testclock/clock.go:255-261 | the new state; the entry stays registered |
| TestClock.Clock.TickerReset | internal/testclock/clock.go:263-274 | the new state; panics exactly for d <= 0 |
| TestClock.Clock.EarliestDue | internal/testclock/clock.go:156-175 | finds the least due entry, walking the map in any order |
| TestClock.Clock.Fire | internal/testclock/clock.go:129-148 | one pass: time, rescheduling or removal, delivery with coalescing |
| TestClock.Clock.Set | internal/testclock/clock.go:117-154 | the whole loop computes the model's Set; panics exactly for a target in the past |
| TestClock.Clock.Advance | internal/testclock/clock.go:108-113 | panics exactly for a negative duration |
| TestClock.Clock.Len | internal/testclock/clock.go:178-188 | counts the active entries |
| TestClock.Clock.TickCount | internal/testclock/clock.go:193-204 | the tick count, or zero when the entry is gone |
| AimdLaws.Contraction | internal/congestion/phase0sim/sim.go:112-163 | two controllers fed alike keep their order, never drift apart, are within ceil(D/2^k) after k halvings and equal after a stale collapse |
| AimdLaws.RateStaysInRange | internal/congestion/phase0sim/sim.go:122-163 | the rate stays within its bounds over every run |
| AimdLaws.EvaluationSpacing | internal/congestion/phase0sim/sim.go:122-126 | evaluations are a round trip apart |
| AimdLaws.RateOfChange | internal/congestion/phase0sim/sim.go:122-170 | at most T/m + 1 rate changes in a window, with the growth and the decay that allows |
| AimdLaws.DelayCutNeedsTwoRounds | internal/congestion/phase0sim/sim.go:139-144 | without loss the rate is halved only in the second of two consecutive high-delay rounds |
| AimdLaws.LossIsRecent | internal/congestion/phase0sim/sim.go:108-152 | a pending loss was observed since the last evaluation |
| AimdLaws.LossHalvesOnce | internal/congestion/phase0sim/sim.go:108-152 | over every run the halvings that losses bring about are no more than the losses |
| AimdLaws.SteadyIncrease | internal/congestion/phase0sim/sim.go:145-153 | in quiet times each evaluation adds exactly one MTU per smoothed round trip, up to the maximum |
| AimdLaws.SrttBetweenSamples | internal/congestion/phase0sim/sim.go:112-120 | the smoothed round trip stays between the least and the greatest sample |
| AimdLaws.ConstantSampleStep | internal/congestion/phase0sim/sim.go:119 | no overshoot, and a standstill exactly within r-7..r |
| AimdLaws.ConstantSampleLimit | internal/congestion/phase0sim/sim.go:112-120 | a constant sample r is reached exactly from above, and to within seven from below |
| AimdLaws.NoOverflow | internal/congestion/phase0sim/sim.go:119-149 | within stated limits no 64-bit operation of a run wraps around, staleness test and round counter included |
| AimdSteps.FeedbackStep | internal/congestion/phase0sim/sim.go:112-120 | the first sample is taken whole; later ones move the estimate an eighth of the way, rounded down |
| AimdSteps.TickStep | internal/congestion/phase0sim/sim.go:122-163 | what a tick makes of the rate, of the pending loss and of the next evaluation time, case by case; a halving ends at max(min, rate/2) |
| AimdSteps.EvaluatesIff | internal/congestion/phase0sim/sim.go:122-126 | a tick evaluates exactly when a smoothed round trip, or the staleness limit, has passed since the last one that did |
| AimdSteps.CollapseIff | internal/congestion/phase0sim/sim.go:128-133 | feedback is stale exactly when the last feedback event lies further back than the limit |
| AimdSteps.HalvingIff | internal/congestion/phase0sim/sim.go:135-152 | a fresh evaluation halves exactly after a loss since the last one, or in the second of two above the delay target |
| AimdSteps.HalvedRate | internal/congestion/phase0sim/sim.go:137-143 | after k halvings and nothing else the rate is max(min, R0 / 2^k) |
| AimdSteps.CollapsedRate | internal/congestion/phase0sim/sim.go:128-133 | a stale evaluation ends at exactly the minimum |
| AimdSteps.QuotTruncates | internal/congestion/phase0sim/sim.go:119 | integer division rounds towards zero |
| SimLaws.LinkAccounts | internal/congestion/phase0sim/sim.go:37-51 | queued + offered = kept + drained + dropped; min(queued + offered, drain) is drained, and only what the full buffer cannot keep is dropped |
| SimLaws.TransferAccounts | internal/congestion/phase0sim/sim.go:210-232 | a measured step credits exactly min(offered, servable), no more than was drained |
| SimLaws.RunAccounts | internal/congestion/phase0sim/sim.go:196-245 | the same accounting over any number of steps |
| SimLaws.ThroughputIff | internal/congestion/phase0sim/sim.go:196-245 | reported throughputs never sum to more than the capacity exactly when the measured steps fit the window |
| SimLaws.DividingStepsHonest | internal/congestion/phase0sim/sim.go:196-245 | they do when the step divides warm-up and window |
| SimSteps.DelayDrainsQueue | internal/congestion/phase0sim/sim.go:49 | the queue delay, in whole nanoseconds, is the time the link needs for what is queued |
| SimSteps.FlowsShare | internal/congestion/phase0sim/sim.go:210-227 | a measured step credits each flow in proportion to its own offer |
| SimSteps.OffersAre | internal/congestion/phase0sim/sim.go:210-219 | an offer is the flow's own rate times the step |
| SimSteps.LossIsShared | internal/congestion/phase0sim/sim.go:212-219 | both flows learn of a drop, and of nothing else |
| SimSteps.TcpTurn | internal/congestion/phase0sim/sim.go:69-83 | the reference flow in every turn: halved after a loss, else one segment per round trip more, within its minimum |
| SimSteps.ControllerLivesThrough | internal/congestion/phase0sim/sim.go:196-240 | over any number of turns the controller goes through exactly the drops, samples and ticks of those turns, so all laws of event runs apply |
| SimSteps.FedNeverCollapses | internal/congestion/phase0sim/sim.go:234-237 | a controller that is fed every turn never finds feedback stale |
| SimSteps.PrimedStart | internal/congestion/phase0sim/sim.go:200-203 | the state in which the loop starts |
| Phase0Sim.Controller.Feedback | internal/congestion/phase0sim/sim.go:112-120 | updates the smoothed round trip in place as modelled |
| Phase0Sim.Controller.Evaluate | internal/congestion/phase0sim/sim.go:128-153 | the branches of an evaluation that is due |
| Phase0Sim.Controller.Clamp | internal/congestion/phase0sim/sim.go:156-163 | the rate is clamped and nothing else changes |
| Phase0Sim.Controller.Tick | internal/congestion/phase0sim/sim.go:122-154 | one evaluation in place as modelled |
| Phase0Sim.TCPFlow.Tick | internal/congestion/phase0sim/sim.go:69-83 | the reference flow in place as modelled |
| Phase0Sim.Link.Step | internal/congestion/phase0sim/sim.go:37-51 | the link in place as modelled |
| Phase0Sim.Simulation.Prime | internal/congestion/phase0sim/sim.go:200-203 | first sample and first evaluation times |
| Phase0Sim.Simulation.Transfer | internal/congestion/phase0sim/sim.go:207-232 | link, loss signals and credited bytes of one step |
| Phase0Sim.Simulation.React | internal/congestion/phase0sim/sim.go:234-240 | feedback, both evaluations and the clock |
| Phase0Sim.Simulation.Run | internal/congestion/phase0sim/sim.go:196-246 | the loop takes exactly the modelled number of steps and reports bytes per second of the window |
| Fairness.Jain | internal/congestion/phase0sim/sim.go:250-260 | the two accumulated sums give the index |
| Fairness.JainRange | internal/congestion/phase0sim/sim.go:248-260 | the index lies in [1/n, 1], is 1 exactly for equal rates and 1/n exactly when one flow takes all |
| Fairness.JainEqual | internal/congestion/phase0sim/sim.go:256-258 | equal rates, all zero included, give 1 |
| Fairness.JainShare | internal/congestion/phase0sim/sim.go:248-260 | when k of n flows get the same rate and the others nothing the index is k/n |
| Schema.ValidateIff | internal/journal/schema.go:97-149 | a journal is refused exactly when some record is malformed |
| Schema.ViolationIsFirst | internal/journal/schema.go:97-149 | the violation reported is the first in the order of the checks |
| SchemaNames.AcceptsIff | internal/journal/schema.go:90-149 | Validate accepts exactly the journals that meet every rule, spelled out character by character |
| SchemaNames.SysctlNameIff | internal/journal/schema.go:92 | sysctl names are two or more dotted words |
| SchemaNames.NamesIff | internal/journal/schema.go:91-94 | the characters and lengths of the other names |
| SchemaNames.ProblemIsFirst | internal/journal/schema.go:107-147 | which problem of a record is reported |
| RecoveryLaws.RefusedTouchesNothing | internal/journal/recover.go:72-77 | a refused or foreign journal leads to no host call |
| RecoveryCalls.RefusedIff | internal/journal/recover.go:72-77 | NotOwner exactly for well-formed journals of another role or, when one is named, another instance; a malformed journal is refused with its violation; neither touches the host |
| RecoveryCalls.CallsInOrder | internal/journal/recover.go:84-174 | whatever fails, the calls other than sysctl writes are those of the records, in order, of every phase reached |
| RecoveryCalls.WritesFollowReads | internal/journal/recover.go:115-134 | whatever fails, each record's sysctl is written right after its read exactly when that found the installed value over another prior |
| RecoveryCalls.ErrorTellsPhase | internal/journal/recover.go:136-174 | the error names the phase in which a call failed |
| RecoveryLaws.KillSwitchLast | internal/journal/recover.go:136-169 | an nftables delete happens only after every other step succeeded |
| RecoveryLaws.TablesAfterPhase1 | internal/journal/recover.go:136-154 | a table flush happens only after every phase 1 step succeeded |
| RecoveryLaws.SysctlWrites | internal/journal/recover.go:115-134 | a sysctl is written only from Installed to Prior, right after reading Installed |
| RecoveryLaws.RetainedIff | internal/journal/recover.go:136-174 | KillSwitchRetained iff NFTablesRemoved < the number of tables; no error iff no call failed |
| RecoveryLaws.ReportIsTrue | internal/journal/recover.go:35-50 | every count and list of the report is that of the calls that succeeded |
| RecoveryConvergence.NeverOpensEarly | internal/journal/recover.go:52-63 | at every instant of a run, a missing kill-switch table means everything else owned has been undone |
| RecoveryRetries.AlwaysFailClosedIff | internal/journal/recover.go:52-66 | the same over every history of failed and crashed runs, exactly for journals without a kill switch or with records that settle and rest |
| RecoveryConvergence.UndisturbedRun | internal/journal/recover.go:67-175 | an undisturbed run succeeds and ends exactly with everything owned undone |
| RecoveryConvergence.AttemptKeepsGoal | internal/journal/recover.go:67-175 | no failure or crash moves the state recovery will reach |
| RecoveryConvergence.ConvergesIff | internal/journal/recover.go:52-66 | retries converge for every host and every failure history exactly when the sysctl records settle |
| RecoveryIdempotence.IdempotentIff | internal/journal/recover.go:64-65 | a second undisturbed run succeeds and ends where the first did, for every host, exactly when the value the records take an installed value to is one they take nowhere else |
| RecoveryIdempotence.SecondRunIsNoOpIff | internal/journal/recover.go:64-65 | it leaves the host alone at every instant, and writes no sysctl, exactly when no record would change that value even on the way |
| RecoveryIdempotence.WritesIff | internal/journal/recover.go:121-133 | an undisturbed run writes a sysctl exactly when some record finds the value it installed, with another prior |
| RecoveryIdempotence.SettlingStays | internal/journal/recover.go:64-65 | settling journals are idempotent |
| RecoveryIdempotence.DistinctNamesRest | internal/journal/recover.go:115-134 | distinct sysctl names meet every one of these conditions |
| RecoveryIdempotence.CycleStillWrites | internal/journal/schema.go:143-147 | a valid journal that settles and is idempotent, whose second run still writes |
| RecoveryIdempotence.SharedValueRests | internal/journal/schema.go:143-147 | a valid journal whose second run is a no-op although crashed retries do not converge |
| RecoveryConvergence.DistinctNamesSettle | internal/journal/recover.go:115-134 | distinct sysctl names settle |
| RecoveryIdempotence.ChainDoesNotSettle | internal/journal/schema.go:143-147 | a valid chain of two records of one sysctl, which takes two undisturbed runs to undo |
| RecoveryConvergence.OnlyOwnedChanges | internal/journal/recover.go:52-54 | after any failures and crashes only what the journal names has changed |
| RecoveryConvergence.RoutesGoBeforeResolver | internal/journal/recover.go:81-109 | the order of phase 1 calls, which failures do not stop |
| RecoveryConvergence.ResolverFirstIff | internal/journal/recover.go:99-109 | the documented order, resolver before any route or rule, holds exactly without a resolver or without routes and rules |
| RecoveryConflicts.OperatorValuesKept | internal/journal/recover.go:115-134 | with distinct names, whatever fails: the sysctls reported are, in order, exactly those that were read and held a foreign value, and those values are kept |
| RecoveryConflicts.UndisturbedValues | internal/journal/recover.go:115-134 | left alone, a run reports every foreign value and moves exactly the installed ones back |
| Recovery.RestoreSysctl | internal/journal/recover.go:115-134 | one sysctl record in place as modelled |
| Recovery.DeleteRoutes | internal/journal/recover.go:84-90 | the route loop in place as modelled |
| Recovery.DeleteRules | internal/journal/recover.go:91-97 | the rule loop in place as modelled |
| Recovery.RestoreResolverState | internal/journal/recover.go:103-109 | the resolver step in place as modelled |
| Recovery.RestoreSysctls | internal/journal/recover.go:115-134 | the sysctl loop in place as modelled |
| Recovery.RunPhase1 | internal/journal/recover.go:81-134 | the four loops of phase 1 in place as modelled |
| Recovery.FlushTables | internal/journal/recover.go:147-154 | the table loop in place as modelled |
| Recovery.RemoveKillSwitch | internal/journal/recover.go:162-169 | the nftables loop in place as modelled |
| Recovery.Recover | internal/journal/recover.go:67-175 | host, trace, report and error of a whole run as modelled |
| StoreLaws.CrashSafe | internal/journal/store.go:59-103 | a crash after any call leaves at path what could be there before or the complete new data |
| StoreLaws.EarlyErrorChangesNothing | internal/journal/store.go:73-101 | every error up to the rename leaves path as it was and, when the remove succeeds, no temporary file |
| StoreLaws.SuccessIsDurableIff | internal/journal/store.go:98-119 | after success the new data survives a crash exactly when the sync was not tolerated away, or nothing else could be there |
| StoreLaws.ToleratedSyncForgets | internal/journal/store.go:105-119 | when the sync is refused with EINVAL, WriteTo succeeds and a crash may still leave all it could before |
| StoreLaws.OldJournalReturns | internal/journal/store.go:105-119 | such a write over a journal that was safely on disk, which a crash may bring back |
| StoreLaws.NeverPartial | internal/journal/store.go:56-103 | over any history of writes and crashes path never holds a part of a file |
| StoreOutcomes.OutcomeIff | internal/journal/store.go:73-119 | WriteTo succeeds exactly when its first seven calls do and the directory sync succeeds or says EINVAL; any other failure is reported as the first call's that failed, after its cleanup |
| StoreOutcomes.SuccessLeavesNoTemp | internal/journal/store.go:98-102 | a write that succeeds leaves no temporary file |
| Store.Directory.FsyncDir | internal/journal/store.go:105-119 | open, sync, and the tolerated EINVAL |
| Store.Directory.Fill | internal/journal/store.go:77-103 | the ordered calls and the cleanup on each error path |
| Store.Directory.CloseAndRemove | internal/journal/store.go:78-81 | the cleanup on an error before the file is closed |
| Store.Directory.Replace | internal/journal/store.go:72-102 | the whole sequence of calls |
| Store.WriteTo | internal/journal/store.go:59-103 | version 0 becomes 1; an invalid or unencodable journal is reported as such and never reaches the directory; else the calls above |
| BoundedRing.Ring.Push | internal/bounded/ring.go:37-45 | appends, or refuses exactly when full; free slots stay zero |
| BoundedRing.Ring.PushEvict | internal/bounded/ring.go:47-61 | appends, dropping the oldest exactly when full |
| BoundedRing.Ring.Pop | internal/bounded/ring.go:63-74 | removes the oldest and zeroes its slot |
| BoundedRing.Ring.Peek | internal/bounded/ring.go:76-82 | the oldest, unchanged |
| BoundedRing.Ring.Reset | internal/bounded/ring.go:84-92 | empties the ring and zeroes all storage |
| QueueLaws.Fifo | internal/bounded/queue.go:58-113 | over every run what came out plus what is queued is what went in, in order and in bytes |
| QueueLaws.BudgetIff | internal/bounded/queue.go:61-77 | the byte budget holds over every run exactly when twice the budget fits 64 bits, or for one packet |
| QueueLaws.AcceptsIff | internal/bounded/queue.go:58-77 | an item is taken exactly when both limits leave room; otherwise the first limit it breaks is named |
| QueueLaws.ExpiryFilters | internal/bounded/queue.go:100-113 | on items in time order dropping from the head removes exactly the expired ones |
| QueueLaws.TimeOrder | internal/bounded/queue.go:74 | under a monotone clock the items are in time order after every run |
| QueueLaws.DropExpiredFilters | internal/bounded/queue.go:100-113 | so DropExpired is a filter after every run |
| QueueLaws.DropsExpiredHead | internal/bounded/queue.go:100-113 | in any queue the longest expired stretch from the head on is dropped |
| ByteQueues.ByteQueue.Enqueue | internal/bounded/queue.go:61-77 | verdict and new state; the ignored result of Push is never false |
| ByteQueues.ByteQueue.Dequeue | internal/bounded/queue.go:79-87 | the oldest item and its bytes leave |
| ByteQueues.ByteQueue.DropOldest | internal/bounded/queue.go:94-98 | the same, under the name head-drop policies use |
| ByteQueues.ByteQueue.Peek | internal/bounded/queue.go:89-92 | the oldest item, unchanged |
| ByteQueues.ByteQueue.DropExpired | internal/bounded/queue.go:100-113 | the loop returns and removes the expired head |
| ByteQueues.ByteQueue.Sizes | internal/bounded/queue.go:115-125 | the reported length, bytes and limits are exact |
| PoolModel.RunExclusive | internal/packetbuf/pool.go:3-13 | when every handle is released at most once, every buffer has at most one owner in every reachable state |
| PoolModel.ReturnExclusiveIff | internal/packetbuf/pool.go:115-128 | a further release is harmless exactly while the buffer has not been handed out again |
| PoolModel.HeldIsNotFree | internal/packetbuf/pool.go:5-10 | a held buffer is in no free list |
| PoolModel.HandsOut | internal/packetbuf/pool.go:71-81 | a Get takes one buffer out of its bag, or makes one, and nothing else changes hands |
| PoolModel.ReturnFrees | internal/packetbuf/pool.go:115-128 | a release puts the buffer, once, into the bag of its own class and into no other |
| PoolModel.NothingLeaks | internal/packetbuf/pool.go:5-13 | but for the garbage collector every buffer ever made is held by one owner or lies in its bag, after every run |
| PoolModel.FirstFitIsSmallest | internal/packetbuf/pool.go:41-44 | with ascending classes the first that fits is the smallest |
| PacketBuf.Pool.Get | internal/packetbuf/pool.go:67-84 | length n in the first fitting class, panics exactly when none fits; a pooled buffer exactly when the pool has one to hand out, else a new one, never one in use; every other lease, handle and length is kept |
| PacketBuf.Pool.Obtain | internal/packetbuf/pool.go:75-80 | one size class: a pooled buffer or a new one, with length n |
| PacketBuf.Pool.OwnersAreDisjoint | internal/packetbuf/pool.go:5-10 | different owners have different buffers with different storage, none of them free |
| PacketBuf.Buffer.Resize | internal/packetbuf/pool.go:106-113 | sets the length, panics exactly out of range |
| PacketBuf.Buffer.Release | internal/packetbuf/pool.go:115-128 | through any handle ever given out: gives the buffer back, or is swallowed when it is back already; ownership stays exclusive exactly for an open lease or a swallowed call |
| PacketBuf.ReadInto | internal/tun/pooled.go:9-25 | released exactly on error, else still owned and holding the packet |
| PacketBuf.WriteFrom | internal/tun/pooled.go:27-33 | always released, after the device has seen its bytes once; what the device says is passed on |
| Base64.OctetsOfSextets | internal/identity/keyfile.go:22-23 | decoding undoes encoding, for any bytes |
| Base64.SameOctets | internal/identity/keyfile.go:70 | which inputs decode alike |
| Base64.LetterOfTable | internal/identity/keyfile.go:22-23 | the characters are those of table 1 of RFC 4648, in its order |
| Base64.ValueOfTable | internal/identity/keyfile.go:22-23 | the alphabet is exactly that table, and a character's value its position |
| Base64.SextetsAreBits | internal/identity/keyfile.go:22-23 | every three bytes and their four characters are the same bits, most significant first |
| KeyFile.RoundTrip | internal/identity/keygen.go:44-48 | ParseKey(Encode(k)) == k |
| KeyFile.AcceptedIff | internal/identity/keyfile.go:34-79 | accepted exactly: 43 alphabet characters with nothing, LF or CRLF after them |
| KeyFile.ErrorMeans | internal/identity/keyfile.go:40-79 | exactly when a file is refused, and for what |
| KeyFile.BodyIs | internal/identity/keyfile.go:44-52 | the body is the file without one LF or CRLF |
| KeyFile.SpaceIs | internal/identity/keyfile.go:117-119 | which bytes are white space |
| KeyFile.SameKeyIff | internal/identity/keyfile.go:70-78 | two bodies hold one key exactly when they differ at most in two ignored bits |
| KeyFile.FourBodies | internal/identity/keyfile.go:70-78 | every key has exactly four bodies |
| KeyFile.CanonicalBody | internal/identity/keygen.go:44-48 | Encode writes the body whose ignored bits are zero |
| KeyFile.EncodedFile | internal/identity/keygen.go:44-48 | a key file is the 43 letters of the key and a line feed |
| KeyFile.PaddedIsRefused | internal/identity/keyfile.go:66-68 | the padded form of every key is refused as padded |
| InternetChecksum.IpChecksum | test/integration/tun_plaintext_linux.go:184-193 | both loops compute the folded, complemented sum in 32 bits |
| InternetChecksum.NoOverflowIff | test/integration/tun_plaintext_linux.go:185-188 | the accumulator holds every sum of up to n words exactly when n <= 65537 |
| InternetChecksum.Fold | test/integration/tun_plaintext_linux.go:189-191 | carry folding ends and keeps the sum modulo 65535 |
| InternetChecksum.ChecksumValue | test/integration/tun_plaintext_linux.go:184-193 | the checksum in closed form, from the sum of the words |
| InternetChecksum.WordSumIs | test/integration/tun_plaintext_linux.go:185-188 | the words have their more significant byte first; an odd last byte is left out |
| InternetChecksum.Rfc1071Example | test/integration/tun_plaintext_linux.go:184-193 | the numerical example of section 3 of RFC 1071 |
| InternetChecksum.OneWordErrorDetected | test/integration/tun_plaintext_linux.go:184-193 | a changed word goes unnoticed only between the two zeros of ones' complement |
| Ipv4Udp.BuildIPv4UDP | test/integration/tun_plaintext_linux.go:166-182 | writes the packet in place, field by field |
| Ipv4Udp.HeaderVerifies | test/integration/tun_plaintext_linux.go:166-193 | the checksum of every built header, recomputed, is zero |
| Ipv4Udp.PacketLayout | test/integration/tun_plaintext_linux.go:166-182 | every byte of a built packet: section 3.1 of RFC 791 and the UDP header of RFC 768 |
| Ipv4Udp.BuiltPacketAcceptedIff | test/integration/tun_plaintext_linux.go:138-182 | a built packet is accepted exactly for its own destination and port and a payload of at most 65507 bytes |
| Ipv4Udp.VerdictIff | test/integration/tun_plaintext_linux.go:138-164 | each verdict, by the first check that fails |
| Ipv4Udp.RunsOffIff | test/integration/tun_plaintext_linux.go:138-162 | without spare capacity some call panics exactly for well-formed UDP packets of 28 to 63 bytes whose header ends within their last four |
| Ipv4Udp.OutOfRangeIff | test/integration/tun_plaintext_linux.go:138-162 | which calls panic, for any spare capacity |
| Ipv4Udp.ReadsBeyondIff | test/integration/tun_plaintext_linux.go:160-162 | the verdict depends on bytes behind the packet exactly for the same packets when there is spare capacity enough |
| Ipv4Udp.OverlongRunsOff | test/integration/tun_plaintext_linux.go:145-162 | there is such a packet of every size from 28 to 63 |

## Left out

- TestClock.Clock.Set: a `Set` that never ends, because callbacks keep rescheduling at the same instant, has no script; a callback that calls Set or Advance deadlocks and is not an operation of the model.
- TestClock.Clock.Add: timer numbers and times are unbounded integers, without the limits of 64-bit counters and of time.Duration.
- TestClock.Clock.EarliestDue: sorting the due entries is library code; the least entry is picked by a loop instead. Channels are a map from timer ids to buffered values.
- True parallelism: two concurrent Set calls and the Go memory model.
- Phase0Sim.Simulation.Run: floats are exact reals; capacity, base round trip, step and window must be positive, for which the program would divide by zero or never stop.
- AimdLaws.RateOfChange: controller arithmetic is over unbounded integers; AimdLaws.NoOverflow gives limits within which 64 bits agree.
- The fairness percentages between the controller and TCP at particular buffer depths.
- Recovery.Recover: log lines and error texts; errors are told apart by phase only.
- Schema.ValidateIff: strings are sequences of characters; creation times are not modelled.
- Store.WriteTo: JSON encoding is a parameter; file modes, owners, symbolic and hard links, EnsureDir and Load are not modelled.
- StoreLaws.CrashSafe: a rename or a remove that reports an error is taken to have had no effect.
- PacketBuf.Buffer.Release: the debug build, which panics where this one swallows, and stale bytes left in reused buffers.
- PacketBuf.ReadInto: the device is a scripted one; netlink, ioctl and descriptor handling are not modelled.
- KeyFile.RoundTrip: key files are byte sequences; permissions, file access and key generation are not modelled.
- Ipv4Udp.BuiltPacketAcceptedIff: addresses are IPv4 only.
- Configuration, command line, reason codes, build information and the QUIC experiment: independent checks, tables and wrappers.
- The replay and dedup windows, scheduler and handshake of the design documents: there is no code for them yet.
