# Edge gateway: a verified model of its hard parts

The gateway collects values from field devices, controls the power of a fleet of converters (PCS), and
publishes to an MQTT broker. This project models the parts of it that are hard to get right and proves what
they promise, for all inputs and all runs:

- **Power control.** `Allocation`, `WaterFilling` and `MinimumPower` are the weighted capacity allocator and
  the minimum-power elimination around it. `PowerLimits` holds the rate limiter, the ratings and the apparent
  power envelope. `ControllerTypes`, `ControlLaw` and `Controller` are the seven-state controller:
  `ControlLaw.Cycle` is one cycle as a function, `Controller.AgcAvcController` the object that computes it in
  place. `ControllerRuns` proves what holds over every run of cycles, `PowerPermission` in which direction power may
  grow, `ControlLoops` how the loops and limits shape the request, and `CommandTracking` when the commanded power is
  delivered. `WriteBook`, `WriteDiscipline`, `WriteValues`, `WriteResults`, `Dispatch` and `Service` are the service
  above it: the command latch, the ownership gate and the pipeline of setpoint writes, with what it submits and how
  results settle it.
- **Collection.** `ReadTasks`, `Backoff`, `TaskBudget` and `AdaptiveReading` are read tasks and their
  splitting, backoff, budgets and the adaptive reading of blocks; `Collector` is the object that runs them;
  `AdaptiveBounds`, `AdaptiveCoverage`, `BackoffRuns` and `Fairness` prove the bounds, the preservation of meaning,
  that no point is lost, the waiting over every run of cycles and the absence of starvation.
- **Rule expressions.** `RuleValues`, `RuleParser` and `RuleEngine` are the recursive-descent evaluator;
  `RuleSyntax` is a syntax tree with its own meaning and printer, `RuleGrammar` the grammar from texts to trees.
  `RuleTrees` proves that every text has the meaning of its tree, `RuleLexing` and `RuleRoundTrip` that the tree of a
  printed text is the one that was printed. `RuleLaws` are the laws of the operators and functions.
- **Codecs and framers.** `Ft12` (the IEC 60870-5-1 FT1.2 receive buffer), `CanSignal` and `CanCodec` (CAN
  signals), `MqttLength` and `MqttPublish` (MQTT packets), `Dlt645Frames`, `Dlt645Values` and `Dlt645Client`
  (DL/T 645-2007 frames, values and reassembly).
- **MQTT buffering.** `ChunkJson`, `ChunkPacking`, `ChunkEncoder` and `ChunkLimits` (realtime values packed into
  chunks of bounded size), `OfflineLines`, `OfflineQueue` and `OfflineBuffer` (the memory-and-file offline queue).

`Integers`, `Reals`, `Rounding`, `Results`, `Sequences`, `Bits`, `Bytes`, `Decimal` and `Hexadecimal` are shared
vocabulary. All files are checked together: `dafny verify dfyconfig.toml`.

## How the model stands to the code

- A loop or an object that changes its fields is a method or a class here, and its contract ties it to a
  function (`Allocated`, `Cycle`, `Execute`, `ParseLevel`, `Pack`, `Flush`, …) or states the result outright;
  the lemmas are about those functions.
- Doubles are exact reals: no rounding, no NaN, no infinities, no negative zero. The code's tolerances (1e-9,
  1e-12) are kept as constants. The square root and tan(acos x) are the record `Libm`, of which only
  "non-negative with the right square" is assumed for the root; powers of ten in rules and the 32-bit float
  format of CAN signals are parameters too.
- Integers are unbounded except where their width matters: 32-bit `stoi`, the 64-bit casts of CAN and DL/T 645
  values, the 64-bit property length of MQTT 5.
- Exceptions are `Failed`; message texts, status strings and log output are not modelled.
- The device, the broker, the serial port, the file system, the point bus, the ownership lease, the clock and
  iteration order over hash maps are arbitrary: parameters (`Device`, `Bus`, `Tick`, `broker`, `Faults`,
  `moments`, `arrivals`) about which nothing is assumed unless a lemma says so.
- Some fields are histories that the code does not store: `log` in the write book, `probes`, `executed` and
  `outcomes` in the collector, `received` and `emitted` in the FT1.2 receiver.

Where the code does less than one might expect, the exact condition is proved:

- The envelope leaves a point outside the disc unchanged when the limit is not positive
  (`PowerLimits.EnvelopeShrinksIntoDisc`), and a rating is bounded by the commissioned one exactly under
  `Bounding` (`ControllerRuns.RatingWithinCommissioned`).
- Of several points with a `ratedPercent` setpoint each is sent the whole percentage, while other setpoints are
  divided among them (`WriteValues.IsShare`).
- The text of a chunk of several values can exceed the payload limit, because the running count assumes one digit
  for the chunk's index and one for the number of chunks. For a given number of values with a meter code there is
  a message of values as the code renders them in which that happens if and only if the number is above ten and the
  header leaves room for two of them (`ChunkLimits.OverflowPossible`); `ChunkLimits.ExceedsExactly` says exactly which payloads exceed it.
- The byte-wise CAN path agrees with the bit-wise one for little-endian `lsb0` signals; for every big-endian one there
  is a payload of which they read different values (`CanSignal.PathsAgree`, `CanSignal.BigEndianPathsDiffer`).
- A CAN value comes back within half a step exactly when its rounded quotient fits the signal; the code does
  not check that it does (`CanCodec.NumericRoundTrip`; `CanCodec.TooWideValue` is a value that does not).
- A PUBLISH packet above 268435455 bytes is built with a five-byte length that no receiver accepts
  (`MqttLength.LengthRoundTrip`, `MqttPublish.PublishRoundTrip`).
- Trimming the offline file keeps the messages whose text is strictly shorter than the limit: a file whose
  last lines fit exactly loses one more (`OfflineLines.TrimmedMessages`).

## Model

| member | source | states |
|---|---|---|
| `Allocation.AllocateByCapacity` | src/agc_avc_controller.cpp:50-104 | the loops over `result`, `active` and `remaining` compute the allocation that the water-filling lemmas are about, early exits included |
| `Allocation.RunPass` | src/agc_avc_controller.cpp:77-95 | one pass over the devices is one `Pass` of the fill: what each active device gets, who retires, and what remains |
| `WaterFilling.PassFilled` | src/agc_avc_controller.cpp:66-97 | a pass raises the common level by remaining/weight: active devices hold exactly level times weight, retired ones between capacity minus 1e-9 and min(capacity, level times weight); it distributes more than 1e-9, and loses a device unless everything is served |
| `WaterFilling.PassesFilled` | src/agc_avc_controller.cpp:66-97 | any number of passes keeps that; more passes than active devices leave at most 1e-9 or no weight |
| `WaterFilling.AllocationIsWaterFilling` | src/agc_avc_controller.cpp:50-104 | there is a level L such that every device gets min(capacity, L times weight) up to 1e-9 and never more, with the sign of the total; the shares sum to the total less what is unserved, and that is at most 1e-9 unless the active devices weigh nothing |
| `WaterFilling.UnservedMeansFull` | src/agc_avc_controller.cpp:50-104 | power is left over only if every eligible device is at its capacity up to 1e-9 |
| `WaterFilling.EarlyExitUnreachable` | src/agc_avc_controller.cpp:92-94 | in exact arithmetic the allocation equals the one without the early exit for an unproductive pass |
| `MinimumPower.FindBelowMinimum` | src/agc_avc_controller.cpp:115-124 | finds the first of the smallest magnitudes that lie above 1e-9 and below their minimum, or none exactly when there is none |
| `MinimumPower.AllocateWithMinimum` | src/agc_avc_controller.cpp:106-131 | the elimination loop computes the allocation that the next two lemmas are about; it always returns from within the loop |
| `MinimumPower.EliminationFinishes` | src/agc_avc_controller.cpp:113-130 | the elimination ends by itself after at most as many re-allocations as there are positive capacities, with nothing below its minimum; any larger number of rounds gives the same allocation, and only a smaller one the all-zero fallback |
| `MinimumPower.MinimumsRespected` | src/agc_avc_controller.cpp:106-131 | for all inputs the result is the allocation over the capacities that are left when the smallest share below its minimum is taken out, one at a time, until there is none; every magnitude is at most 1e-9 or at least its minimum less 1e-9, within the original capacity, and signed like the total |
| `PowerLimits.ClampValue` | src/agc_avc_controller.cpp:13-18 | the result lies between the bounds in either order, and a value between them is kept |
| `PowerLimits.RateLimit` | src/agc_avc_controller.cpp:24-34 | never moves past the requested value or back behind the previous one, moves by at most rate times time, and arrives whenever the ramps cover the distance |
| `PowerLimits.RateLimitToZero` | src/agc_avc_controller.cpp:24-34 | towards zero: no sign change, no growth, and a step of at least rate times time or all the way |
| `PowerLimits.EffectiveCapability` | src/agc_avc_controller.cpp:36-48 | non-negative, and positive and within the commissioned limit for a commissioned rating whose policy is not "source" |
| `PowerLimits.RisingDerateFactor` | src/agc_avc_controller.cpp:133-138 | a factor between zero and one, zero exactly up to `stop` and one exactly from `full` on |
| `PowerLimits.FallingDerateFactor` | src/agc_avc_controller.cpp:140-145 | a factor between zero and one, one exactly up to `full` and zero exactly from `stop` on |
| `PowerLimits.DeratesMonotone` | src/agc_avc_controller.cpp:133-145 | the one never falls and the other never rises with the value |
| `PowerLimits.DeratesProportional` | src/agc_avc_controller.cpp:133-145 | between the ends both factors are proportional to the distance |
| `PowerLimits.PriorityKeeps` | src/agc_avc_controller.cpp:155-175 | when the envelope cuts, reactive or active power within the rating is kept according to the priority, or the ratio of the two |
| `PowerLimits.EnvelopeShrinksIntoDisc` | src/agc_avc_controller.cpp:155-175 | for every priority, neither component grows or flips its sign; the result is in the disc if and only if the limit is positive or the input was; inputs in the disc are kept, others end exactly on the circle |
| `Controller.AgcAvcController.constructor` | src/agc_avc_controller.cpp:196-200 | starts with the initial memory |
| `Controller.AgcAvcController.Reset` | src/agc_avc_controller.cpp:206-218 | returns to the initial memory |
| `Controller.AgcAvcController.Step` | src/agc_avc_controller.cpp:220-569 | one cycle computes `ControlLaw.Cycle` of the memory and the input, in every branch of the seven states |
| `Controller.AgcAvcController.SetZeroAssignments` | src/agc_avc_controller.cpp:232-258 | every PCS goes to zero at once or by its rate limit, and the totals are those of the new targets |
| `Controller.AgcAvcController.FollowMeasurements` | src/agc_avc_controller.cpp:284-301 | during a priority pause the memory follows the valid measurements and nothing is commanded |
| `Controller.AgcAvcController.FollowCommand` | src/agc_avc_controller.cpp:317-569 | the active cycle: loops, station limits, capabilities, allocation, targets, degradation |
| `Controller.AgcAvcController.CollectCapabilities` | src/agc_avc_controller.cpp:417-517 | the capability of every PCS and the fleet's totals |
| `Controller.AgcAvcController.ShareOut` | src/agc_avc_controller.cpp:519-525 | active power first with minimums, then reactive power within what the active share leaves of each rating |
| `Controller.AgcAvcController.ApplyTargets` | src/agc_avc_controller.cpp:527-557 | rate limit, then envelope, for each PCS; emitted and remembered targets are the same |
| `PowerPermission.CapabilityIsWhole` | src/agc_avc_controller.cpp:446-505 | a converter that nothing derates offers any amount within its rating, its configured and its reported limit on the permitted side |
| `PowerPermission.PowerGrowsWithPermission` | src/agc_avc_controller.cpp:411-557 | in every cycle that is no pause, P grows beyond zero and beyond what it was only if the converter is enabled, healthy, online and ready, the direction is allowed, the state of charge and the temperature are not at their stop, and the new value is within the configured, commissioned and reported limit of that side and the ramp; likewise Q within its limits |
| `ControlLoops.StateOfCycle` | src/agc_avc_controller.cpp:222-569 | which state each input leads to, that degraded means too much unserved, and that the total is that of the targets |
| `ControlLoops.IntegralsAreCleared` | src/agc_avc_controller.cpp:236-312 | a cycle that does not follow a command clears the integrals; a pause remembers the measured powers |
| `ControlLoops.RequestFollowsError` | src/agc_avc_controller.cpp:314-338 | on target within the deadband and without an integral the raw P request is the command; otherwise, for non-negative gains, it is moved from it in the direction of the error by at least the proportional part; the integral follows the error within its bounds |
| `ControlLoops.DroopSupportsFrequency` | src/agc_avc_controller.cpp:329-336 | droop adds power below the nominal frequency and takes it above, in proportion and up to its limit |
| `ControlLoops.DisabledLoopAsksNothing` | src/agc_avc_controller.cpp:314-389 | a disabled loop requests zero |
| `ControlLoops.ReactiveRequestIsHeld` | src/agc_avc_controller.cpp:341-389 | between the calculations of the reactive loop its last request holds; a new one is held next |
| `ControlLoops.ReactiveFollowsError` | src/agc_avc_controller.cpp:365-382 | in reactive mode the Q request moves from the command in the direction of the error |
| `ControlLoops.VoltageFollowsError` | src/agc_avc_controller.cpp:349-360 | in voltage mode it moves from the station's last Q in the direction of the voltage error |
| `ControlLoops.PowerFactorRequest` | src/agc_avc_controller.cpp:361-364 | in power-factor mode it is the measured P times the tangent of the angle, signed like the commanded factor |
| `CommandTracking.RequestStaysInStation` | src/agc_avc_controller.cpp:391-409 | the request moves from the delivered power by at most the station's ramps, and grows only towards the raw request and within the loop's range and the station's limits |
| `CommandTracking.StationGoal` | src/agc_avc_controller.cpp:391-409 | the ramps take it to a power in the discs of the station and the transformer, which is the raw P request if the station allows that and active power goes first |
| `CommandTracking.RequestIsDelivered` | src/agc_avc_controller.cpp:411-569 | with enough capability on the side of the request, slack ramps, no minimums and active power first, the P that is asked for is delivered, up to 1e-9 for each converter and one |
| `CommandTracking.ReactiveRequestIsDelivered` | src/agc_avc_controller.cpp:519-569 | so is the Q, if the reactive room beside the delivered P is enough and its ramps are slack |
| `CommandTracking.RequestIsCommand` | src/agc_avc_controller.cpp:314-408 | when the loop has nothing to correct and the station allows and reaches the command, the request is exactly the command |
| `CommandTracking.CommandIsDelivered` | src/agc_avc_controller.cpp:314-569 | and then the delivered P is the commanded P |
| `ControllerRuns.RatingWithinCommissioned` | src/agc_avc_controller.cpp:36-48 | every collected value gives a positive rating within the commissioned one if and only if something positive was commissioned and the policy or the missing source point rules out a replacement |
| `ControllerRuns.CycleStaysInDisc` | src/agc_avc_controller.cpp:220-569 | a cycle in any state keeps every remembered and emitted (P, Q) in its commissioned disc, given measured feedback in the disc if the cycle pauses |
| `ControllerRuns.MeasuredMustBeInDisc` | src/agc_avc_controller.cpp:284-301 | a pause with measured feedback outside the disc leaves it |
| `ControllerRuns.RunStaysInDisc` | src/agc_avc_controller.cpp:220-569 | so does every run from the initial memory, given such feedback in the cycles that pause |
| `ControllerRuns.EmitsRemembered` | src/agc_avc_controller.cpp:220-569 | a cycle emits either nothing or, for every PCS, exactly the power it remembers |
| `ControllerRuns.UndirectedRunRampsToZero` | src/agc_avc_controller.cpp:227-315 | in any run without a usable command, the magnitudes of P and Q of each PCS never grow, nor do the signs flip; they shrink by rate times elapsed time, and are exactly zero once that covers the start |
| `ControllerRuns.ElapsedIsWallClock` | src/agc_avc_controller.cpp:227-230 | with an advancing clock the elapsed time of a run is the difference of its first and last timestamps |
| `Dispatch.LatchIsMonotone` | src/agc_avc_service.cpp:452-469 | over every run of ticks the latched sequence never falls, changes only to a confirmed strictly larger one that some tick observed, and is at least every confirmed positive sequence seen |
| `Dispatch.UnstableIsUnsafe` | src/agc_avc_service.cpp:453-475 | the controller is fed the latched command, and unsafe inputs when the reading is unsafe, the sequence was not confirmed, or writes fail |
| `Dispatch.LostDispatchRampsToZero` | src/agc_avc_service.cpp:452-469 | once the latched command has expired, every run in which the clock does not go back, no larger sequence is confirmed and no pause occurs drives each PCS to exactly zero in the time its ramp needs, whatever else the ticks observe |
| `Service.AgcAvcService.RegisterWriteFailure` | src/agc_avc_service.cpp:566-573 | counts the failure and forgets what was last submitted for the index |
| `Service.AgcAvcService.ProcessWriteResults` | src/agc_avc_service.cpp:575-644 | settles pending writes in some order of the map, then the feedback watches, then the failure count |
| `Service.AgcAvcService.SettleWrite` | src/agc_avc_service.cpp:579-614 | one pending write succeeds and starts a watch, fails, times out or stays |
| `Service.AgcAvcService.SettleFeedback` | src/agc_avc_service.cpp:617-638 | each watch is met, missed at its deadline, or kept |
| `Service.AgcAvcService.SubmitTargetsOf` | src/agc_avc_service.cpp:686-735 | submits to every target index that is not in flight, not unchanged and not within its interval |
| `Service.AgcAvcService.SubmitAll` | src/agc_avc_service.cpp:676-751 | P and Q setpoints of every available PCS |
| `Service.AgcAvcService.UpdateOwnership` | src/agc_avc_service.cpp:529-557 | asks for ownership exactly when the state and what is outstanding need it, never in shadow mode |
| `Service.AgcAvcService.RunTick` | src/agc_avc_service.cpp:452-564 | the tick latches, settles, runs the controller and submits only with acquired ownership outside a pause; with the failure count at its limit it emits only zero targets; every tick keeps the discipline that the `WriteDiscipline` rows spell out |
| `Service.FailsafeEmitsZero` | src/agc_avc_controller.cpp:268-282 | an unhealthy or stopped enabled controller is in failsafe, with zero emitted and remembered for every PCS |
| `Service.OwnershipUntilZero` | src/agc_avc_service.cpp:530-558 | ownership is needed while a command is followed and, once held, until nothing is in flight and zero was last sent everywhere; never in shadow mode |
| `WriteDiscipline.ProcessResultsKept` | src/agc_avc_service.cpp:575-644 | settling results, in any order, keeps the pipeline in step with its history and at most one watch per PCS and quantity |
| `WriteDiscipline.SubmitAssignmentsKept` | src/agc_avc_service.cpp:676-751 | so does submitting |
| `WriteDiscipline.SubmissionsSpaced` | src/agc_avc_service.cpp:706-734 | in every kept history, two submissions to an index without a failure between them are at least the minimum interval apart |
| `WriteDiscipline.AtMostOneInFlight` | src/agc_avc_service.cpp:696-734 | at every moment of a kept history an index has no command in flight or one |
| `WriteDiscipline.ResolvedBetween` | src/agc_avc_service.cpp:696-734 | between two submissions to an index the first was resolved |
| `WriteDiscipline.SubmittedWithOwnership` | src/agc_avc_service.cpp:541-562 | every submission happened in a tick that had acquired ownership |
| `WriteValues.SubmittedAreShares` | src/agc_avc_service.cpp:676-751 | whatever the bus answers, everything a tick submits is the share of a P or Q target of this cycle for one of the points of that PCS: times the number of points it is the target, or in percent times the rating 100 times the target, or zero without a rating; nothing was in flight to the point, the value is new by at least the deadband, and what is in flight carries the whole target |
| `WriteValues.WholeTargetSubmitted` | src/agc_avc_service.cpp:692-730 | a PCS whose points are all submitted to gets values that add up to exactly its target |
| `WriteValues.NoPointPassedOver` | src/agc_avc_service.cpp:676-751 | behind a tick every point of an available PCS has a write in flight, was refused by the bus, has no index, has its share up to the deadband, or was written less than the interval ago |
| `WriteResults.RoundSettled` | src/agc_avc_service.cpp:575-644 | after a round exactly the writes without a result and within their timeout are in flight and exactly the watches neither met nor overdue go on; refused and late writes and overdue watches are counted, and a success without any of them clears the count |
| `WriteResults.FailedIsForgotten` | src/agc_avc_service.cpp:566-614 | a failed or late write is forgotten, so that its value can be sent again |
| `WriteResults.SuccessIsWatched` | src/agc_avc_service.cpp:582-602 | a successful write is watched for the whole target, in place of an older watch |
| `Decimal.StoiPrint` | src/collector.cpp:534-538 | reading back a printed machine integer gives the integer |
| `ReadTasks.ParsePrintedKey` | src/collector.cpp:33-52 | parsing a printed backoff key gives its function, start and count, and is valid exactly when the count is positive |
| `ReadTasks.SplitIsSplitting` | src/collector.cpp:555-599 | the parts of a split are well placed, keep the function code and list the points of the task in order, each once |
| `ReadTasks.SplitShrinks` | src/collector.cpp:555-599 | when a split has several parts, each has fewer points than the task and at least one |
| `ReadTasks.SplitIsGreedy` | src/collector.cpp:555-599 | a task that is one block of its points within the limit is split by point; any other into blocks from their first point to their farthest end, within the limit if they hold several points, and every break is forced: the next point lies before the block or would take it over the limit |
| `Backoff.DoubleUpToCap` | src/collector.cpp:474-519 | the doubling loop computes min(max(base, cap), base times 2 to the extra failures) |
| `Backoff.ClearsExactlyCovered` | src/collector.cpp:521-532 | a successful read clears an entry if and only if it has the same function and covers the entry's range |
| `Backoff.HeldExactlyWhileWaiting` | src/collector.cpp:428-472 | until the range fails again, it is skipped at a moment exactly while the wait lasts and no covering read has succeeded |
| `Backoff.WaitDoubles` | src/collector.cpp:474-519 | waits in cycles and in time start at their base, double with each failure beyond the threshold, and stop at their cap; tasks read in real time have their own |
| `Backoff.FailureHoldsForTime` | src/collector.cpp:428-472 | backoff by time: from its threshold on a failure holds the range back exactly for its wait, and reads in real time for the base time; other ranges are not touched |
| `BackoffRuns.ExecuteIsLegal` | src/collector.cpp:279-361 | adaptive reading, for any device, reads nothing that is held back, notes every answer, and changes the entries in no other way |
| `BackoffRuns.CyclesAreLegal` | src/collector.cpp:79-82 | every run of collection cycles, for any devices, is a legal run of the backoff rules and ends with its entries |
| `BackoffRuns.NotReadWhileWaiting` | src/collector.cpp:428-472 | in every run of cycles, for any devices: after the failure that makes a range's count k, the exact range is not read in the next min(max(base, cap), base times 2 to the k minus threshold) cycles, unless a covering read succeeds in between |
| `BackoffRuns.ReleasedAfterWait` | src/collector.cpp:428-472 | in every later state of the run until the range fails again, it is held back at a moment if and only if that moment is within the wait and no covering read has succeeded |
| `TaskBudget.TaskOldestValueUpdateMs` | src/collector.cpp:789-801 | the oldest update among the task's points, or the minimum when a point has none or there are no points |
| `TaskBudget.Order` | src/collector.cpp:757-776 | the stable order by backoff, priority and age: sorted, and a permutation of the candidates |
| `TaskBudget.BestAreTaken` | src/collector.cpp:740-787 | a budget below the number of candidates takes that many, in order of rank, and every one left out ranks behind all taken |
| `TaskBudget.MostUrgentAreTaken` | src/collector.cpp:740-787 | no task held back is taken while another is left out, of the rest none with a larger priority number, and of equal ones none updated later |
| `TaskBudget.TaskIsAsUrgentAsItsPoints` | src/collector.cpp:803-817 | a task's priority is the smallest of its points', negative ones counting as zero |
| `TaskBudget.TaskIsAsOldAsItsPoints` | src/collector.cpp:789-801 | a task is as old as its oldest point, and older than any other if a point was never updated |
| `AdaptiveReading.LimitLeafProbes` | src/collector.cpp:601-649 | all-leaf splits are cut to the remaining probe budget; while there is budget other splits are kept whole; without any nothing is read |
| `AdaptiveReading.BestLeavesAreProbed` | src/collector.cpp:601-649 | an all-leaf split that the budget cuts keeps as many single points as the budget, those not held back first and then the least recently updated, ties in their order; everything left out ranks behind all that is kept |
| `AdaptiveReading.OldestLeavesAreProbed` | src/collector.cpp:601-649 | no point held back is probed while another is left out, and of the others none updated later than one left out |
| `AdaptiveBounds.SliceIsImageSlice` | src/collector.cpp:230-248 | the registers of a point are the same in every block that contains it |
| `AdaptiveBounds.ExecuteAccounted` | src/collector.cpp:279-361 | for every device: a task of m points costs at most 2m - 1 wire reads, each point gets at most one outcome, leaf probes are paid from the budget, and every decoded point saw the registers the undivided block shows |
| `AdaptiveBounds.CycleAccounted` | src/collector.cpp:363-366 | for a whole cycle: probes within the cycle's budget, reads bounded by the planned points, at most one outcome per planned point |
| `AdaptiveCoverage.EveryPointIsDecided` | src/collector.cpp:279-361 | a cycle that skips no block, with probes for the points of all blocks of several, gives every planned point exactly one outcome, in order, for every device |
| `AdaptiveCoverage.DepthStops` | src/collector.cpp:279-361 | at the depth limit, or with splitting off, a block costs one read, or none if it is held back |
| `AdaptiveCoverage.DecodedExactly` | src/collector.cpp:230-264 | a point of a block that was read is decoded from its own registers or, if they do not decode, unreadable |
| `Collector.ModbusCollector.NoteTaskReadFailure` | src/collector.cpp:450-472 | the entry's count, time and next attempt after a failure |
| `Collector.ModbusCollector.ClearOverlappingTaskFailures` | src/collector.cpp:521-532 | the loop over the entries removes those the read covers and no others |
| `Collector.ModbusCollector.SplitReadTask` | src/collector.cpp:555-584 | the loop that packs points into blocks computes the splitting |
| `Collector.ModbusCollector.LimitAdaptiveSplitLeafProbeTasks` | src/collector.cpp:601-649 | the limited tasks and the shared budget after them |
| `Collector.ModbusCollector.DecodeSuccessfulBlock` | src/collector.cpp:230-264 | each point of the block is decoded from its own registers or fails |
| `Collector.ModbusCollector.ExecuteAdaptiveTask` | src/collector.cpp:279-361 | the recursive closure computes `Execute`, the subject of the bounds above, and terminates |
| `Collector.ModbusCollector.LimitToMeterTaskBudget` | src/collector.cpp:740-787 | computes `LimitToBudget` of the current state |
| `Collector.ModbusCollector.CollectPlanned` | src/collector.cpp:363-366 | the cycle over the planned tasks with a fresh probe budget |
| `Fairness.ReadWithinRank` | src/collector.cpp:740-801 | a candidate with fewer than cycles times budget others ahead of it is read within those cycles |
| `Fairness.NoStarvation` | src/collector.cpp:740-801 | with n candidates of equal priority that are due in every cycle (with or without failure entries), budget b, advancing time and successful reads, every one is read in any run of at least n/b cycles |
| `RuleRoundTrip.ParsesAt` | src/compute_engine_service.cpp:63-176 | at every grammar level, in front of any text that cannot continue it, the printed tree is consumed exactly and read as that tree |
| `RuleRoundTrip.TreeOfPrinted` | src/compute_engine_service.cpp:53-61 | the printed text of every well-formed tree has exactly that tree; it has parentheses only where an operator binds less tightly or a number ends in the letter of an exponent |
| `RuleRoundTrip.ParsePrinted` | src/compute_engine_service.cpp:53-61 | for every well-formed tree and all inputs, evaluating its printed text gives the tree's value, nulls and failures included |
| `RuleRoundTrip.TreesOfTexts` | src/compute_engine_service.cpp:53-61 | the well-formed trees are exactly those that some text has |
| `RuleRoundTrip.Reprinted` | src/compute_engine_service.cpp:53-61 | every accepted text can be replaced by its tree's printed text: that has the same tree and the same value for all inputs |
| `RuleRoundTrip.NumeralEvaluates` | src/compute_engine_service.cpp:286-301 | the text of a decimal numeral is a well-formed number and evaluates to the numeral's value |
| `RuleLaws.SumLaws` | src/compute_engine_service.cpp:316-337 | + is commutative and associative, has the unit zero, and is undone by - |
| `RuleLaws.ProductLaws` | src/compute_engine_service.cpp:316-337 | * is commutative and associative, distributes over +, has the unit one, and is undone by / for every divisor but zero, by which / and % give null |
| `RuleLaws.RemainderLaws` | src/compute_engine_service.cpp:316-337 | x % y is smaller than y in magnitude, has no other sign than x, and differs from x by a whole multiple of y |
| `RuleLaws.ScaleLaws` | src/compute_engine_service.cpp:286-301 | each step of an exponent is a factor of ten |
| `RuleLaws.ComparisonLaws` | src/compute_engine_service.cpp:339-359 | exactly one of <, == and > holds, by the order of the values; x + y is greater than x for positive y; >=, <= and != are the negations |
| `RuleLaws.LogicLaws` | src/compute_engine_service.cpp:63-176 | the logical operators see whether a value is a number other than zero, and never give null |
| `RuleLaws.NullLaws` | src/compute_engine_service.cpp:316-359 | any other operator on null gives null, and a failure on either side makes it fail |
| `RuleLaws.CallFails` | src/compute_engine_service.cpp:234-284 | a call fails exactly if the function is unknown, the number of arguments wrong, or an argument fails |
| `RuleLaws.IfLaws` | src/compute_engine_service.cpp:247-252 | `if` has the value of the branch its condition picks; null and zero pick the second |
| `RuleLaws.NullArguments` | src/compute_engine_service.cpp:253-283 | every other function of null is null |
| `RuleLaws.ExtremeLaws` | src/compute_engine_service.cpp:253-264 | abs, min and max by their bounds and by being one of the arguments |
| `RuleLaws.ClampLaws` | src/compute_engine_service.cpp:265-271 | clamp keeps what is between the bounds and gives the nearer bound otherwise; the lower one if they cross |
| `RuleLaws.RoundLaws` | src/compute_engine_service.cpp:272-282 | round is whole times the power of ten and within half a unit, away from zero in the middle |
| `RuleLaws.InputLaws` | src/compute_engine_service.cpp:215-232 | a name is its value exactly if `valid` says so, and null otherwise; `stale` and `quality` look at the input itself |
| `RuleLaws.TokensMean` | src/compute_engine_service.cpp:63-176 | each of the 13 operator tokens between two names is that operator |
| `RuleLaws.Precedence` | src/compute_engine_service.cpp:63-160 | of two operators the tighter takes the middle operand, and of equally tight ones the first |
| `RuleLaws.SumOfValidInputs` | src/compute_engine_service.cpp:53-61 | the text of the sum of two inputs if both are valid evaluates to that sum or to null, for all inputs |
| `RuleLexing.StrtodOf` | src/compute_engine_service.cpp:286-301 | the text of a decimal numeral is read as its value, whatever follows |
| `RuleTrees.StrtodOfLexeme` | src/compute_engine_service.cpp:286-301 | the value of a number depends on no more text than the scanner consumes, except that of a hexadecimal one, where the scanner stops at an `x` |
| `RuleTrees.LevelAgrees` | src/compute_engine_service.cpp:63-213 | at every grammar level and for every text, evaluating while parsing is evaluating the tree of the text, or both stop at an `x` behind a number, which nothing in the grammar accepts |
| `RuleTrees.EveryText` | src/compute_engine_service.cpp:53-61 | for every text and all inputs the evaluator gives the value of one tree, which depends on the text alone, or fails if there is none; up to white space and parentheses the text is that tree's |
| `RuleEngine.ExpressionParser.Accept` | src/compute_engine_service.cpp:388-395 | skips white space and consumes the token exactly when it is next |
| `RuleEngine.ExpressionParser.ParseBinaryLevel` | src/compute_engine_service.cpp:63-160 | the six binary levels: value, failure and cursor agree with the grammar function, which terminates on every text |
| `RuleEngine.ExpressionParser.ParseUnaryExpression` | src/compute_engine_service.cpp:162-176 | negation and minus |
| `RuleEngine.ExpressionParser.ParsePrimaryExpression` | src/compute_engine_service.cpp:178-213 | parentheses, numbers, constants, inputs and calls |
| `RuleEngine.ExpressionParser.ParseFunction` | src/compute_engine_service.cpp:215-284 | a call: its arguments, their number, and the functions on nulls |
| `RuleEngine.ExpressionParser.ParseNumber` | src/compute_engine_service.cpp:286-301 | the number text that the scanner consumes and the value that `strtod` gives it |
| `RuleEngine.ExpressionParser.ParseIdentifier` | src/compute_engine_service.cpp:303-314 | the longest identifier, or failure |
| `RuleEngine.ExpressionParser.Parse` | src/compute_engine_service.cpp:53-61 | the whole text must be consumed |
| `Ft12.ParseSomeThenRest` | src/am5se_iec103_client.cpp:511-547 | extracting up to any limit, then parsing what is left and any further bytes, gives the parse of all bytes |
| `Ft12.AllThenRest` | src/am5se_iec103_client.cpp:511-547 | the parse of a stream does not depend on where it is cut |
| `Ft12.EmitsFramesOfBuffer` | src/am5se_iec103_client.cpp:511-547 | everything emitted is a fixed or variable frame with correct markers, lengths and checksum; the frames are disjoint pieces of the bytes received, in order, and what is kept is their end |
| `Ft12.FalseStartCostsOneByte` | src/am5se_iec103_client.cpp:522-529 | a stray 0x68 costs one byte: parsing goes on with the very next one |
| `Ft12.StrayStartBeforeFrame` | src/am5se_iec103_client.cpp:522-529 | a variable frame behind a stray 0x68 is found |
| `Ft12.FrameIsFound` | src/am5se_iec103_client.cpp:511-547 | a frame behind any noise that claims no byte of it (other bytes, false starts, whole spoilt blocks) is emitted, and parsing goes on behind it |
| `Ft12.StreamIsRecovered` | src/am5se_iec103_client.cpp:511-547 | a stream of frames with such noise between them is recovered frame by frame |
| `Ft12.Receiver.ExtractFrames` | src/am5se_iec103_client.cpp:511-547 | the inner loop takes off exactly the next frames up to the limit; every turn consumes a byte or stops |
| `Ft12.Receiver.TakeChunk` | src/am5se_iec103_client.cpp:508-547 | after a chunk, the frames emitted so far followed by the parse of the buffer are the parse of all bytes received |
| `Ft12.Receiver.ReadFrames` | src/am5se_iec103_client.cpp:473-550 | so after any calls with any limits |
| `CanSignal.PlaceInjective` | src/can_signal_codec.cpp:58-68 | no two bits of a signal share a payload bit |
| `CanSignal.HoldsUnique` | src/can_signal_codec.cpp:70-98 | a payload holds one value of a signal |
| `CanSignal.WholeBytesHold` | src/can_signal_codec.cpp:73-85 | a signal of whole bytes in lsb0 order holds the number that its bytes write in its byte order |
| `CanSignal.OtherSignalsHold` | src/can_signal_codec.cpp:56-97 | any other signal takes its bits in order from its first, reversed for big-endian ones, and msb0 counts within a byte from its highest bit |
| `CanSignal.ExtractUnsignedBits` | src/can_signal_codec.cpp:70-98 | on both paths the result's bits are the payload bits at the signal's places |
| `CanSignal.WriteUnsignedBits` | src/can_signal_codec.cpp:100-130 | on both paths the value's low bits are put in their places in the array, and every other payload bit is unchanged |
| `CanSignal.ReadAfterWrite` | src/can_signal_codec.cpp:70-130 | extracting after writing gives the value modulo 2 to the length, for every offset, length 1 to 64, byte order and bit order |
| `CanSignal.OtherSignalsKept` | src/can_signal_codec.cpp:100-130 | writing a signal leaves every disjoint signal as it was |
| `CanSignal.PathsAgree` | src/can_signal_codec.cpp:73-97 | for little-endian lsb0 signals the byte-wise path reads what the bit-wise one reads |
| `CanSignal.WritePathsAgree` | src/can_signal_codec.cpp:108-129 | and writes what the bit-wise one writes |
| `CanSignal.BigEndianPathsDiffer` | src/can_signal_codec.cpp:73-97 | for no big-endian signal is it: there is a payload of which the two paths read different values |
| `CanCodec.IntegerRoundTrip` | src/can_signal_codec.cpp:132-142 | sign extension undoes the 64-bit cast and the truncation for the integers that fit the width, and others come back at least 2 to the length away |
| `CanCodec.Encode` | src/can_signal_codec.cpp:225-253 | fails exactly when the frame is too long, the signal does not fit, a float is not 32 bits or the scale is too small; otherwise a zero payload with the raw value written in |
| `CanCodec.Decode` | src/can_signal_codec.cpp:194-223 | fails exactly when the signal does not fit the payload or a float is not 32 bits; otherwise the physical value of what the payload holds |
| `CanCodec.NumericRoundTrip` | src/can_signal_codec.cpp:158-253 | decoding an encoded integer signal is within half a scale step of the value if and only if the rounded quotient fits the width |
| `CanCodec.TooWideValue` | src/can_signal_codec.cpp:225-253 | 256 in an 8-bit unsigned signal of scale one is encoded and comes back as zero |
| `CanCodec.WordOrder` | src/can_signal_codec.cpp:70-85 | two bytes as an unsigned word: `big` and `be`, in any case, put the high byte first, anything else the low byte; times the scale plus the offset |
| `CanCodec.TypesHaveWidths` | src/can_signal_codec.cpp:23-45 | the width of each data type when none is given |
| `CanCodec.FlagRoundTrip` | src/can_signal_codec.cpp:203-248 | flags come back as zero or one |
| `CanCodec.FloatRoundTrip` | src/can_signal_codec.cpp:208-246 | floats come back as the scaled float of the quotient |
| `ChunkJson.EscapeJson` | src/builtin_mqtt_driver_publisher.cpp:84-98 | the loop computes the escaped text |
| `ChunkJson.EscapedInjective` | src/builtin_mqtt_driver_publisher.cpp:84-98 | different texts stay different when escaped |
| `ChunkJson.BuildRealtimeChunkJson` | src/builtin_mqtt_driver_publisher.cpp:544-575 | the loops write the preamble, the meters and their values with commas between them |
| `ChunkJson.PointJsonLength` | src/builtin_mqtt_driver_publisher.cpp:423-451 | the length of a rendered value in either format, by its parts |
| `ChunkJson.SerialisedLength` | src/builtin_mqtt_driver_publisher.cpp:577-583 | the text of a chunk is longer than the counted size by the extra digits of its index and count |
| `ChunkJson.SizeWithMeter` | src/builtin_mqtt_driver_publisher.cpp:585-588 | a meter adds its wrapper, its values and a comma unless it is first |
| `ChunkPacking.GroupedConserves` | src/builtin_mqtt_driver_publisher.cpp:621-632 | grouping keeps for every meter exactly its values in order, and drops those without a meter code |
| `ChunkPacking.GroupedCount` | src/builtin_mqtt_driver_publisher.cpp:623-632 | grouping has as many entries as there are values with a meter code |
| `ChunkPacking.PackConserves` | src/builtin_mqtt_driver_publisher.cpp:634-669 | packing keeps every value, once and in order |
| `ChunkPacking.PackShape` | src/builtin_mqtt_driver_publisher.cpp:634-669 | no chunk is empty, repeats a meter or holds an empty one; one above the limit holds a single value; a chunk ends only where the next value would have exceeded the limit |
| `ChunkEncoder.Packer.AddValue` | src/builtin_mqtt_driver_publisher.cpp:636-667 | with its running byte count, which always equals the length of the current chunk's text, the loop decides as if it had serialised the chunk with the value added |
| `ChunkEncoder.Packer.FlushCurrent` | src/builtin_mqtt_driver_publisher.cpp:607-613 | a non-empty current chunk is finished and the count restarts |
| `ChunkEncoder.Packer.AppendMeter` | src/builtin_mqtt_driver_publisher.cpp:615-619 | an empty meter is opened and counted |
| `ChunkEncoder.GroupValues` | src/builtin_mqtt_driver_publisher.cpp:621-632 | groups in order of first appearance, each with exactly its values |
| `ChunkEncoder.EncodeRealtimeChunks` | src/builtin_mqtt_driver_publisher.cpp:590-681 | the payloads are the texts of the packed chunks, numbered from one with their count |
| `ChunkEncoder.ChunksConserve` | src/builtin_mqtt_driver_publisher.cpp:590-681 | read together, the chunks list every value with a meter code exactly once in grouped order |
| `ChunkEncoder.ChunksWellPacked` | src/builtin_mqtt_driver_publisher.cpp:590-681 | the chunks of any values have the shape above; no values make one empty chunk |
| `ChunkEncoder.PayloadBounded` | src/builtin_mqtt_driver_publisher.cpp:590-681 | a payload of several values exceeds the limit at most by the extra digits of its index and count |
| `ChunkLimits.ExceedsExactly` | src/builtin_mqtt_driver_publisher.cpp:675-679 | a payload exceeds the limit if and only if its counted size leaves no room for those digits |
| `ChunkLimits.FewChunksFit` | src/builtin_mqtt_driver_publisher.cpp:590-681 | with fewer than ten chunks every payload of several values fits |
| `ChunkLimits.TenValuesFit` | src/builtin_mqtt_driver_publisher.cpp:590-681 | so it does with at most ten values |
| `ChunkLimits.MoreValuesOverflow` | src/builtin_mqtt_driver_publisher.cpp:590-681 | in both formats, every larger number has a message of rendered values whose first chunk holds exactly two of them and is sent in a text above the limit, each of the others having a chunk of its own |
| `ChunkLimits.OverflowPossible` | src/builtin_mqtt_driver_publisher.cpp:590-681 | in both formats, some message of n rendered values with a meter code overflows a chunk of several values if and only if n is above ten and the header leaves room for two rendered values |
| `Hexadecimal.HexEncode` | src/builtin_mqtt_driver_publisher.cpp:1460-1468 | the loop computes the hexadecimal text |
| `Hexadecimal.HexDecode` | src/builtin_mqtt_driver_publisher.cpp:1483-1499 | the loop computes the bytes, or fails on odd lengths and other characters |
| `Hexadecimal.UnhexHex` | src/builtin_mqtt_driver_publisher.cpp:1460-1499 | decoding inverts encoding, and the text has no tab and no newline |
| `OfflineLines.MessageOfLine` | src/builtin_mqtt_driver_publisher.cpp:2061-2073 | a message is read back from its line exactly when its topic is valid; other lines are skipped |
| `OfflineLines.LinesOfUnlines` | src/builtin_mqtt_driver_publisher.cpp:2055-2060 | reading lines inverts writing them |
| `OfflineLines.TrimmedMessages` | src/builtin_mqtt_driver_publisher.cpp:1413-1454 | trimming cuts if and only if the file is over its positive limit, and keeps the longest run of newest messages shorter than it |
| `OfflineQueue.EnqueuedBounded` | src/builtin_mqtt_driver_publisher.cpp:1971-1985 | after any enqueue the memory is within its cap or the flush batch, whatever the file system does |
| `OfflineQueue.FlushMoves` | src/builtin_mqtt_driver_publisher.cpp:1987-2024 | without faults a flush moves the oldest messages to the end of the file; it drops from the file's front if and only if the file overflows |
| `OfflineQueue.ReplayMoves` | src/builtin_mqtt_driver_publisher.cpp:2026-2121 | without faults, whatever the broker answers, a replay sends from the front and keeps the rest in order |
| `OfflineQueue.ReplayProgresses` | src/builtin_mqtt_driver_publisher.cpp:2026-2121 | a replay goes on until the broker refuses, nothing is left or a batch is sent; with an accepting broker and anything waiting it sends at least one |
| `OfflineQueue.FlushProgresses` | src/builtin_mqtt_driver_publisher.cpp:1987-2024 | a flush that is due and not hindered takes all of the memory if forced and a batch otherwise; one that is not due changes nothing |
| `OfflineQueue.RunIsFifo` | src/builtin_mqtt_driver_publisher.cpp:1971-2121 | over every run of enqueues, flushes and replays with valid topics, starting with any file and memory of such messages: sent, then file, then memory are the messages that were there and those enqueued, in their order, and all of them if and only if no flush overflowed |
| `OfflineBuffer.TrimFileToMaxBytes` | src/builtin_mqtt_driver_publisher.cpp:1413-1454 | the file after trimming, or unchanged on a fault |
| `OfflineBuffer.MqttOfflineBuffer.EnqueueOffline` | src/builtin_mqtt_driver_publisher.cpp:1971-1985 | the loop of forced flushes and drops, then a flush; with the memory bound |
| `OfflineBuffer.MqttOfflineBuffer.FlushOfflineBuffer` | src/builtin_mqtt_driver_publisher.cpp:1987-2024 | when it flushes, how many messages, and the file and memory after it, under every fault |
| `OfflineBuffer.MqttOfflineBuffer.ReplayOfflineBuffer` | src/builtin_mqtt_driver_publisher.cpp:2026-2121 | what is sent and what the file and the memory hold after it, under every fault and broker |
| `MqttLength.AppendRemainingLength` | src/builtin_mqtt_driver_publisher.cpp:133-142 | the loop appends the variable-length integer |
| `MqttLength.DecodeRemainingLength` | src/builtin_mqtt_driver_publisher.cpp:155-173 | the loop reads it, or fails at the end of the packet or beyond four bytes |
| `MqttLength.LengthRoundTrip` | src/builtin_mqtt_driver_publisher.cpp:133-173 | every length up to 268435455 decodes to itself with the exact header size, and every larger one is refused |
| `MqttLength.FifthByteRejected` | src/builtin_mqtt_driver_publisher.cpp:166-168 | four bytes that announce another are refused, whatever follows |
| `MqttPublish.BuildPublishPacket` | src/builtin_mqtt_driver_publisher.cpp:240-264 | fails exactly for topics above 65535 bytes; otherwise first byte, length, header and payload for the clamped QoS and the protocol version |
| `MqttPublish.ParsePublishPacket` | src/builtin_mqtt_driver_publisher.cpp:1513-1607 | every branch of the parser on every packet |
| `MqttPublish.KindFrom` | src/builtin_mqtt_driver_publisher.cpp:1579-1603 | a topic has a type if and only if it equals one of the scoped request topics, and it is the type of the first of them |
| `MqttPublish.ScopedOnce` | src/builtin_mqtt_driver_publisher.cpp:58-70 | scoping adds the machine code behind a slash, once |
| `MqttPublish.PublishWithProperties` | src/builtin_mqtt_driver_publisher.cpp:1513-1607 | an MQTT 5.0 packet with any properties is parsed to its topic, identifier and the payload behind the properties |
| `MqttPublish.PublishRoundTrip` | src/builtin_mqtt_driver_publisher.cpp:240-264 | parsing a built packet gives back topic, payload and, above QoS 0, the packet identifier, for both protocol versions, if and only if it is within the receiver's limit and the largest MQTT length |
| `Dlt645Frames.NormalizeAddress` | src/dlt645_codec.cpp:142-157 | the digits of the address padded to twelve, or failure for none or more than twelve |
| `Dlt645Frames.EncodeAddress` | src/dlt645_codec.cpp:110-120 | digit pairs, the last pair first |
| `Dlt645Frames.ParseDataId` | src/dlt645_codec.cpp:159-177 | eight hexadecimal digits without white space, low byte first, or failure |
| `Dlt645Frames.DataIdRoundTrip` | src/dlt645_codec.cpp:159-177 | every four bytes have a written form that parses back to them |
| `Dlt645Frames.ComputeChecksum` | src/dlt645_codec.cpp:74-80 | the sum of the bytes modulo 256 |
| `Dlt645Frames.BuildReadFrame` | src/dlt645_codec.cpp:179-202 | the frame with control 0x11, the shifted identifier and the checksum, or failure exactly for a bad address or identifier |
| `Dlt645Frames.PartsMakeFrame` | src/dlt645_codec.cpp:344-364 | bytes with the right markers, length and checksum are the frame of their address, control and unshifted data |
| `Dlt645Frames.DecodeFrameData` | src/dlt645_codec.cpp:328-369 | accepts exactly the responses with the expected identifier, and returns their payload |
| `Dlt645Values.AddressIsBcd` | src/dlt645_codec.cpp:110-120 | an address travels as bytes whose BCD value is its number |
| `Dlt645Values.PaddingKeepsNumber` | src/dlt645_codec.cpp:153-155 | the zeros that fill an address to twelve digits do not change its number |
| `Dlt645Values.DecodeUnsignedLittleEndian` | src/dlt645_codec.cpp:63-72 | the value to base 256, or failure above eight bytes |
| `Dlt645Values.DecodeBcdLittleEndian` | src/dlt645_codec.cpp:36-61 | the decimal value of the digit pairs with the sign nibble, scaled, or failure for a bad digit |
| `Dlt645Values.EncodeUnsigned` | src/dlt645_codec.cpp:271-289 | bytes whose value is the number, refused exactly when it needs more bytes |
| `Dlt645Values.EncodeBcd` | src/dlt645_codec.cpp:279-289 | digit pairs whose value is the number, refused exactly when it needs more bytes |
| `Dlt645Values.EncodeBcdByte` | src/dlt645_codec.cpp:122-127 | a byte whose two digits are the value, or failure outside 0 to 99 |
| `Dlt645Values.EncodeWritePayload` | src/dlt645_codec.cpp:240-291 | for every data type, when it is refused and what the payload means |
| `Dlt645Values.ScaledBack` | src/dlt645_codec.cpp:129-138 | the scaled integer scaled back is the value up to 1e-9 of a step |
| `Dlt645Values.DecodeReadResponse` | src/dlt645_codec.cpp:371-425 | the value of the response's payload; it fails exactly when there is none |
| `Dlt645Values.PayloadRoundTrip` | src/dlt645_codec.cpp:240-291 | a numeric write payload reads back as the written value up to 1e-9 of a step |
| `Dlt645Client.TrimToFrameStart` | src/dlt645_client.cpp:33-44 | drops what precedes the first start byte, and noise alone beyond 32 bytes |
| `Dlt645Client.Exchange` | src/dlt645_client.cpp:124-148 | the loop over the reads collects, trims and stops at a complete frame |
| `Dlt645Client.AnyChunking` | src/dlt645_client.cpp:124-144 | at every moment, for any chunking of noise, response and what follows, the client holds nothing of the response, exactly the part that has come, or exactly all of it |
| `Dlt645Client.ResponseIsRecovered` | src/dlt645_client.cpp:124-144 | once all has come it returns exactly the response |
| `Dlt645Client.EndToEnd` | src/dlt645_client.cpp:124-144 | what it returns is a response whose only decoding is the payload that was sent |
| `Dlt645Client.WrittenValueReadsBack` | src/dlt645_codec.cpp:371-425 | a response with the payload of a numeric write, in any chunking, reads as the written value up to 1e-9 of a step |

## Left out

- Reading the point snapshot, validation and publishing of outputs in the AGC/AVC service: a tick's inputs are given, and the ownership lease and priority lease are answers of the tick.
- Tearing of a dispatch command while it is written: only the confirmation rule and the latch are modelled.
- A bound of steps towards zero by the ramp rate, and of a power that does not grow by current capacity: the envelope runs after the rate limiter, and a target may stay above a capacity that has just dropped.
- NaN and infinite inputs, IEEE rounding, integer overflow of offsets near the 32-bit limit in CAN layouts.
- The read task planner, offline probe mode, mixed-priority splitting and the expansion of backed-off tasks before the budget: planned tasks are given, well placed.
- The device-online priority override of a point: its priority is given.
- Collection of input indexes and the scheduling, triggering and output policy of compute rules.
- The FT1.2 link layer, general interrogation and file transfer; a negative link address size.
- CAN frame identifiers and the raw hexadecimal text of a decoded signal.
- The text of a double in a rendered value: any non-empty text.
- `OfflineQueue.RunIsFifo`: file faults and a damaged file at the start are excluded there; what every operation does with them is in the contracts of the buffer's methods.
- Sending on the wire, connecting, TLS, subscriptions and acknowledgements of MQTT.
- DL/T 645 write frames and their responses, the exception codes, the texts of non-numeric values.
- `CanCodec.NumericRoundTrip`: requires the rounded quotient to fit 64 bits, because rounding outside them is unspecified.
- `Dlt645Values.PayloadRoundTrip`: requires the same.
- User interface, configuration, alarms, events, recordings, storage and command executors: mostly wiring.
