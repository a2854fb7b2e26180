# PLCMaster, verified model

PLCMaster is a soft PLC. An EtherCAT real-time thread, a PLC scheduler thread and a TCP thread share state through
sequentially consistent atomics. This project models the parts that decide whether that is safe, and proves what they
promise:

- the scheduler: the multi-producer queue of pending tasks, the release arithmetic, the pacing;
- the EtherCAT backend without the bus: output double buffer, input snapshot, fault latch, safe outputs, deadline;
- the SPSC ring, and the request/response protocol of the tag server on top of it;
- the tag layer: table, aliases, typed access to stores and I/O images, the builder, initial values, factory reset,
  values as text;
- their composition: from the bus through fault latch and health level to task gating and to zero frames, and from a tag
  write to the published output image.

Two forms appear side by side. Where threads meet, a module has a `State`, an `Action` per atomic access or copied
element, a total `Step` and a `Run` over any sequence of actions; theorems quantify over all of them. Where code runs on
one thread, classes and methods with loops mirror the functions and are proved against the same specification
functions. A step whose thread cannot take it does nothing, so every sequence of actions is an interleaving.

Files, from the bottom up: `words`, `schedules`, `ring_window`; `spsc_ring`, `pending_queue`, `pending_solo`,
`pending_wrap`; `release`, `catch_up`, `plc_scheduler`; `ec_monitor`, `ec_outputs`, `ec_inputs`, `ec_safe`, `ec_threads`,
`fault_to_outputs`; `tags`, `tag_meaning`, `runtime`, `builder`, `system_build`, `store_init`, `factory_reset`,
`built_table`; `rpc_text`, `rpc_numbers`, `rpc_values`, `rpc_protocol`, `rpc_rings`, `rpc_endpoints`, `rpc_replies`;
`backends_start`, `health`, `plc_cycle`, `tag_cycle`. `dafny verify dfyconfig.toml` checks everything.

A specification function that a method computes is in turn pinned by laws that do not name it: numbers for bits, the
configuration for the table, lines and replies for the poll, a grid of base cycles for the pacing.

Where the code does less than it or its comments say, the code is modelled and the exact condition is proved:

- `drain_pending` compares indices without wrap: all accepted tasks can arrive exactly while there are fewer than 2^32;
  their order holds exactly up to 2^32 reservations, and with one more the newest task can arrive in place of the oldest,
  unless there is at most one producer: then the order holds in every run.
- the catch-up loop ends on the right value exactly while `last_run_ms` plus whole periods stays below 2^32; it ends at
  all exactly while the clock is below 2^32 + period - g + last_run_ms mod g, g being the largest power of two in the
  period (and not below last_run_ms mod g).
- the buffer comment (ec_backend.c:652-656) promises whole frames: the frame is whole in all schedules with at most m PLC
  writes between a cycle_end and the end of the RT copy it falls into, exactly when m is zero. From every state one such
  write can spoil it.
- ONLY_WHEN_OK is gated only in FAULT, like SKIP_ON_FAULT, although plc_task.h:14 says otherwise and marks it reserved:
  such a task runs at OK only exactly while the level is not WARN, and in all runs exactly without drivers that have a
  status.
- the builder adds offset and size in 32 bits, the accessors in 64: validated tags are in range exactly when the sum
  stays below 2^32.
- the ring is a FIFO across the index wrap exactly when its capacity divides 2^32.
- a 32-bit WRITE accepts every text that denotes an integer, with sign, octal or hexadecimal, and stores it exactly iff it
  lies in 0..2^32-1; 8 and 16 bits refuse what lies outside, except negative numbers that wrap around `ULONG_MAX` into
  range.
- by RPC a client can ask exactly for names of at most 63 characters without white space.
- the rollback of `runtime_backends_start` uses a count as a slot number: it is complete exactly when no slot without a
  start precedes a started driver and every started driver has a stop.
- `ethercat_start` does not check for a live RT thread: outputs stay zero under a latched fault exactly in the safe states
  of SafeOutputThreads. In terms of calls: exactly when start is called with no RT thread alive; one live thread is
  already too many, even if there is never a second.

Assumptions of the model: every atomic is sequentially consistent (platform_atomic.h:18 and 168-176); the clock does
not run backwards and, for releases, stays below 2^32 ms; C bools hold 0 or 1; null arguments and failed allocations
are excluded, apart from the null names and drivers that the code tests for; `ULONG_MAX` is at least 2^32 - 1. Working
counter, bus state, clock readings, what creating a backend answers, what `%f` prints and `strtof` returns, and stack
contents behind a partly filled union are inputs.

## Model

| member | source | states |
|---|---|---|
| `PendingQueue.HandedInReservationOrder` | PLCMaster/src/core/plc/plc_scheduler.c:290-355 | In every interleaving of any number of producers with the drainer, up to 2^32 reservations: tasks handed over are a prefix of the reservations, whole, in order, once, none skipped; at most 32 slots are held |
| `PendingQueue.StepKeepsInvariant` | PLCMaster/src/core/plc/plc_scheduler.c:290-355 | Every single load, compare-and-swap, copied word and store keeps the queue invariant (published slots are whole, unpublished reserved slots have exactly their owner inside) |
| `PendingQueue.OneOwnerPerCell` | PLCMaster/src/core/plc/plc_scheduler.c:334-354 | No cell is ever touched by two producers, or by a producer and the drainer, at once; the copier is the one that reserved the slot |
| `PendingQueue.DrainPassStopsAtFirstHole` | PLCMaster/src/core/plc/plc_scheduler.c:290-324 | With producers anywhere inside their calls, one undisturbed drain call hands over exactly the tasks up to the first reserved ticket not yet published, and changes nothing else |
| `PendingQueue.DrainPassHandsOverEverything` | PLCMaster/src/core/plc/plc_scheduler.c:290-324 | With no producer filling a slot and below 2^32 reservations, that is every accepted task |
| `PendingQueue.QueueAlone` | PLCMaster/src/core/plc/plc_scheduler.c:326-355 | An undisturbed call with room left reserves one slot and publishes the whole task in it |
| `PendingWrap.FewerThanWrapHanded` | PLCMaster/src/core/plc/plc_scheduler.c:303-323 | In every run, however many tasks are queued, fewer than 2^32 are ever handed over: the loop compares the indices without wrap |
| `PendingWrap.WrapStallsTheDrain` | PLCMaster/src/core/plc/plc_scheduler.c:303-323 | So after 2^32 reservations, in every continuation, some accepted task has not been handed over |
| `PendingWrap.AcceptedTasksArriveIffBelowWrap` | PLCMaster/src/core/plc/plc_scheduler.c:290-355 | When all calls have returned, everything accepted can still be handed over iff fewer than 2^32 tasks have been accepted |
| `PendingWrap.OrderBreaksPastWrap` | PLCMaster/src/core/plc/plc_scheduler.c:334-354 | A run with 2^32 + 1 reservations that hands over the newest task in place of the oldest: a compare-and-swap succeeds on an index that has come round, while all 32 cells are held |
| `PendingWrap.OrderHoldsIff` | PLCMaster/src/core/plc/plc_scheduler.c:290-355 | The order law holds in all runs of up to n reservations iff n <= 2^32 or there is at most one producer |
| `PendingSolo.SoloKeepsOrder` | PLCMaster/src/core/plc/plc_scheduler.c:290-355 | With at most one producer, in every run of any length: tasks arrive in order, whole, and the queue never accepts more than 2^32 + 31 of them |
| `PendingWrap.StalledForGood` | PLCMaster/src/core/plc/plc_scheduler.c:303-310 | With the write index at or below the read index, drain calls alone change nothing |
| `Scheduling.PlcScheduler.AddTaskInternal` | PLCMaster/src/core/plc/plc_scheduler.c:272-288 | Appends a runnable task with last_run_ms 0 if there is room, else returns -1 and changes nothing |
| `Scheduling.PlcScheduler.AddTask` | PLCMaster/src/core/plc/plc_scheduler.c:40-48 | As above, and refused while running |
| `Scheduling.PlcScheduler.QueueTask` | PLCMaster/src/core/plc/plc_scheduler.c:326-355 | Returns 0 exactly when fewer than 32 tasks are pending, and then the pending queue has grown by the task at its end |
| `Scheduling.PlcScheduler.AddTaskRuntime` | PLCMaster/src/core/plc/plc_scheduler.c:50-63 | Direct add before the thread runs, queueing afterwards; result and both lists in each case |
| `Scheduling.PlcScheduler.DrainPending` | PLCMaster/src/core/plc/plc_scheduler.c:290-324 | Moves the whole pending queue, in order, to the task list; moves nothing once only the write index has wrapped |
| `Scheduling.AddAllAppendsRunnable` | PLCMaster/src/core/plc/plc_scheduler.c:272-288 | Adding pending tasks keeps the scheduled ones; of n runnable ones exactly those that fit 32 are added, each with last_run_ms 0 |
| `Scheduling.AddAllIs` | PLCMaster/src/core/plc/plc_scheduler.c:272-324 | Draining appends the tasks that have a body and a period, in order, with last_run_ms 0, as many as fit 32, and nothing else |
| `Scheduling.PlcScheduler.ArmTasks` | PLCMaster/src/core/plc/plc_scheduler.c:172-189 | Arms every task one period before start + phase, or at 0 when that would be negative |
| `Scheduling.PlcScheduler.RunTasks` | PLCMaster/src/core/plc/plc_scheduler.c:219-249 | Task by task: released iff now has reached start + phase and lies a period past last_run; run iff released and either not in FAULT or ALWAYS_RUN; last_run moves, on release only, by whole periods to the last one not past now |
| `Scheduling.PlcScheduler.RunCycle` | PLCMaster/src/core/plc/plc_scheduler.c:191-267 | One whole turn: drained tasks take part at once, each as in RunTasks under the level stored by the begin callback; the next tick is one base cycle on, or now + base when now is more than 5*base mod 2^32 past that |
| `Scheduling.CatchUp` | PLCMaster/src/core/plc/plc_scheduler.c:230-233 | The inner loop terminates and adds exactly the whole periods that fit |
| `Release.ReleasesFollowTheClock` | PLCMaster/src/core/plc/plc_scheduler.c:219-249 | Over any run of ticks: last_run = origin + period * floor((now - origin) / period); released exactly at the ticks where that floor moved; health only decides whether the body runs |
| `Release.TickMeans` | PLCMaster/src/core/plc/plc_scheduler.c:219-249 | One tick of one task, without the specification: who is released, who runs under which policy and level, and where last_run_ms goes |
| `Release.NoDrift` | PLCMaster/src/core/plc/plc_scheduler.c:172-189 | For a task armed before start with S = start + phase >= P: at every tick with now >= S, last_run = S + P * floor((now - S) / P) |
| `Release.FirstTickReleases` | PLCMaster/src/core/plc/plc_scheduler.c:172-189 | The first tick at or after S releases such a task |
| `Release.OneReleasePerPeriod` | PLCMaster/src/core/plc/plc_scheduler.c:219-249 | Two different releases lie in different periods |
| `Release.HealthDoesNotMoveTheClock` | PLCMaster/src/core/plc/plc_scheduler.c:225-241 | Health readings change no release and no last_run_ms: releases skipped in FAULT are consumed, not replayed |
| `Release.CatchUpStopsIffItFits` | PLCMaster/src/core/plc/plc_scheduler.c:230-233 | The catch-up loop ends on the right value, last_run plus the whole periods that fit, exactly when that sum stays below 2^32 |
| `CatchUpTermination.CatchUpEndsIff` | PLCMaster/src/core/plc/plc_scheduler.c:230-233 | The loop ends at all, on whatever value, iff last_run mod g <= now < 2^32 + period - g + last_run mod g, with g the largest power of two dividing the period; for every 64-bit clock reading and every last_run |
| `CatchUpTermination.CatchUpEndsBelowWrap` | PLCMaster/src/core/plc/plc_scheduler.c:230-233 | In particular always below 2^32 ms when last_run is not ahead of the clock |
| `Release.CatchUpNeverStops` | PLCMaster/src/core/plc/plc_scheduler.c:230-233 | Once the clock is a full period past 2^32 the loop stops after no number of turns |
| `Release.CycleKeepsPace` | PLCMaster/src/core/plc/plc_scheduler.c:262-267 | After every cycle now - 5*base <= next tick <= now + base and the next tick has increased, for every base, wrapping 5*base included |
| `Release.NextTickIs` | PLCMaster/src/core/plc/plc_scheduler.c:260-266 | The tick after a cycle is nextTick + base iff now <= nextTick + base + (5*base mod 2^32), else now + base |
| `Release.CyclesStayOnTheGrid` | PLCMaster/src/core/plc/plc_scheduler.c:191-267 | Lateness does not add up: over any run of readings none of which is later than that, the tick is the first one plus one base cycle per reading that reached its tick |
| `Release.LimitIsFiveCyclesUnlessItWraps` | PLCMaster/src/core/plc/plc_scheduler.c:264 | The 32-bit product is five cycles exactly for base <= 858993459 |
| `Release.SixCyclesCatchUp` | PLCMaster/src/core/plc/plc_scheduler.c:191-267 | At a frozen clock at most six more cycles run before the thread sleeps |
| `Release.EveryRunKeepsPace` | PLCMaster/src/core/plc/plc_scheduler.c:191-267 | The bound holds after every run over any nondecreasing clock readings |
| `FaultMonitor.LatchedIffEnoughConsecutiveBadCycles` | PLCMaster/src/backends/ethercat/ec_backend.c:489-517 | From start, the fault is latched after n cycles iff they contain failThreshold consecutive bad cycles all past the warm-up; the saturating counter included |
| `FaultMonitor.InOpIffFewBadCyclesTrail` | PLCMaster/src/backends/ethercat/ec_backend.c:489-519 | in_op holds iff the observed state is OP and the trailing run of bad cycles is below warnThreshold |
| `FaultMonitor.LatchStays` | PLCMaster/src/backends/ethercat/ec_backend.c:507-517 | No later observation lowers the latch |
| `FaultMonitor.FaultDetectedInTime` | PLCMaster/src/backends/ethercat/ec_backend.c:475-517 | If the bus leaves OP for good at cycle n >= warm-up, the fault is latched within checkPeriod + failThreshold - 1 cycles counted from n, whatever the working counters |
| `FaultMonitor.LatencyIsTight` | PLCMaster/src/backends/ethercat/ec_backend.c:475-517 | That bound is reached: for every n on a state-read boundary, a run in which one cycle earlier the fault is not latched |
| `FaultMonitor.DeadlineTracksClock` | PLCMaster/src/backends/ethercat/ec_backend.c:540-547 | After every cycle that woke at or after its deadline, now - 4*period <= deadline <= now + period |
| `FaultMonitor.DeadlinesStayOnTheGrid` | PLCMaster/src/backends/ethercat/ec_backend.c:540-547 | Over any run of wakes each at most five periods late, the deadline is the first one plus one period per wake |
| `FaultMonitor.CheckPeriodIs` | PLCMaster/src/backends/ethercat/ec_backend.c:148-155 | The state check period is the number of whole cycles in its milliseconds, at least one, cut to 32 bits |
| `FaultMonitor.RtThread.Cycle` | PLCMaster/src/backends/ethercat/ec_backend.c:475-519 | The code of the fault part of an RT cycle performs MonitorCycle |
| `FaultMonitor.RtThread.Reschedule` | PLCMaster/src/backends/ethercat/ec_backend.c:540-547 | The deadline moves one period on, or to now + period when now is more than five periods past it |
| `FaultMonitor.RtThread.constructor` | PLCMaster/src/backends/ethercat/ec_backend.c:438-441 | Every configured zero is replaced by its default, the check period is converted to cycles, and start leaves the monitor cleared |
| `OutputBuffers.PublishedImageIsFoldOfBracketWrites` | PLCMaster/src/backends/ethercat/ec_backend.c:657-699 | In every interleaving the published buffer is the fold of all writes made inside finished begin/end brackets, and outside cycle_end the two indices differ |
| `OutputBuffers.CycleBeginAlone` | PLCMaster/src/backends/ethercat/ec_backend.c:657-677 | cycle_begin makes the staging buffer equal to the published one and touches nothing else |
| `OutputBuffers.CycleEndAlone` | PLCMaster/src/backends/ethercat/ec_backend.c:679-699 | cycle_end swaps the roles of the two buffers |
| `OutputBuffers.OutsideWritesAreDiscarded` | PLCMaster/src/backends/ethercat/ec_backend.c:657-677 | A write staged outside a bracket leaves no trace after the next cycle_begin |
| `OutputBuffers.FrameIsWholeIffNoLateWrites` | PLCMaster/src/backends/ethercat/ec_backend.c:652-699 | From every reachable state: in all schedules in which the PLC thread stores at most m bytes after a cycle_end that falls into the RT copy, the frame is the image published when RT loaded its index, iff m is zero or there are no output bytes |
| `OutputBuffers.OneLateWriteSpoils` | PLCMaster/src/backends/ethercat/ec_backend.c:465-471 | However far the PLC thread is, it can go on to publish and then spoil the frame with one staged byte |
| `OutputBuffers.FrameCanTear` | PLCMaster/src/backends/ethercat/ec_backend.c:652-656 | And without any write outside brackets: a concrete run whose frame mixes two published images |
| `OutputBuffers.OutputSide.CycleBegin` | PLCMaster/src/backends/ethercat/ec_backend.c:657-677 | The code: published image kept, staging image becomes it |
| `OutputBuffers.OutputSide.CycleEnd` | PLCMaster/src/backends/ethercat/ec_backend.c:679-699 | The code: the staged image is published |
| `OutputBuffers.OutputSide.Cycle` | PLCMaster/src/backends/ethercat/ec_backend.c:657-699 | A cycle that stages a list of writes publishes the old image with them applied |
| `OutputBuffers.CopyBuffer` | PLCMaster/src/backends/ethercat/ec_backend.c:376-393 | memcpy of a whole buffer |
| `SafeOutputThreads.ZeroOutputsIffSafe` | PLCMaster/src/backends/ethercat/ec_backend.c:434-643 | With any number of RT threads: under a latched fault every frame until start clears it is zero, whatever anybody does, iff no thread is in the middle of a frame begun before the latch or spoilt by one |
| `SafeOutputThreads.StartsAloneKeepOutputsSafe` | PLCMaster/src/backends/ethercat/ec_backend.c:560-612 | If until now start was called only with no RT thread alive, a latched fault means zeros until start clears it, even if start is called beside a live thread later |
| `SafeOutputThreads.StartBesideThreadLeaks` | PLCMaster/src/backends/ethercat/ec_backend.c:560-612 | From every initial state two starts in a row, which the code allows, lead to a latched fault followed by a frame that is not zero |
| `SafeOutputThreads.OneLiveThreadLeaks` | PLCMaster/src/backends/ethercat/ec_backend.c:560-612 | And without a second thread: from every initial state, a start called while the only RT thread lives can send a nonzero frame under a fault latched meanwhile |
| `SafeOutputThreads.FaultMeansZerosIffStartsAlone` | PLCMaster/src/backends/ethercat/ec_backend.c:434-643 | In all runs in which start is called with at most k RT threads alive a latched fault means zeros until start clears it, iff k is zero or there are no output bytes; the same for runs with at most k threads ever alive |
| `FaultToOutputs.SharedLatchIffEnoughBadCycles` | PLCMaster/src/backends/ethercat/ec_backend.c:475-517 | The shared latch is set exactly when the cycles judged since start last cleared it contain failThreshold consecutive bad ones past the warm-up |
| `FaultToOutputs.LossOfOpZeroesFrames` | PLCMaster/src/backends/ethercat/ec_backend.c:434-612 | End to end: when the bus leaves OP for good at RT cycle n past the warm-up and checkPeriod + failThreshold - 1 cycles counted from n have been judged, every later frame until start clears the latch carries zeros |
| `SafeOutputs.LatchStaysUntilRestart` | PLCMaster/src/backends/ethercat/ec_backend.c:507-517 | No step other than the clearing store of start lowers the latch |
| `SafeOutputs.EdgeFramesAreZero` | PLCMaster/src/backends/ethercat/ec_backend.c:552-632 | Frames sent by start, by thread exit and by stop are zero in every run |
| `SafeOutputs.CycleAlone` | PLCMaster/src/backends/ethercat/ec_backend.c:450-475 | An RT cycle that nothing disturbs sends one frame: the whole buffer that the published index names, or zeros under a latched fault |
| `SafeOutputs.TripZeroesEverything` | PLCMaster/src/backends/ethercat/ec_backend.c:507-517 | The first trip leaves the fault latched, and both output buffers and the I/O map zero before the next cycle |
| `SafeOutputs.DeviceOutputs.CopyOutToIomap` | PLCMaster/src/backends/ethercat/ec_backend.c:341-360 | The code: a mapped device gets the selected buffer, or zeros when asked to or without a buffer; an unmapped one nothing |
| `SafeOutputs.DeviceOutputs.ZeroOutputBuffers` | PLCMaster/src/backends/ethercat/ec_backend.c:408-432 | The code: whatever exists of the two buffers and the window becomes zero |
| `InputSnapshot.SnapshotIsStable` | PLCMaster/src/backends/ethercat/ec_backend.c:483-487 | In every interleaving the latched input buffer is a complete RT copy and stays unchanged until RT begins a copy after its first publication since the latch |
| `InputSnapshot.OverrunWritesLatchedBuffer` | PLCMaster/src/backends/ethercat/ec_backend.c:362-374 | That bound is exact: this copy goes into the latched buffer |
| `InputSnapshot.OverrunBreaksSnapshot` | PLCMaster/src/backends/ethercat/ec_backend.c:362-374 | and from every such state three steps make the latched buffer differ from the snapshot |
| `InputSnapshot.PublishedIndicesAlternate` | PLCMaster/src/backends/ethercat/ec_backend.c:483-487 | Published indices are 0, 1, 0, 1, ... and the published buffer is always a whole copy |
| `InputSnapshot.CopyIomapToIn` | PLCMaster/src/backends/ethercat/ec_backend.c:362-374 | The code: every mapped device gets its window, an unmapped one keeps what it had, the other buffers stay |
| `InputSnapshot.InputSide.PublishInputs` | PLCMaster/src/backends/ethercat/ec_backend.c:483-487 | The code: the spare images receive the I/O map and are published, the published ones become spare; an index out of range is repaired first |
| `InputSnapshot.InputSide.LatchInputs` | PLCMaster/src/backends/ethercat/ec_backend.c:657-670 | From cycle_begin on the PLC reads the images published at that moment; a published index out of range is repaired to 0 |
| `InputSnapshot.InputSide.GetInputData` | PLCMaster/src/backends/ethercat/ec_backend.c:701-730 | Nothing for an unbound device, else an array holding that device's latched image; a latched index out of range falls back to the published one |
| `InputSnapshot.InputSide.ReadAcrossPublication` | PLCMaster/src/backends/ethercat/ec_backend.c:657-730 | A cycle overtaken by one RT publication still reads what was published when it began |
| `Spsc.EveryRunIsFifo` | PLCMaster/src/core/ipc/spsc_ring.c:20-68 | For a capacity dividing 2^32, in every interleaving of byte copies and atomic accesses: popped is a prefix of pushed, occupancy stays within capacity, producer and consumer never touch one slot at once |
| `Spsc.StepRefinesBoundedQueue` | PLCMaster/src/core/ipc/spsc_ring.c:20-68 | Every step either leaves the abstract queue alone or appends the pushed element when there is room, or takes its head |
| `Spsc.PushRefusesIffFull` | PLCMaster/src/core/ipc/spsc_ring.c:31-37 | A push returns false exactly when the ring was full at the instant it loaded the read index |
| `Spsc.PopRefusesIffEmpty` | PLCMaster/src/core/ipc/spsc_ring.c:56-62 | A pop returns false exactly when the ring is empty at the instant it loads the write index |
| `Spsc.FifoIffCapacityDivides` | PLCMaster/src/core/ipc/spsc_ring.c:5-68 | The ring is a FIFO in every run iff its capacity divides 2^32 |
| `Spsc.WrapBreaksFifo` | PLCMaster/src/core/ipc/spsc_ring.c:38-41 | For any other capacity a run that loses an element at the index wrap |
| `Spsc.SpscRing.Push` | PLCMaster/src/core/ipc/spsc_ring.c:20-43 | The code on one thread, for any capacity: refuses exactly when full, else appends; stored elements survive unless their slot is reused, which never happens if the capacity divides 2^32 or the window does not wrap |
| `Spsc.SpscRing.Pop` | PLCMaster/src/core/ipc/spsc_ring.c:45-68 | The code on one thread, for any capacity: takes the head, or refuses exactly when empty |
| `TagRuntime.Runtime.TableAdd` | PLCMaster/src/core/tag/tag_table.c:30-71 | Appends an entry with a new, non-empty name of at most 127 characters below 256 entries; otherwise -1 and no change |
| `TagRuntime.Runtime.FindId` | PLCMaster/src/core/tag/tag_table.c:73-91 | The id of the first entry with the name, 0 if none |
| `TagRuntime.Runtime.GetEntry` | PLCMaster/src/core/tag/tag_table.c:93-101 | The entry of an id in 1..count |
| `Tags.IdOfMeans` | PLCMaster/src/core/tag/tag_table.c:73-91 | The id is 0 iff no entry has the name, and otherwise names the first one that has |
| `Tags.IdOfEntry` | PLCMaster/src/core/tag/tag_table.c:73-91 | With unique names every entry is found again under its own id |
| `TagRuntime.Runtime.ResolveEntry` | PLCMaster/src/core/tag/tag_api.c:9-43 | The recursive code computes Resolve |
| `TagRuntime.Runtime.TagRead` | PLCMaster/src/core/tag/tag_api.c:277-350 | The code computes ReadTag: all error codes, sizes and bytes |
| `TagRuntime.Runtime.TagWrite` | PLCMaster/src/core/tag/tag_api.c:352-419 | The code computes WriteTag; a failed write changes nothing |
| `Tags.ResolverAgreesWithinFourHops` | PLCMaster/src/core/tag/tag_api.c:9-43 | The depth-limited resolver is unbounded resolution on chains of at most four hops and fails beyond; a write needs every alias link and the final HMI variable read-write |
| `Tags.AliasEndsAtVariable` | PLCMaster/src/core/tag/tag_api.c:9-43 | An alias ends at a process or HMI variable of its own type, never at I/O |
| `Tags.ReadAfterWrite` | PLCMaster/src/core/tag/tag_api.c:352-419 | A successful write is read back through every id resolving to the same storage |
| `Tags.WriteThenReadSameId` | PLCMaster/src/core/tag/tag_api.c:277-419 | and through its own id |
| `Tags.WriteLeavesDisjointTagsAlone` | PLCMaster/src/core/tag/tag_api.c:218-275 | A successful write leaves every tag with a disjoint slot, byte range or bit unchanged, sibling bits of the same byte included |
| `Tags.WithBitReads` | PLCMaster/src/core/tag/tag_api.c:232-244 | Setting or clearing one bit is read back and leaves the other seven alone |
| `TagMeaning.BitIsDigit` | PLCMaster/src/core/tag/tag_api.c:176-185 | Testing bit b of a byte is asking for its binary digit floor(x / 2^b) mod 2 |
| `TagMeaning.WithBitIsDigit` | PLCMaster/src/core/tag/tag_api.c:232-244 | Setting or clearing it changes the number by (wanted digit - digit) * 2^b |
| `TagMeaning.BoolIoReadsDigit` | PLCMaster/src/core/tag/tag_api.c:165-216 | A BOOL I/O tag reads that digit of the byte at its offset, or -22 without an image, or -34 out of range |
| `TagMeaning.NumberIoReadsBytes` | PLCMaster/src/core/tag/tag_api.c:165-216 | The other I/O tags read the 1, 2 or 4 bytes at their offset in order, with the same errors |
| `TagMeaning.VariableReadsSlot` | PLCMaster/src/core/tag/tag_api.c:277-350 | A variable reads the first 1, 2 or 4 bytes of its slot, or -22 without a slot of its type |
| `TagMeaning.BoolIoWritesDigit` | PLCMaster/src/core/tag/tag_api.c:218-275 | A BOOL output tag replaces that digit in the byte at its offset; every other byte of every image and store stays; inputs are refused with -22 |
| `TagMeaning.NumberIoWritesBytes` | PLCMaster/src/core/tag/tag_api.c:218-275 | The other output tags replace exactly their own bytes by the input, in order |
| `TagMeaning.VariableTakesBytes` | PLCMaster/src/core/tag/tag_api.c:352-419 | A variable takes the input into its slot and changes no other slot and no image |
| `TagMeaning.RefusedAtOnce` | PLCMaster/src/core/tag/tag_api.c:277-419 | Unresolved ids and tags of no supported type are refused with -22, too small buffers with -34 |
| `Tags.WriteKeepsShape` | PLCMaster/src/core/tag/tag_api.c:352-419 | No write changes a slot type, a store size or an image size |
| `SystemBuilder.BuiltAliasesResolve` | PLCMaster/src/system/builder/system_builder.c:404-453 | The same resolution law for every table system_build makes |
| `SystemBuilder.BuiltReadAfterWrite` | PLCMaster/src/core/tag/tag_api.c:277-419 | Read after write on a built runtime, for every id with the same footprint |
| `Builder.FindBackendIndex` | PLCMaster/src/system/builder/system_builder.c:14-34 | The first backend with the name, or none |
| `Builder.FindBackendDeviceIndex` | PLCMaster/src/system/builder/system_builder.c:36-61 | How many earlier devices share the backend, counted in 16 wrapping bits |
| `Builder.AddressSelectsOwner` | PLCMaster/src/system/builder/system_builder.c:324-335 | After a successful build these two indices select exactly the driver device bound for the configured device |
| `Builder.FewEnoughDevices` | PLCMaster/src/backends/ethercat/ec_backend.c:223-232 | Positions are nonzero, distinct and 16 bits wide, so the 16-bit count cannot wrap |
| `Builder.ValidatedTagInRangeIffNoWrap` | PLCMaster/src/system/builder/system_builder.c:103-156 | A validated tag passes the run-time range check iff offset + size stays below 2^32 |
| `Builder.RangeChecksNeverFire` | PLCMaster/src/core/tag/tag_api.c:165-275 | On a built runtime an I/O access succeeds iff offset + size stays below 2^32: no other run-time check fires |
| `Builder.BuildMakesTableOk` | PLCMaster/src/system/builder/system_builder.c:343-481 | Every built table: unique names; aliases point back to an entry of their type that is not I/O; variables have a slot of their type; every I/O tag is a valid tag addressed to the device that owns it |
| `BuiltTable.BuildSucceedsIff` | PLCMaster/src/system/builder/system_builder.c:229-490 | The build succeeds iff the configuration can be built (known models and backends, free positions on the bus, room in every table, distinct names, aliases of earlier names, valid tags), and then every row and slot of the result is what the configuration says: names, types, targets, addresses, access and cleared values |
| `BuiltTable.AccessFollowsConfiguration` | PLCMaster/src/system/builder/system_builder.c:404-453 | In the built table the entry of an HMI descriptor allows writes along its chain iff that descriptor and all that its alias_of names lead to are configured read-write, and is as many links away from its variable as they are |
| `BuiltTable.HmiWritePermittedIff` | PLCMaster/src/system/builder/system_builder.c:404-453 | After a successful build an HMI tag resolves for a write iff it and every HMI descriptor on the way are configured read-write and at most four aliases are in between, for a read iff the latter; otherwise tag_write answers -22 |
| `SystemBuilder.CheckDevices` | PLCMaster/src/system/builder/system_builder.c:252-274 | Accepts exactly when every device names a configured backend and a registered model and there are at most four backends |
| `SystemBuilder.BindDevice` | PLCMaster/src/backends/ethercat/ec_backend.c:208-241 | Binds exactly when there is room, the position is nonzero, on the bus, and free |
| `SystemBuilder.BindAllBackends` | PLCMaster/src/system/builder/system_builder.c:280-341 | Binds, per backend, its devices in configuration order, or fails as the specification does |
| `SystemBuilder.BuildProcs` | PLCMaster/src/system/builder/system_builder.c:355-382 | Process entries and cleared slots, or failure |
| `SystemBuilder.BuildHmis` | PLCMaster/src/system/builder/system_builder.c:388-457 | The loop makes the HMI aliases and variables in order, or fails; what each row must be, access included, is BuildSucceedsIff |
| `SystemBuilder.BuildTagsForDevice` | PLCMaster/src/system/builder/system_builder.c:158-227 | All valid tags of a device under its name and address, or failure |
| `SystemBuilder.SystemBuild` | PLCMaster/src/system/builder/system_builder.c:229-490 | Returns 0 exactly when the specification Build has a result, and leaves that result behind |
| `SystemBuilder.BuiltRuntimeIsSound` | PLCMaster/src/system/builder/system_builder.c:229-490 | A built runtime has all that the accessor laws ask for |
| `SystemBuilder.BuiltIoTagsReadable` | PLCMaster/src/core/tag/tag_api.c:165-216 | Every I/O tag of a built runtime reads with its own size |
| `StoreInit.ProcInit` | PLCMaster/src/app/plc/store_init.c:105-161 | The loop over descriptors computes AfterProcInit; nothing in mode HMI_INIT |
| `StoreInit.HmiInit` | PLCMaster/src/app/plc/store_init.c:163-228 | The loop over descriptors computes AfterHmiInit; nothing in mode COLD |
| `StoreInit.SoleTargetHolds` | PLCMaster/src/app/plc/store_init.c:7-61 | A slot that one descriptor targets ends with that type and initial value |
| `StoreInit.PollFactoryReset` | PLCMaster/src/main.c:65-75 | Reads the command tag, clears it, and initialises both stores again |
| `FactoryReset.BootReadsInitialValues` | PLCMaster/src/main.c:117-119 | After build, proc_init and hmi_init every process and HMI variable of a supported type reads its configured initial value |
| `FactoryReset.ResetRestoresBoot` | PLCMaster/src/main.c:65-75 | After any run of writes and resets, a requested reset brings the initial values back and no variable read can tell the stores from those after boot |
| `FactoryReset.SlotTypesFollowTags` | PLCMaster/src/app/plc/store_init.c:105-228 | Through boot and any run of writes and resets every slot keeps the type of its tag |
| `FactoryReset.ResetRepeatsIffCommandStartsTrue` | PLCMaster/src/main.c:65-75 | After a reset the command is requested again iff it leads, through any aliases, to a variable configured to start true, or is an input |
| `RpcText.StrtoulReadsDecimal` | PLCMaster/src/core/ipc/tag_rpc_plc.c:182 | strtoul with base 0 reads back what %u printed, saturating at ULONG_MAX |
| `RpcText.TextRoundTrip` | PLCMaster/src/core/ipc/tag_rpc_plc.c:87-228 | For BOOL, U8, U16 and U32 the text of a READ is accepted by WRITE and means the same bytes |
| `RpcText.DecimalOfWordFits` | PLCMaster/src/core/ipc/tag_rpc_plc.c:135 | A 32-bit number has at most ten digits, so the 64-byte fields never cut it |
| `RpcText.StrEqNoCase` | PLCMaster/src/core/ipc/tag_rpc_plc.c:31-43 | Equal lengths and equal letters up to case |
| `RpcText.ParseBoolValue` | PLCMaster/src/core/ipc/tag_rpc_plc.c:45-74 | 0, 1, true, false in any case, nothing else |
| `RpcText.BoolTextIs` | PLCMaster/src/core/ipc/tag_rpc_plc.c:45-74 | True is 1 or the four letters of true, false is 0 or the five of false, letter by letter in either case |
| `RpcText.HandleRead` | PLCMaster/src/core/ipc/tag_rpc_plc.c:87-159 | The reply of a READ: type and text, or read_failed with the error code |
| `RpcText.HandleWrite` | PLCMaster/src/core/ipc/tag_rpc_plc.c:161-252 | The reply of a WRITE and the memory after it: parse errors and range errors change nothing |
| `RpcNumbers.NumberTextsAre` | PLCMaster/src/core/ipc/tag_rpc_plc.c:179-228 | A numeric tag refuses a text with EINVAL iff it is not empty and does not denote an integer: white space, a sign, and a decimal, octal or hexadecimal body |
| `RpcNumbers.DigitsMean` | PLCMaster/src/core/ipc/tag_rpc_plc.c:182 | The digits 0 to f in both cases have the values 0 to 15 |
| `RpcNumbers.NumbersIn8And16Bits` | PLCMaster/src/core/ipc/tag_rpc_plc.c:179-214 | Every text that denotes an integer: stored exactly or refused with ERANGE, apart from the negative ones that wrap around ULONG_MAX + 1 into the tag's range |
| `RpcNumbers.NumbersIn32Bits` | PLCMaster/src/core/ipc/tag_rpc_plc.c:215-228 | Every text that denotes an integer is accepted, stored modulo 2^32 or as 2^32 - 1 beyond ULONG_MAX, and so exactly iff it lies in 0..2^32-1 |
| `RpcValues.ReadTextWritesBack` | PLCMaster/src/core/ipc/tag_rpc_plc.c:87-228 | Over the whole tag layer: the text read from a writable tag is accepted by WRITE and the tag then reads the same value |
| `RpcValues.WrittenNumberIsPrinted` | PLCMaster/src/core/ipc/tag_rpc_plc.c:87-228 | A number written with success is what the next READ prints |
| `RpcProtocol.RepliesAnswerOwnRequests` | PLCMaster/src/services/tcp/tag_tcp_server.c:146-175 | In every interleaving, after stop too, every formatted reply is the response computed for that very request, at most one per request, in order, whatever the ids wrap to |
| `RpcProtocol.AtMostOneInFlightUntilStop` | PLCMaster/src/services/tcp/tag_tcp_server.c:146-175 | Until stop: queued + in service + answered is at most one, queue_full never occurs, no response is lost, every line gets its formatted reply |
| `RpcProtocol.WaitingServerCanBeAnswered` | PLCMaster/src/services/tcp/tag_tcp_server.c:159-175 | In every waiting state before stop, the rest of a finished poll, one more poll and one look deliver the reply |
| `RpcProtocol.QueueFillsAfterStop` | PLCMaster/src/services/tcp/tag_tcp_server.c:153-165 | Why until stop: after it, abandoned requests do fill the queue |
| `RpcOverRings.StepRefines` | PLCMaster/src/core/ipc/spsc_ring.c:20-68 | Every single load, copied byte and store of the two threads on the two rings amounts to at most one protocol step |
| `RpcOverRings.ByteLevelRunsObeyProtocol` | PLCMaster/src/services/tcp/tag_tcp_server.c:146-175 | So every byte-level run obeys the protocol: own replies only, and until stop nothing lost and no queue_full |
| `RpcOverRings.RequestReadsBack` | PLCMaster/src/core/ipc/tag_rpc.h:19-25 | A request whose texts fit their fields is read back from its bytes |
| `RpcOverRings.ResponseReadsBack` | PLCMaster/src/core/ipc/tag_rpc.h:27-34 | and so is a response |
| `RpcEndpoints.ParseToken` | PLCMaster/src/services/tcp/tag_tcp_server.c:38-65 | The next token cut to its field, and the cursor behind the whole token |
| `RpcEndpoints.ParseLine` | PLCMaster/src/services/tcp/tag_tcp_server.c:97-151 | The request of a line, or bad_cmd |
| `RpcEndpoints.ReadLineMeans` | PLCMaster/src/services/tcp/tag_tcp_server.c:117-125 | READ name asks for that name, cut to 63 characters |
| `RpcEndpoints.WriteLineMeans` | PLCMaster/src/services/tcp/tag_tcp_server.c:126-139 | WRITE name value asks for both, each cut to 63 characters |
| `RpcEndpoints.NameReachableIffShortWord` | PLCMaster/src/services/tcp/tag_tcp_server.c:97-151 | Over all lines: a name can be asked for iff it is non-empty, has at most 63 characters and no white space, though the table stores any name of up to 127 |
| `RpcEndpoints.Poll` | PLCMaster/src/core/ipc/tag_rpc_plc.c:254-309 | The poll over both rings and the runtime: the oldest requests, at most max_per_cycle, each answered as AnswerByOp says |
| `RpcEndpoints.PollAnswersInOrder` | PLCMaster/src/core/ipc/tag_rpc_plc.c:264-308 | Every request taken is removed; one response per request, in order, under the same id, as long as there is room for it, behind the responses that were there |
| `RpcReplies.LineMeans` | PLCMaster/src/services/tcp/tag_tcp_server.c:97-151 | Every line: READ with a second word, WRITE with a second and third, cut to 63 characters each, and nothing else is a command |
| `RpcReplies.AnswerByOp` | PLCMaster/src/core/ipc/tag_rpc_plc.c:276-304 | Op 1 reads, op 2 writes, any other op is EINVAL, an unknown name ENOENT, and both leave the memory alone |
| `RpcReplies.ReadLineAnswered` | PLCMaster/src/core/ipc/tag_rpc_plc.c:276-304 | From the line to the reply: READ name leaves the memory unchanged and is answered with the tag's type and the text of its bytes, or with tag_not_found or read_failed and their codes |
| `RpcReplies.WriteLineAnswered` | PLCMaster/src/core/ipc/tag_rpc_plc.c:276-304 | WRITE name text performs the tag_write of the bytes that the text means, or changes nothing and answers with tag_not_found or write_failed and their codes |
| `RpcReplies.WriteThenReadAnswers` | PLCMaster/src/core/ipc/tag_rpc_plc.c:264-309 | Two lines in one poll: when WRITE name n is answered with status 0, the READ name behind it is answered n |
| `HealthGate.SeenFaultGatesTasks` | PLCMaster/src/core/plc/plc_scheduler.c:219-248 | A latch that the health scan of a cycle can still see or has seen: in this and all later cycles until that backend restarts only ALWAYS_RUN tasks execute |
| `HealthGate.LatchGatesLaterCycles` | PLCMaster/src/core/runtime/runtime.c:180-210 | A latch set at any moment gates every cycle that begins later |
| `HealthGate.OneLevelPerCycle` | PLCMaster/src/main.c:77-79 | All tasks of one cycle see the same level, however the flags move |
| `HealthGate.LossOfOpGatesTasks` | PLCMaster/src/backends/ethercat/ec_backend.c:475-517 | End to end: a bus that leaves OP for good stops all but ALWAYS_RUN tasks in every cycle that begins after the detection latency |
| `HealthGate.QuietCyclePublishesLevel` | PLCMaster/src/core/runtime/runtime.c:165-211 | Undisturbed, a cycle publishes FAULT iff a latch is set, WARN iff none is and some in_op is down, else OK |
| `HealthGate.GetHealthLevel` | PLCMaster/src/core/runtime/runtime.c:165-211 | The loop over the drivers returns that level |
| `HealthGate.DueTaskRuns` | PLCMaster/src/core/plc/plc_scheduler.c:235-248 | In every state of the task loop a due ALWAYS_RUN task runs at every level, and a due task of either other policy exactly when the level is not FAULT, WARN included |
| `HealthGate.QuietCycleRunsTask` | PLCMaster/src/core/plc/plc_scheduler.c:219-248 | In an undisturbed cycle a due task runs iff no latch is set or it is ALWAYS_RUN |
| `HealthGate.OnlyWhenOkObeysIffNotWarn` | PLCMaster/src/core/plc/plc_task.h:14 | In an undisturbed cycle a due ONLY_WHEN_OK task runs at OK only, iff the level is not WARN |
| `HealthGate.OnlyWhenOkHoldsIffNoDrivers` | PLCMaster/src/core/plc/plc_scheduler.c:235-248 | From every initial state: such tasks run at OK only in all runs iff no driver reports a status |
| `PlcCycle.BackendsCycleBegin` | PLCMaster/src/core/runtime/runtime.c:113-134 | Every driver's staging image becomes its published image |
| `PlcCycle.BackendsSyncOutputs` | PLCMaster/src/core/runtime/runtime.c:136-157 | Every driver's staged image is published |
| `PlcCycle.Cycle` | PLCMaster/src/main.c:43-98 | One cycle over all backends publishes exactly the tasks' writes; outputs staged by the RPC poll before cycle_begin are discarded |
| `TagCycle.WritesAreStaged` | PLCMaster/src/core/tag/tag_api.c:218-275 | Any list of tag writes, failed ones included, changes the concatenated output images exactly by the bytes it stages |
| `TagCycle.CycleOfTags` | PLCMaster/src/main.c:43-98 | A cycle whose tasks make these tag writes publishes the device images that the writes make of those published before, whatever the RPC poll staged |
| `TagCycle.TagReachesPublishedBuffer` | PLCMaster/src/core/tag/tag_api.c:352-419 | End to end: a successful write of an output tag that no later write of the cycle overlaps is what the published buffer holds at the tag's place |
| `BackendLifecycle.BackendsStart` | PLCMaster/src/core/runtime/runtime.c:46-82 | Which drivers run after success, and after a failure and its rollback |
| `BackendLifecycle.RollbackIsCompleteIffNoGap` | PLCMaster/src/core/runtime/runtime.c:64-76 | The rollback leaves nothing running iff no missing or start-less driver sits in front of a started one and every started driver has a stop |
| `BackendLifecycle.GapLeavesDriverRunning` | PLCMaster/src/core/runtime/runtime.c:67-74 | A concrete array, of drivers the builder accepts, for which it does leave one running |

## Left out

- The bus: SOEM calls, state requests and process-data exchange (ec_soem_lifecycle.c) appear only as inputs.
- Sockets, thread creation, priorities, sleeping, clock sources, and the accept/recv/send loop of the TCP server with
  its 511-character line buffer and the formatting of replies.
- SafeOutputs.SafeOutputsOnceLatched: start is enabled only when no RT thread is alive; it is the case that
  SafeOutputThreads, without that guard, builds on.
- FaultToOutputs.SharedLatchIffEnoughBadCycles: one RT thread at a time, since two would share the run of bad cycles
  but count their warm-up separately.
- PendingQueue.HandedInReservationOrder: says nothing past 2^32 reservations, where the law is false with two producers
  (PendingWrap.OrderBreaksPastWrap) and true with one (PendingSolo.SoloKeepsOrder).
- OutputBuffers.PublishedImageIsFoldOfBracketWrites: is about runs in which no fault zeroes the buffers; zeroing is in
  SafeOutputs.
- OutputBuffers.FrameIsWholeIffNoLateWrites: is about all schedules with a number of late writes; a single schedule that
  overwrites a byte with the value it had leaves the frame whole.
- I/O images in the tag layer are sequences of bytes in the runtime object, not arrays shared with the driver; the
  driver's arrays are in OutputSide, InputSide and DeviceOutputs. TagCycle ties the two output views by value, at the
  cycle's ends.
- In HealthGate the RT cycle is two steps, the judgement with its latch and the store of in_op; its inner steps are in
  the other modules.
- In RpcProtocol a ring operation is one step on its queue; RpcOverRings takes it apart and proves the refinement. The
  padding and byte order of the two structs are those of a little-endian machine with 4-byte enums.
- In InputSnapshot the windows of the I/O map are values handed to the RT side, not arrays it shares with the bus.
- Cleanup of drivers when system_build fails, and the sizing of the I/O map.
- Identity and size checks of finalize: the answer of finalize is an input.
- REAL as text, pt100 conversion, device tag tables, PDO layouts, static configuration and view binding: finite data
  or floating point.
- Modbus, rt_time and status_tags stubs, retained-storage no-ops, diagnostics and printing.
- PlcCycle follows output bytes only; the health step of the same cycle is in HealthGate.
