# oss paging kernel in Dafny

This project models the kernel half of the `oss` virtual-memory simulator (`oss.c`, with its
layouts in `oss.h`). The kernel owns one shared-memory segment, which holds:

- a simulated clock (`seconds`, `nanoseconds`, both 32-bit unsigned);
- 18 process control blocks (PCBs), each with a 32-entry page table and counters;
- 128 frame descriptors;
- an active-process count.

Worker processes send memory requests and termination notices. The kernel serves each
request from its frame table. A hit stamps the frame. A fault takes the first free frame, or
else evicts the least-recently-used one, clearing the old owner's page-table entry and
charging a writeback when the victim is dirty. Each request charges simulated time to the
clock (100 ns for a hit, 14 ms for a fault, 10 ms more for a dirty victim), and each completed
pass of the main loop charges 1000 ns. A termination notice charges no time, and neither does
a pass abandoned after a failed spawn.

Modules:

- `OssH` (`oss_h.dfy`): the header's constants, state and message codes, and record layouts, as
  datatypes.
- `Clock` (`clock.dfy`): `incrementClock` as the function `Advance`. The 32-bit unsigned
  wrap-around of both additions is written out.
- `Tables` (`tables.dfy`): what the linear scans compute. These are the first UNUSED PCB, the
  first free frame, the first PCB in use with a given pid, and the LRU frame. Each has a
  defining predicate and a uniqueness lemma.
- `Paging` (`paging.dfy`): the segment's transitions as functions on its value. They cover
  initialisation, hit, eviction, claim, fault, request and termination. The module also holds
  the segment invariant `Consistent` and the lemmas that each transition keeps it.
  - `Consistent` says that the page tables of RUNNING PCBs and the frame table agree, in both
    directions.
  - It also says that occupied frames belong to known pids, that pids in use are distinct, and
    that no PCB is ever BLOCKED.
  - `Accounted` adds that faults never exceed accesses.
- `Scheduler` (`scheduler.dfy`): one pass of the main loop as a function `Step`, with the loop
  invariant `Invariant` and the lemmas about admission, dispatch and the tick.
- `Oss` (`oss.dfy`): the kernel as a class `Simulator`.
  - Its fields are the clock, the PCB array, the frame array, the active count and the loop's
    counters.
  - Each kernel routine the model covers is a method that updates the arrays in place, with
    loops where the source has them. `Step` is one pass of the main loop of `main`, not `main`
    itself. The output, IPC and signal routines have no method (see "## Left out").
  - Each method's postcondition ties the new state to the `Paging`/`Scheduler` function for that
    routine, so the lemmas proved there apply to the object.

Facts about the source that shape the model:

- `terminateProcess` frees the process's frames but leaves its page table as it was. The
  agreement invariant therefore covers RUNNING PCBs only.
- Dispatch accepts any PCB that is not UNUSED, TERMINATED ones included. A repeated termination
  notice for a pid therefore decrements `activeProcesses` again. `activeProcesses` equals the
  number of RUNNING PCBs only under the workers' protocol, so the invariant keeps only
  `activeProcesses <= maxConcurrent`.
- A hit through a TERMINATED PCB's stale entry can set the dirty bit of a free frame. The frame
  invariant therefore asks of a free frame only that its pid and page be -1.
- `findLRUFrame` seeds its running minimum with `(UINT_MAX, UINT_MAX)` and moves it only on a
  strictly smaller stamp. Stored nanoseconds are always below 10^9, so no occupied frame carries
  the sentinel stamp. The scan then returns exactly the lexicographically least stamp, lowest
  index first.
- The kernel receives with message type 0 (oss.c:507), which takes the first message of any
  type, and it sends its responses on the same queue (oss.c:526-527). It can therefore take
  back its own RESPONSE and dispatch it again as a request from that worker. This is why
  `Dispatch` ignores `mtype` and accepts whatever message arrives.
- The launch throttle compares only nanosecond fields. `WholeSecondInterval` shows that an
  interval of whole seconds, the default of 1000 ms included, sets the next launch time to the
  current nanoseconds.

## Model

The `Paging` and `Scheduler` reference functions (`Hit`, `Evict`, `Claim`, `FaultPre`,
`PageFault`, `Serve`, `CountAccess`, `MemoryRequest`, `TerminateProcess`,
`InitSharedMemory`, `Admit`, `Launched`, `Dispatch`, `Tick`, `Step`) have no rows of their own.
Each is covered by the `Oss.Simulator` method row that cites the same lines and names it in
its postcondition, and by the lemmas about it listed below.

| member | source | states |
|---|---|---|
| OssH.StateOfCode | oss.h:31-34 | a state code names a process state exactly when it is 0..3 |
| OssH.StateCodeRoundTrip | oss.h:31-34 | each state's code reads back as that state, so UNUSED/RUNNING/BLOCKED/TERMINATED have distinct codes in 0..3 |
| OssH.HeaderConstants | oss.h:25-39 | MEMORY_SIZE is TOTAL_FRAMES * PAGE_SIZE; the address limit is 32768 and every address below it names one of the 32 pages; REQUEST, RESPONSE and TERMINATE differ |
| Clock.Advance | oss.c:24-30 | after `incrementClock` the nanoseconds are below 10^9; without 32-bit overflow the clock's instant rises by exactly the amount added; a sub-second advance of a normalised clock raises the seconds by at most one |
| Clock.AdvanceTwice | oss.c:24-30 | two sub-second advances of a normalised clock add up, while the seconds stay two below UINT_MAX |
| Tables.FirstUnused | oss.c:65-72 | the result is the lowest index of an UNUSED PCB, or -1 exactly when there is none |
| Tables.FirstUnusedUnique | oss.c:65-72 | that index is uniquely determined |
| Tables.FirstFree | oss.c:75-82 | the result is the lowest index of an unoccupied frame, or -1 exactly when every frame is occupied |
| Tables.FirstFreeUnique | oss.c:75-82 | that index is uniquely determined |
| Tables.FirstWithPid | oss.c:166-172 | the result is the lowest index of a PCB in use carrying the pid, or -1 exactly when none does |
| Tables.FirstWithPidUnique | oss.c:166-172 | that index is uniquely determined |
| Tables.Lru | oss.c:85-103 | the result is -1 exactly when no frame is occupied; otherwise it is an occupied frame whose (lastRefSec, lastRefNano) is lexicographically minimal, strictly smaller than that of every lower-indexed occupied frame |
| Tables.LruUnique | oss.c:85-103 | the LRU frame is uniquely determined |
| Paging.InitConsistent | oss.c:33-62 | initialisation establishes the segment invariant (including page-table/frame-table agreement), with every PCB UNUSED and every frame free |
| Paging.HitConsistent | oss.c:241-269 | a hit keeps the segment invariant |
| Paging.FaultFrame | oss.c:156-159 | a fault uses the lowest free frame when one exists, otherwise the LRU frame, which is then occupied |
| Paging.FaultPreClock | oss.c:184-193 | before the claim the frame table and active count are unchanged, and the clock moves by the 10 ms writeback only when an evicted victim is dirty |
| Paging.FaultPreEffects | oss.c:161-177 | before the claim every PCB keeps everything but its page table; after an eviction exactly one entry changes, the victim page's entry in the PCB holding the victim's pid, which becomes -1 |
| Paging.EvictClearsExactly | oss.c:161-177 | eviction sets to -1 the victim page's entry of the PCB holding the victim's pid and leaves every other entry of every PCB as it was |
| Paging.FaultPreKeepsPcb | oss.c:161-177 | eviction changes no PCB's pid or counters |
| Paging.FreeFrameSetAside | oss.c:156-157 | a free frame can be claimed: no RUNNING entry names it |
| Paging.EvictKeepsShape | oss.c:161-177 | eviction keeps every PCB well formed and every other frame's owner known, and only turns entries into -1 |
| Paging.EvictKeepsAgreement | oss.c:161-177 | after eviction no RUNNING entry names the victim frame, and page tables and the other frames still agree, whoever the victim's owner was |
| Paging.EvictSetsAside | oss.c:157-194 | eviction leaves the invariant holding for every frame but the victim |
| Paging.ClaimRestores | oss.c:196-205 | claiming the set-aside frame for an absent page of a PCB in use restores the full invariant |
| Paging.ClaimEffects | oss.c:196-211 | a claim writes exactly the frame entry (owner, page, dirty bit of this access, current time), the requester's entry and fault count, and charges 14 ms |
| Paging.PageFaultConsistent | oss.c:152-212 | a fault on an absent page keeps the segment invariant |
| Paging.CountAccessConsistent | oss.c:272 | counting an access keeps the segment invariant |
| Paging.ServeConsistent | oss.c:221-269 | serving a request keeps the invariant, counts a fault exactly when the page was absent, and touches no other PCB's counters |
| Paging.MemoryRequestAccounted | oss.c:215-273 | a request from a PCB in use keeps the invariant, including faults <= accesses for every PCB |
| Paging.MemoryRequestKeepsIdentity | oss.c:215-273 | a request changes no PCB's pid, state or start time |
| Paging.HitPath | oss.c:241-272 | on a hit the frame is stamped with the clock as it was before the access and becomes dirty on a write (never clean); its owner and page stay; no other frame and no page table changes; the clock moves by exactly 100 ns; accesses rise by one and faults do not |
| Paging.FaultUnfolds | oss.c:222-240 | a request for an absent page is a fault followed by the access count |
| Paging.FaultClock | oss.c:184-211 | a fault moves the clock by 14 ms, plus 10 ms only when an evicted victim was dirty |
| Paging.FaultUnmapsVictim | oss.c:161-177 | after an eviction, the PCB holding the victim's pid has no entry for the victim page, unless the requester re-took that very page |
| Paging.FaultPageTables | oss.c:161-190 | after a fault the requester's page points at the frame used, the victim page's entry of the PCB holding the victim's pid is -1 when a frame was evicted, and every other entry of every PCB is unchanged |
| Paging.FaultFrameContents | oss.c:196-202 | the frame used ends up occupied by the requester's pid and page, dirty exactly on a write, stamped with the clock after any writeback and before the 14 ms; no other frame changes |
| Paging.FaultCounters | oss.c:204-208 | after a fault the requester's entry names the frame used, faults and accesses each rise by one, and the active count stays |
| Paging.TerminateReleasesExactly | oss.c:307-320 | termination frees exactly the occupied frames of this pid (unoccupied, pid and page -1, clean, stamp kept), leaves every other frame, page table and PCB alone, changes only the state of the PCB (to TERMINATED; pid, counters and start time kept) and decrements the active count by one |
| Paging.TerminateAccounted | oss.c:276-321 | termination of a PCB in use keeps the invariant |
| Paging.TotalFaultsWithinAccesses | oss.c:545-550 | the summed faults lie between 0 and the summed accesses |
| Scheduler.AdmittedWithinTable | oss.c:455-483 | under the loop invariant at most MAX_PROC processes are ever admitted |
| Scheduler.NextLaunchTime | oss.c:490-494 | the next launch time is below 10^9 and congruent, modulo one second, to now plus the interval in ns |
| Scheduler.WholeSecondInterval | oss.c:490-494 | an interval of whole seconds sets the next launch time to the current nanoseconds |
| Scheduler.Reply | oss.c:517-529 | a response is sent exactly for a request (not a termination notice) from a pid some PCB in use holds; it has type RESPONSE and otherwise equals the request |
| Scheduler.ReplyExactlyWhenServed | oss.c:517-529 | a pass sends a response exactly when it completed and the PCB holding the sender's pid had one more memory access counted |
| Scheduler.AdmitInvariant | oss.c:478-494 | stamping the first UNUSED PCB with a fresh pid, when admission is open, keeps the loop invariant |
| Scheduler.DispatchAccounted | oss.c:505-532 | dispatch keeps the segment invariant, brings no PCB into or out of use and never raises the active count |
| Scheduler.DispatchInvariant | oss.c:505-532 | dispatch keeps the loop invariant |
| Scheduler.DispatchKeepsIdentity | oss.c:505-532 | dispatch changes no PCB's pid or start time and returns no PCB to UNUSED |
| Scheduler.TickInvariant | oss.c:535 | the 1000 ns tick keeps the loop invariant |
| Scheduler.StepInvariant | oss.c:445-535 | every pass keeps the loop invariant: agreement, faults <= accesses, no BLOCKED PCB, processesSoFar = PCBs ever used <= maxProcesses, activeProcesses <= maxConcurrent, nextLaunchTime < 10^9 |
| Scheduler.AdmitsExactlyWhenOpen | oss.c:455-483 | a pass admits a worker exactly when the loop runs on, processesSoFar < maxProcesses, activeProcesses < maxConcurrent, the nanoseconds reached nextLaunchTime, an UNUSED PCB exists and the spawn succeeded; the admitted PCB carries the new pid and the clock at admission |
| Scheduler.SpawnFailureSkipsPass | oss.c:460-466 | a failed spawn abandons the pass: no dispatch, no tick, nothing changes |
| Scheduler.UnknownSenderIgnored | oss.c:508-517 | a message whose pid no PCB in use holds makes the pass go exactly as with no message |
| Scheduler.PassOutcome | oss.c:445-535 | the loop ends exactly when all workers were launched and none is active, stops on the time limit, abandons the pass exactly when a free PCB is on offer and the spawn fails, leaves the state unchanged and sends nothing when it ends or is abandoned, and a completed pass ends 1000 ns after the clock the dispatch left |
| Scheduler.Launched | oss.c:454-498 | the launch step keeps the loop invariant |
| Scheduler.LaunchedEffects | oss.c:454-498 | when admission is open, a PCB is free and the spawn succeeds, the first UNUSED PCB becomes RUNNING with the new pid and the current time, the active and launched counts rise by one, the next launch time is set, and frames, clock and other PCBs stay; otherwise nothing changes |
| Scheduler.DispatchTerminates | oss.c:508-519 | a termination notice from a held pid makes that PCB TERMINATED (pid kept), leaves other PCBs alone, drops the active count by one, leaves no occupied frame with that pid and charges no time; from an unheld pid it changes nothing |
| Scheduler.DispatchServes | oss.c:508-523 | a request from a held pid leaves the page's entry naming the frame it named, or the fault's frame when absent; that frame holds the requester's page (for a RUNNING requester or after a fault) and is dirty on a write; one access is counted, one fault exactly when the page was absent, and the clock advances by the hit or fault cost; from an unheld pid it changes nothing |
| Scheduler.QuietPassOnlyTicks | oss.c:445-535 | a pass that admits nobody and gets no message from a known worker only advances the clock by 1000 ns and sends nothing |
| Scheduler.NoSlotReused | oss.c:445-535 | a PCB in use never returns to UNUSED and keeps its pid |
| Oss.Simulator.constructor | oss.c:430-438 | the zero-filled segment after `initSharedMemory`, with counters at zero, satisfies the loop invariant |
| Oss.Simulator.IncrementClock | oss.c:24-30 | the clock field becomes `Advance` of the old clock |
| Oss.Simulator.InitSharedMemory | oss.c:33-62 | the arrays and clock become the initialised segment |
| Oss.Simulator.FindUnusedPCB | oss.c:65-72 | the scan returns the first UNUSED PCB, or -1 |
| Oss.Simulator.FindEmptyFrame | oss.c:75-82 | the scan returns the first unoccupied frame, or -1 |
| Oss.Simulator.FindLRUFrame | oss.c:85-103 | with no occupied frame stamped (UINT_MAX, UINT_MAX), the scan returns the LRU frame, lowest index on ties, or -1 when none is occupied |
| Oss.Simulator.FindProcessByPid | oss.c:509-515 | the scan returns the first PCB in use carrying the pid, or -1 |
| Oss.Simulator.EvictFrame | oss.c:161-193 | the in-place eviction produces the evicted segment |
| Oss.Simulator.ClaimFrame | oss.c:196-211 | the in-place claim produces the claimed segment |
| Oss.Simulator.HandlePageFault | oss.c:152-212 | the in-place fault handling produces the faulted segment |
| Oss.Simulator.HandleMemoryRequest | oss.c:215-273 | the in-place request handling produces the served segment |
| Oss.Simulator.TerminateProcess | oss.c:276-321 | the in-place termination produces the terminated segment |
| Oss.Simulator.FinalStatistics | oss.c:542-550 | the totals are the accesses and faults summed over PCBs not UNUSED, with 0 <= faults <= accesses |
| Oss.Simulator.Launch | oss.c:477-494 | the parent's stamping of a new worker produces the admitted state |
| Oss.Simulator.DispatchMessage | oss.c:505-532 | in-place dispatch produces the dispatched segment and the response |
| Oss.Simulator.FinishPass | oss.c:505-535 | dispatch then tick, in place |
| Oss.Simulator.Step | oss.c:445-535 | one pass in place yields the state, outcome and response of `Scheduler.Step`, and keeps the loop invariant |

## Left out

- Option parsing (oss.c:346-385) is not modelled. `ValidConfig` states the bounds it enforces: at least one process, concurrency in 1..18, a positive interval.
- Log file and console output are not modelled: every `fprintf`, `displayMemoryMap` (oss.c:106-149) and its `lastMapTime` trigger (oss.c:437, oss.c:499-503). They are output only.
- System V IPC is not modelled: segment and queue creation, `cleanupResources` and the signal handlers (oss.c:16-21, oss.c:324-335, oss.c:401-427). The received message becomes an `Option<Message>` input of a pass, and the response it earns an output value.
- `fork`/`execl` (oss.c:462-475) become the `Spawn` input of a pass, either the new pid or failure. The operating system's guarantee that a new pid is positive and not held by a PCB in use is the `InputsOk` precondition.
- The 5-second wall-clock limit (oss.c:446-452) becomes the boolean `timedOut` input.
- The floating-point statistics (oss.c:278-282, oss.c:561-576) are not modelled. Only the integer totals and faults <= accesses are kept.
- `user.c` is not part of this model. The only fact used from it is that every request's address lies in 0..32767 (user.c:49-51), which is the `InAddressRange` precondition.
- `PageTableEntry` (oss.h:58-60) is declared but never used, so it has no counterpart. `TOTAL_PROC` is kept only as a constant.
- C `int` overflow of the access and fault counters and of the final totals is not modelled; they are unbounded integers.
- Scheduler.ValidConfig: caps `launchInterval` at 2147 ms, below which `launchInterval * 1000000` fits a signed 32-bit `int` (oss.c:491). Larger values are undefined behaviour in the source.
- Paging.FaultClock: states the exact 14 ms (plus 10 ms) advance only while the seconds are at least two below UINT_MAX; past that the unsigned addition wraps, which `Clock.Advance` models but this lemma does not describe.
- Paging.HitPath: states the exact 100 ns advance only while the seconds are below UINT_MAX, for the same reason.
- Scheduler.UnknownSenderIgnored: covers only requests whose address is in range, because `InputsOk` asks that of every request, although the source drops a request from a pid no PCB holds without reading its address (oss.c:509-517).
- Oss.Simulator.Step: requires the loop invariant and `InputsOk` on entry, so a pass is described only from states the loop can reach and with inputs the environment can produce.
