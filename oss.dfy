/**
  The kernel process as a mutable object: the shared-memory segment (clock, PCB
  array, frame array, active count) plus the main loop's counters. Each method
  performs the source's step-by-step updates and is tied to the corresponding
  function on the segment's value, whose properties are proved in Paging and
  Scheduler.
 */
module Oss {
  import opened Wrappers
  import opened OssH
  import opened Clock
  import opened Tables
  import opened Paging
  import opened Scheduler

  /** A freshly created segment is zero-filled. */
  const ZERO_PCB: PCB := PCB(0, Unused, seq(PAGES_PER_PROC, _ => 0), 0, 0, 0, 0)
  const ZERO_FRAME: FrameTableEntry := FrameTableEntry(false, 0, 0, false, 0, 0)

  function ZeroSegment(): (m: SharedMemory)
    ensures WellSized(m)
  {
    SharedMemory(SimClock(0, 0), seq(MAX_PROC, _ => ZERO_PCB), seq(TOTAL_FRAMES, _ => ZERO_FRAME), 0)
  }

  class Simulator {
    var clock: SimClock
    const processes: array<PCB>
    const frameTable: array<FrameTableEntry>
    var activeProcesses: int
    var processesSoFar: int
    var nextLaunchTime: uint32
    const cfg: Config

    /** The shared segment's current value. */
    function Shm(): SharedMemory
      reads this, processes, frameTable
    {
      SharedMemory(clock, processes[..], frameTable[..], activeProcesses)
    }

    function State(): Kernel
      reads this, processes, frameTable
    {
      Kernel(Shm(), processesSoFar, nextLaunchTime)
    }

    ghost predicate Valid()
      reads this, processes, frameTable
    {
      ValidConfig(cfg) && Invariant(State(), cfg)
    }

    /** Creation of the zero-filled segment followed by `initSharedMemory`; the loop's
        counters start at zero. */
    constructor (cfg: Config)
      requires ValidConfig(cfg)
      ensures Valid() && this.cfg == cfg
      ensures Shm() == Paging.InitSharedMemory(ZeroSegment())
      ensures processesSoFar == 0 && nextLaunchTime == 0
    {
      this.cfg := cfg;
      clock := SimClock(0, 0);
      processes := new PCB[MAX_PROC](_ => ZERO_PCB);
      frameTable := new FrameTableEntry[TOTAL_FRAMES](_ => ZERO_FRAME);
      activeProcesses := 0;
      processesSoFar := 0;
      nextLaunchTime := 0;
      new;
      assert Shm() == ZeroSegment();
      InitSharedMemory();
      InitConsistent(ZeroSegment());
      CountUsedNone(processes[..]);
    }

    /** `incrementClock` on the segment's clock. */
    method IncrementClock(ns: uint32)
      modifies this`clock
      ensures clock == Advance(old(clock), ns)
    {
      var n := (clock.nanoseconds + ns) % WORD;
      if n >= NS_PER_SEC {
        clock := SimClock((clock.seconds + n / NS_PER_SEC) % WORD, n % NS_PER_SEC);
      } else {
        clock := SimClock(clock.seconds, n);
      }
    }

    /** `initSharedMemory`. */
    method InitSharedMemory()
      requires processes.Length == MAX_PROC && frameTable.Length == TOTAL_FRAMES
      modifies this`clock, this`activeProcesses, processes, frameTable
      ensures Shm() == Paging.InitSharedMemory(old(Shm()))
    {
      ghost var spec := Paging.InitSharedMemory(Shm());
      clock := SimClock(0, 0);
      for i := 0 to MAX_PROC
        invariant forall k | 0 <= k < i :: processes[k] == spec.processes[k]
        invariant forall k | i <= k < MAX_PROC :: processes[k] == old(processes[k])
        invariant clock == SimClock(0, 0)
      {
        var p := processes[i].(pid := 0, state := Unused, totalMemoryAccesses := 0, pageFaults := 0);
        var table: seq<int> := [];
        for j := 0 to PAGES_PER_PROC
          invariant |table| == j && forall t | 0 <= t < j :: table[t] == -1
        {
          table := table + [-1];
        }
        assert table == spec.processes[i].pageTable;
        processes[i] := p.(pageTable := table);
      }
      for i := 0 to TOTAL_FRAMES
        invariant forall k | 0 <= k < i :: frameTable[k] == EMPTY_FRAME
        invariant processes[..] == spec.processes
        invariant clock == SimClock(0, 0)
      {
        frameTable[i] := FrameTableEntry(false, -1, -1, false, 0, 0);
      }
      activeProcesses := 0;
      assert frameTable[..] == spec.frameTable;
      assert processes[..] == spec.processes;
    }

    /** `findUnusedPCB`: the scan returns at the first UNUSED PCB. */
    method FindUnusedPCB() returns (k: int)
      ensures IsFirstUnused(processes[..], k) && k == FirstUnused(processes[..])
    {
      k := -1;
      for i := 0 to processes.Length
        invariant forall j | 0 <= j < i :: processes[j].state != Unused
      {
        if processes[i].state == Unused {
          k := i;
          FirstUnusedUnique(processes[..], k, FirstUnused(processes[..]));
          return;
        }
      }
      FirstUnusedUnique(processes[..], k, FirstUnused(processes[..]));
    }

    /** `findEmptyFrame`: the scan returns at the first unoccupied frame. */
    method FindEmptyFrame() returns (k: int)
      ensures IsFirstFree(frameTable[..], k) && k == FirstFree(frameTable[..])
    {
      k := -1;
      for i := 0 to frameTable.Length
        invariant forall j | 0 <= j < i :: frameTable[j].occupied
      {
        if !frameTable[i].occupied {
          k := i;
          FirstFreeUnique(frameTable[..], k, FirstFree(frameTable[..]));
          return;
        }
      }
      FirstFreeUnique(frameTable[..], k, FirstFree(frameTable[..]));
    }

    /** `findLRUFrame`: the running minimum starts at (UINT_MAX, UINT_MAX) and moves only on
        a strictly earlier stamp. Since no occupied frame carries that sentinel stamp, the
        first occupied frame always takes it, and the scan picks the least-recently-used
        occupied frame, lowest index first. */
    method FindLRUFrame() returns (k: int)
      requires NoSentinelStamp(frameTable[..])
      ensures IsLru(frameTable[..], k) && k == Lru(frameTable[..])
    {
      var minSec: uint32 := UINT_MAX;
      var minNano: uint32 := UINT_MAX;
      k := -1;
      for i := 0 to frameTable.Length
        invariant k == Lru(frameTable[..i])
        invariant k == -1 ==> minSec == UINT_MAX && minNano == UINT_MAX
        invariant k != -1 ==> 0 <= k < i && minSec == frameTable[k].lastRefSec && minNano == frameTable[k].lastRefNano
      {
        assert frameTable[..i + 1][..i] == frameTable[..i];
        var e := frameTable[i];
        if e.occupied {
          if e.lastRefSec < minSec || (e.lastRefSec == minSec && e.lastRefNano < minNano) {
            minSec := e.lastRefSec;
            minNano := e.lastRefNano;
            k := i;
          }
        }
      }
      assert frameTable[..frameTable.Length] == frameTable[..];
    }

    /** The PCB scan of `handlePageFault` and of the main loop: the first PCB in use whose
        pid matches. */
    method FindProcessByPid(pid: int) returns (k: int)
      ensures IsFirstWithPid(processes[..], pid, k) && k == FirstWithPid(processes[..], pid)
    {
      k := -1;
      for i := 0 to processes.Length
        invariant forall j | 0 <= j < i :: !Holds(processes[j], pid)
      {
        if processes[i].pid == pid && processes[i].state != Unused {
          k := i;
          FirstWithPidUnique(processes[..], pid, k, FirstWithPid(processes[..], pid));
          return;
        }
      }
      FirstWithPidUnique(processes[..], pid, k, FirstWithPid(processes[..], pid));
    }
  
    /** The eviction half of `handlePageFault`: the PCB holding the victim's pid loses its
        entry for the victim's page, and a dirty victim charges the writeback. */
    method EvictFrame(frameIndex: int)
      requires Consistent(Shm()) && 0 <= frameIndex < TOTAL_FRAMES && frameTable[frameIndex].occupied
      modifies this`clock, processes
      ensures Shm() == Evict(old(Shm()), frameIndex)
    {
      ghost var m := Shm();
      var oldPid := frameTable[frameIndex].pid;
      var oldPage := frameTable[frameIndex].page;
      assert FrameOk(m.frameTable[frameIndex]);
      var oldProcIndex := FindProcessByPid(oldPid);
      if oldProcIndex != -1 {
        assert PcbOk(m.processes[oldProcIndex]);
        var p := processes[oldProcIndex];
        processes[oldProcIndex] := p.(pageTable := p.pageTable[oldPage := -1]);
      }
      if frameTable[frameIndex].dirtyBit {
        IncrementClock(WRITEBACK_NS);
      }
    }

    /** `handlePageFault`: take the first free frame, or else evict the LRU frame, then claim
        the frame for `page`, count the fault and charge the disk read. */
    method HandlePageFault(procIndex: int, page: int, isWrite: bool)
      requires Consistent(Shm()) && 0 <= procIndex < MAX_PROC && 0 <= page < PAGES_PER_PROC
      modifies this`clock, processes, frameTable
      ensures Shm() == PageFault(old(Shm()), procIndex, page, isWrite)
    {
      ghost var m := Shm();
      var frameIndex := FindEmptyFrame();
      if frameIndex == -1 {
        assert forall f | 0 <= f < TOTAL_FRAMES :: FrameOk(m.frameTable[f]);
        frameIndex := FindLRUFrame();
        EvictFrame(frameIndex);
      }
      assert Shm() == FaultPre(m) && frameIndex == FaultFrame(m.frameTable);
      ClaimFrame(procIndex, page, isWrite, frameIndex);
    }

    /** The claim half of `handlePageFault`: the frame records the requester's pid, the page,
        this access's dirty bit and the current time; the page table names the frame; the
        fault is counted; the disk read is charged. */
    method ClaimFrame(procIndex: int, page: int, isWrite: bool, frameIndex: int)
      requires WellSized(Shm()) && 0 <= procIndex < MAX_PROC && 0 <= frameIndex < TOTAL_FRAMES
      requires 0 <= page < |processes[procIndex].pageTable|
      modifies this`clock, processes, frameTable
      ensures Shm() == Claim(old(Shm()), procIndex, page, isWrite, frameIndex)
    {
      var pcb := processes[procIndex];
      frameTable[frameIndex] := FrameTableEntry(true, pcb.pid, page, isWrite, clock.seconds, clock.nanoseconds);
      processes[procIndex] := pcb.(pageTable := pcb.pageTable[page := frameIndex], pageFaults := pcb.pageFaults + 1);
      IncrementClock(FAULT_NS);
    }

    /** `handleMemoryRequest`: an absent page is faulted in; a resident page is stamped with
        the current time, marked dirty on a write, and charged 100 ns; either way one access
        is counted. */
    method HandleMemoryRequest(procIndex: int, address: int, isWrite: bool)
      requires Consistent(Shm()) && 0 <= procIndex < MAX_PROC && InAddressRange(address)
      modifies this`clock, processes, frameTable
      ensures Shm() == MemoryRequest(old(Shm()), procIndex, address, isWrite)
    {
      ghost var m := Shm();
      var page := address / PAGE_SIZE;
      assert PcbOk(m.processes[procIndex]);
      var frameIndex := processes[procIndex].pageTable[page];
      if frameIndex == -1 {
        HandlePageFault(procIndex, page, isWrite);
      } else {
        var e := frameTable[frameIndex];
        frameTable[frameIndex] := e.(lastRefSec := clock.seconds, lastRefNano := clock.nanoseconds);
        if isWrite {
          frameTable[frameIndex] := frameTable[frameIndex].(dirtyBit := true);
        }
        IncrementClock(HIT_NS);
      }
      assert Shm() == Serve(m, procIndex, page, isWrite);
      var p := processes[procIndex];
      processes[procIndex] := p.(totalMemoryAccesses := p.totalMemoryAccesses + 1);
    }

    /** `terminateProcess`: release every occupied frame carrying the process's pid, mark the
        PCB TERMINATED, and decrement the active count. */
    method TerminateProcess(procIndex: int)
      requires processes.Length == MAX_PROC && 0 <= procIndex < MAX_PROC
      modifies this`activeProcesses, processes, frameTable
      ensures Shm() == Paging.TerminateProcess(old(Shm()), procIndex)
    {
      ghost var spec := Paging.TerminateProcess(Shm(), procIndex);
      for i := 0 to frameTable.Length
        invariant forall k | 0 <= k < i :: frameTable[k] == spec.frameTable[k]
        invariant forall k | i <= k < frameTable.Length :: frameTable[k] == old(frameTable[k])
        invariant processes[..] == old(processes[..]) && activeProcesses == old(activeProcesses)
      {
        if frameTable[i].occupied && frameTable[i].pid == processes[procIndex].pid {
          frameTable[i] := frameTable[i].(occupied := false, pid := -1, page := -1, dirtyBit := false);
        }
      }
      processes[procIndex] := processes[procIndex].(state := Terminated);
      activeProcesses := activeProcesses - 1;
      assert frameTable[..] == spec.frameTable;
    }

    /** The totals of the final statistics: accesses and faults summed over the PCBs not
        UNUSED. The reported faults-per-access ratio therefore lies in [0, 1]. */
    method FinalStatistics() returns (accesses: int, faults: int)
      requires Valid()
      ensures accesses == TotalAccesses(processes[..]) && faults == TotalFaults(processes[..])
      ensures 0 <= faults <= accesses
    {
      accesses, faults := 0, 0;
      for i := 0 to processes.Length
        invariant accesses == TotalAccesses(processes[..i]) && faults == TotalFaults(processes[..i])
      {
        assert processes[..i + 1][..i] == processes[..i];
        if processes[i].state != Unused {
          accesses := accesses + processes[i].totalMemoryAccesses;
          faults := faults + processes[i].pageFaults;
        }
      }
      assert processes[..processes.Length] == processes[..];
      forall j | 0 <= j < MAX_PROC ensures 0 <= processes[j].pageFaults {
        assert PcbOk(processes[..][j]);
      }
      TotalFaultsWithinAccesses(processes[..]);
    }

    /** The parent's side of a successful spawn: PCB `procIndex` takes the new pid, becomes
        RUNNING and records its start time; both counters move and the next launch time is
        set `launchInterval` milliseconds ahead, reduced into one second. */
    method Launch(procIndex: int, pid: int)
      requires ValidConfig(cfg) && Normalised(clock) && 0 <= procIndex < processes.Length
      modifies this`activeProcesses, this`processesSoFar, this`nextLaunchTime, processes
      ensures State() == Admit(old(State()), cfg, procIndex, pid)
    {
      processes[procIndex] := processes[procIndex].(pid := pid, state := Running,
                                                    startSec := clock.seconds, startNano := clock.nanoseconds);
      activeProcesses := activeProcesses + 1;
      processesSoFar := processesSoFar + 1;
      var t := clock.nanoseconds + cfg.launchInterval * NS_PER_MS;
      if t >= NS_PER_SEC {
        t := t % NS_PER_SEC;
      }
      nextLaunchTime := t;
    }

    /** The message half of a pass: a message whose pid some PCB in use holds is a
        termination notice or a request; a served request is answered. */
    method DispatchMessage(msg: Option<Message>) returns (reply: Option<Message>)
      requires Consistent(Shm())
      requires msg.Some? && !msg.value.terminated ==> InAddressRange(msg.value.address)
      modifies this`clock, this`activeProcesses, processes, frameTable
      ensures Shm() == Dispatch(old(Shm()), msg) && reply == Reply(old(Shm()), msg)
    {
      reply := None;
      if msg.Some? {
        var procIndex := FindProcessByPid(msg.value.pid);
        if procIndex != -1 {
          if msg.value.terminated {
            TerminateProcess(procIndex);
          } else {
            HandleMemoryRequest(procIndex, msg.value.address, msg.value.isWrite);
            reply := Some(msg.value.(mtype := RESPONSE));
          }
        }
      }
    }

    /** One pass of the main loop: the loop guard, the wall-clock stop, admission of a new
        worker when the three admission conditions hold and a PCB is free (a failed spawn
        abandons the pass), dispatch of at most one message, then the 1000 ns tick. */
    method Step(timedOut: bool, spawn: Spawn, msg: Option<Message>) returns (pass: Pass, reply: Option<Message>)
      requires Valid() && InputsOk(State(), spawn, msg)
      modifies this`clock, this`activeProcesses, this`processesSoFar, this`nextLaunchTime, processes, frameTable
      ensures Valid()
      ensures Outcome(State(), pass, reply) == Scheduler.Step(old(State()), cfg, timedOut, spawn, msg)
    {
      ghost var k := State();
      ghost var out := Scheduler.Step(k, cfg, timedOut, spawn, msg);
      StepInvariant(k, cfg, timedOut, spawn, msg);
      if !(processesSoFar < cfg.maxProcesses || activeProcesses > 0) {
        return LoopEnded, None;
      }
      if timedOut {
        return TimeLimit, None;
      }
      ghost var slot := -1;
      if processesSoFar < cfg.maxProcesses && activeProcesses < cfg.maxConcurrent && clock.nanoseconds >= nextLaunchTime {
        var procIndex := FindUnusedPCB();
        slot := procIndex;
        if procIndex != -1 {
          match spawn
          case SpawnFailed =>
            return SpawnRetry, None;
          case Spawned(pid) =>
            Launch(procIndex, pid);
        }
      }
      AdmitInvariantIf(k, cfg, slot, spawn);
      ghost var k1 := if slot != -1 then Admit(k, cfg, slot, spawn.pid) else k;
      assert State() == k1;
      reply := FinishPass(msg);
      pass := Ticked;
      assert Outcome(State(), pass, reply) == out;
    }

    /** The rest of a completed pass: dispatch of at most one message, then the 1000 ns tick. */
    method FinishPass(msg: Option<Message>) returns (reply: Option<Message>)
      requires Consistent(Shm())
      requires msg.Some? && !msg.value.terminated ==> InAddressRange(msg.value.address)
      modifies this`clock, this`activeProcesses, processes, frameTable
      ensures Shm() == Tick(Dispatch(old(Shm()), msg)) && reply == Reply(old(Shm()), msg)
    {
      reply := DispatchMessage(msg);
      IncrementClock(LOOP_NS);
    }
  }
}
