/**
  One pass of the kernel's main loop as a function of the loop's state: the loop
  guard, the wall-clock stop, admission of a new worker (whose spawn outcome is
  an input), dispatch of at most one incoming message, and the per-pass tick.
 */
module Scheduler {
  import opened Wrappers
  import opened OssH
  import opened Clock
  import opened Tables
  import opened Paging

  /** The clock advance charged for every completed pass. */
  const LOOP_NS: uint32 := 1000
  const NS_PER_MS: int := 1_000_000
  /** The largest launch interval, in milliseconds, whose product with 1000000 fits the
      source's signed 32-bit `int`. */
  const MAX_LAUNCH_INTERVAL: int := 2147

  /** The command-line settings, as validated by the option parser. */
  datatype Config = Config(maxProcesses: int, maxConcurrent: int, launchInterval: int)

  predicate ValidConfig(cfg: Config) {
    && cfg.maxProcesses > 0
    && 0 < cfg.maxConcurrent <= MAX_PROC
    && 0 < cfg.launchInterval <= MAX_LAUNCH_INTERVAL
  }

  /** The shared segment plus the loop's own counters. */
  datatype Kernel = Kernel(shm: SharedMemory, processesSoFar: int, nextLaunchTime: uint32)

  /** What the process-spawning call returned: the new worker's pid, or failure. */
  datatype Spawn = Spawned(pid: int) | SpawnFailed

  /** How a pass ended: the loop condition failed, the wall-clock limit stopped it, a failed
      spawn skipped the rest of the pass, or the pass ran to its tick. */
  datatype Pass = LoopEnded | TimeLimit | SpawnRetry | Ticked

  /** PCBs that are not UNUSED: every process ever admitted. */
  function CountUsed(ps: seq<PCB>): (n: nat)
    ensures n <= |ps|
  {
    if ps == [] then 0
    else CountUsed(ps[..|ps| - 1]) + (if ps[|ps| - 1].state != Unused then 1 else 0)
  }

  lemma {:induction false} CountUsedStable(ps: seq<PCB>, qs: seq<PCB>)
    requires |ps| == |qs|
    requires forall j | 0 <= j < |ps| :: (ps[j].state == Unused) == (qs[j].state == Unused)
    ensures CountUsed(ps) == CountUsed(qs)
  {
    if ps != [] {
      CountUsedStable(ps[..|ps| - 1], qs[..|qs| - 1]);
    }
  }

  lemma {:induction false} CountUsedNone(ps: seq<PCB>)
    requires forall j | 0 <= j < |ps| :: ps[j].state == Unused
    ensures CountUsed(ps) == 0
  {
    if ps != [] {
      CountUsedNone(ps[..|ps| - 1]);
    }
  }

  /** Bringing one UNUSED slot into use raises the count by exactly one. */
  lemma {:induction false} CountUsedTakesSlot(ps: seq<PCB>, slot: int, p: PCB)
    requires 0 <= slot < |ps| && ps[slot].state == Unused && p.state != Unused
    ensures CountUsed(ps[slot := p]) == CountUsed(ps) + 1
  {
    var qs := ps[slot := p];
    var n := |ps| - 1;
    if slot == n {
      assert qs[..n] == ps[..n];
    } else {
      assert qs[..n] == ps[..n][slot := p];
      CountUsedTakesSlot(ps[..n], slot, p);
    }
  }

  /** The loop's invariant. */
  ghost predicate Invariant(k: Kernel, cfg: Config) {
    && Accounted(k.shm)
    && k.processesSoFar == CountUsed(k.shm.processes)
    && k.processesSoFar <= cfg.maxProcesses
    && k.shm.activeProcesses <= cfg.maxConcurrent
    && k.nextLaunchTime < NS_PER_SEC
  }

  /** Every process ever admitted occupied a distinct PCB, so no run admits more than
      MAX_PROC processes. */
  lemma AdmittedWithinTable(k: Kernel, cfg: Config)
    requires Invariant(k, cfg)
    ensures k.processesSoFar <= MAX_PROC
  {
  }

  predicate LoopGuard(k: Kernel, cfg: Config) {
    k.processesSoFar < cfg.maxProcesses || k.shm.activeProcesses > 0
  }

  /** The three admission conditions checked before a PCB is sought. */
  predicate AdmissionOpen(k: Kernel, cfg: Config) {
    && k.processesSoFar < cfg.maxProcesses
    && k.shm.activeProcesses < cfg.maxConcurrent
    && k.shm.clock.nanoseconds >= k.nextLaunchTime
  }

  /** The next launch time: `interval` milliseconds after `now`, reduced into one second. */
  function NextLaunchTime(now: uint32, interval: int): (t: uint32)
    requires now < NS_PER_SEC && 0 < interval <= MAX_LAUNCH_INTERVAL
    ensures t < NS_PER_SEC
    ensures (now + interval * NS_PER_MS - t) % NS_PER_SEC == 0
  {
    var t := now + interval * NS_PER_MS;
    if t >= NS_PER_SEC then t % NS_PER_SEC else t
  }

  /** The throttle compares nanosecond fields only: an interval of whole seconds sets the
      next launch time to the current nanoseconds, so it imposes no wait of its own. */
  lemma {:induction false} WholeSecondInterval(now: uint32, interval: int)
    requires now < NS_PER_SEC && 0 < interval <= MAX_LAUNCH_INTERVAL && interval % 1000 == 0
    ensures NextLaunchTime(now, interval) == now
  {
    var q := interval / 1000;
    assert interval * NS_PER_MS == q * NS_PER_SEC;
    assert q == 1 || q == 2;
    assert now + interval * NS_PER_MS >= NS_PER_SEC;
    assert (now + q * NS_PER_SEC) % NS_PER_SEC == now;
  }

  /** A pid the spawn may return: positive and held by no PCB in use. */
  predicate FreshPid(ps: seq<PCB>, pid: int) {
    pid > 0 && forall j | 0 <= j < |ps| :: !Holds(ps[j], pid)
  }

  /** What the environment guarantees about a pass's inputs: the operating system never
      hands out the pid of a worker still on record, and a worker only asks for addresses
      within its 32 pages. */
  predicate InputsOk(k: Kernel, spawn: Spawn, msg: Option<Message>) {
    && (spawn.Spawned? ==> FreshPid(k.shm.processes, spawn.pid))
    && (msg.Some? && !msg.value.terminated ==> InAddressRange(msg.value.address))
  }

  /** Stamps PCB `slot` for a new worker and advances the loop's counters. */
  function Admit(k: Kernel, cfg: Config, slot: int, pid: int): (r: Kernel)
    requires ValidConfig(cfg) && Normalised(k.shm.clock) && 0 <= slot < |k.shm.processes|
  {
    var m := k.shm;
    var p := m.processes[slot].(pid := pid, state := Running,
                                startSec := m.clock.seconds, startNano := m.clock.nanoseconds);
    Kernel(m.(processes := m.processes[slot := p], activeProcesses := m.activeProcesses + 1),
           k.processesSoFar + 1,
           NextLaunchTime(m.clock.nanoseconds, cfg.launchInterval))
  }

  /** Message dispatch: a message whose pid no PCB in use holds is dropped; otherwise a
      termination notice retires the PCB and a request is served. */
  function Dispatch(m: SharedMemory, msg: Option<Message>): SharedMemory
    requires Consistent(m)
    requires msg.Some? && !msg.value.terminated ==> InAddressRange(msg.value.address)
  {
    match msg
    case None => m
    case Some(x) =>
      var slot := FirstWithPid(m.processes, x.pid);
      if slot == -1 then m
      else if x.terminated then TerminateProcess(m, slot)
      else MemoryRequest(m, slot, x.address, x.isWrite)
  }

  function Tick(m: SharedMemory): SharedMemory {
    m.(clock := Advance(m.clock, LOOP_NS))
  }

  lemma {:induction false} AdmitInvariant(k: Kernel, cfg: Config, pid: int)
    requires ValidConfig(cfg) && Invariant(k, cfg) && AdmissionOpen(k, cfg)
    requires FirstUnused(k.shm.processes) != -1 && FreshPid(k.shm.processes, pid)
    ensures Invariant(Admit(k, cfg, FirstUnused(k.shm.processes), pid), cfg)
  {
    var slot := FirstUnused(k.shm.processes);
    var r := Admit(k, cfg, slot, pid);
    var ps, qs, fs := k.shm.processes, r.shm.processes, k.shm.frameTable;
    CountUsedTakesSlot(ps, slot, qs[slot]);
    assert qs == ps[slot := qs[slot]];
    assert PcbOk(ps[slot]);
    assert PcbOk(qs[slot]);
    forall f | 0 <= f < TOTAL_FRAMES && fs[f].occupied ensures Known(qs, fs[f].pid) {
      var j :| 0 <= j < MAX_PROC && Holds(ps[j], fs[f].pid);
      assert j != slot;
      assert Holds(qs[j], fs[f].pid);
    }
    forall i, f | 0 <= i < MAX_PROC && qs[i].state == Running && 0 <= f < TOTAL_FRAMES
        && fs[f].occupied && fs[f].pid == qs[i].pid
      ensures 0 <= fs[f].page < |qs[i].pageTable| && qs[i].pageTable[fs[f].page] == f
    {
      assert Known(ps, fs[f].pid);
      if i == slot {
        assert false;
      }
    }
  }

  /** Dispatch keeps the segment's invariant, never brings a PCB into or out of use, and
      never raises the active count. */
  lemma {:induction false} DispatchAccounted(m: SharedMemory, msg: Option<Message>)
    requires Accounted(m)
    requires msg.Some? && !msg.value.terminated ==> InAddressRange(msg.value.address)
    ensures var r := Dispatch(m, msg);
      && Accounted(r)
      && |r.processes| == MAX_PROC
      && (forall j | 0 <= j < MAX_PROC :: (r.processes[j].state == Unused) == (m.processes[j].state == Unused))
      && r.activeProcesses <= m.activeProcesses
  {
    if msg.Some? {
      var slot := FirstWithPid(m.processes, msg.value.pid);
      if slot != -1 {
        if msg.value.terminated {
          TerminateAccounted(m, slot);
        } else {
          MemoryRequestAccounted(m, slot, msg.value.address, msg.value.isWrite);
          MemoryRequestKeepsIdentity(m, slot, msg.value.address, msg.value.isWrite);
          var r := Dispatch(m, msg);
          forall j | 0 <= j < MAX_PROC ensures r.processes[j].state == m.processes[j].state {
            assert r.processes[j].(pageTable := [], pageFaults := 0, totalMemoryAccesses := 0).state
                == m.processes[j].(pageTable := [], pageFaults := 0, totalMemoryAccesses := 0).state;
          }
        }
      }
    }
  }

  lemma DispatchInvariant(k: Kernel, cfg: Config, msg: Option<Message>)
    requires Invariant(k, cfg)
    requires msg.Some? && !msg.value.terminated ==> InAddressRange(msg.value.address)
    ensures Invariant(k.(shm := Dispatch(k.shm, msg)), cfg)
  {
    DispatchAccounted(k.shm, msg);
    CountUsedStable(k.shm.processes, Dispatch(k.shm, msg).processes);
  }

  lemma TickInvariant(k: Kernel, cfg: Config)
    requires Invariant(k, cfg)
    ensures Invariant(k.(shm := Tick(k.shm)), cfg)
  {
    var m := k.shm;
    var r := Tick(m);
    forall f | 0 <= f < TOTAL_FRAMES && r.frameTable[f].occupied ensures Known(r.processes, r.frameTable[f].pid) {
      assert Known(m.processes, m.frameTable[f].pid);
    }
  }

  /** The response a dispatched message earns: a request from a pid some PCB in use holds is
      answered with the same message retyped as a RESPONSE; nothing else is answered. */
  function Reply(m: SharedMemory, msg: Option<Message>): (r: Option<Message>)
    ensures r.Some? <==> msg.Some? && !msg.value.terminated
                         && exists j | 0 <= j < |m.processes| :: Holds(m.processes[j], msg.value.pid)
    ensures r.Some? ==> r.value.mtype == RESPONSE && r.value.(mtype := msg.value.mtype) == msg.value
  {
    if msg.Some? && !msg.value.terminated && FirstWithPid(m.processes, msg.value.pid) != -1
    then Some(msg.value.(mtype := RESPONSE))
    else None
  }

  /** What one pass leaves behind: the new state, how the pass ended, and the response sent. */
  datatype Outcome = Outcome(next: Kernel, pass: Pass, reply: Option<Message>)

  /** The state after a pass's launch step: the spawned worker is admitted into the first
      UNUSED PCB when admission is open and a PCB is free; otherwise nothing changes. */
  function Launched(k: Kernel, cfg: Config, spawn: Spawn): (r: Kernel)
    requires ValidConfig(cfg) && Invariant(k, cfg)
    requires spawn.Spawned? ==> FreshPid(k.shm.processes, spawn.pid)
    ensures Invariant(r, cfg)
  {
    var slot := if AdmissionOpen(k, cfg) then FirstUnused(k.shm.processes) else -1;
    if slot != -1 && spawn.Spawned? then
      AdmitInvariant(k, cfg, spawn.pid);
      Admit(k, cfg, slot, spawn.pid)
    else k
  }

  /** One pass of the main loop. */
  function Step(k: Kernel, cfg: Config, timedOut: bool, spawn: Spawn, msg: Option<Message>): Outcome
    requires ValidConfig(cfg) && Invariant(k, cfg) && InputsOk(k, spawn, msg)
  {
    if !LoopGuard(k, cfg) then Outcome(k, LoopEnded, None)
    else if timedOut then Outcome(k, TimeLimit, None)
    else
      var slot := if AdmissionOpen(k, cfg) then FirstUnused(k.shm.processes) else -1;
      if slot != -1 && spawn.SpawnFailed? then Outcome(k, SpawnRetry, None)
      else
        var k1 := Launched(k, cfg, spawn);
        Outcome(k1.(shm := Tick(Dispatch(k1.shm, msg))), Ticked, Reply(k1.shm, msg))
  }

  lemma AdmitInvariantIf(k: Kernel, cfg: Config, slot: int, spawn: Spawn)
    requires ValidConfig(cfg) && Invariant(k, cfg)
    requires slot == (if AdmissionOpen(k, cfg) then FirstUnused(k.shm.processes) else -1)
    requires slot != -1 ==> spawn.Spawned? && FreshPid(k.shm.processes, spawn.pid)
    ensures slot != -1 ==> Invariant(Admit(k, cfg, slot, spawn.pid), cfg)
  {
    if slot != -1 {
      AdmitInvariant(k, cfg, spawn.pid);
    }
  }

  /** The loop invariant survives every pass, whatever the spawn outcome and message. */
  lemma StepInvariant(k: Kernel, cfg: Config, timedOut: bool, spawn: Spawn, msg: Option<Message>)
    requires ValidConfig(cfg) && Invariant(k, cfg) && InputsOk(k, spawn, msg)
    ensures Invariant(Step(k, cfg, timedOut, spawn, msg).next, cfg)
  {
    if LoopGuard(k, cfg) && !timedOut {
      var slot := if AdmissionOpen(k, cfg) then FirstUnused(k.shm.processes) else -1;
      if !(slot != -1 && spawn.SpawnFailed?) {
        var k1 := if slot != -1 then Admit(k, cfg, slot, spawn.pid) else k;
        AdmitInvariantIf(k, cfg, slot, spawn);
        DispatchInvariant(k1, cfg, msg);
        TickInvariant(k1.(shm := Dispatch(k1.shm, msg)), cfg);
      }
    }
  }

  /** A new worker is admitted exactly when the loop runs on, the three admission conditions
      hold, a PCB is free and the spawn succeeds; the admitted worker takes the first UNUSED
      PCB, stamped RUNNING with its pid and the current clock. */
  lemma AdmitsExactlyWhenOpen(k: Kernel, cfg: Config, timedOut: bool, spawn: Spawn, msg: Option<Message>)
    requires ValidConfig(cfg) && Invariant(k, cfg) && InputsOk(k, spawn, msg)
    ensures var r := Step(k, cfg, timedOut, spawn, msg).next;
      && (r.processesSoFar == k.processesSoFar + 1 <==>
            LoopGuard(k, cfg) && !timedOut && AdmissionOpen(k, cfg)
            && FirstUnused(k.shm.processes) != -1 && spawn.Spawned?)
      && (r.processesSoFar == k.processesSoFar || r.processesSoFar == k.processesSoFar + 1)
      && (r.processesSoFar == k.processesSoFar + 1 ==>
            var slot := FirstUnused(k.shm.processes);
            && r.shm.processes[slot].pid == spawn.pid
            && r.shm.processes[slot].startSec == k.shm.clock.seconds
            && r.shm.processes[slot].startNano == k.shm.clock.nanoseconds)
  {
    var r := Step(k, cfg, timedOut, spawn, msg).next;
    if r.processesSoFar == k.processesSoFar + 1 {
      var slot := FirstUnused(k.shm.processes);
      var k1 := Admit(k, cfg, slot, spawn.pid);
      AdmitInvariant(k, cfg, spawn.pid);
      DispatchKeepsIdentity(k1.shm, msg, slot);
    }
  }

  /** The launch step: when admission is open, a PCB is free and the spawn succeeds, the
      first UNUSED PCB is stamped RUNNING with the new pid and the current time, the active
      and launched counts rise by one and the next launch time is set; the frames, the clock
      and every other PCB stay as they were. Otherwise nothing changes. */
  lemma LaunchedEffects(k: Kernel, cfg: Config, spawn: Spawn)
    requires ValidConfig(cfg) && Invariant(k, cfg)
    requires spawn.Spawned? ==> FreshPid(k.shm.processes, spawn.pid)
    ensures var r := Launched(k, cfg, spawn);
            var ps := k.shm.processes;
            var slot := FirstUnused(ps);
            if AdmissionOpen(k, cfg) && slot != -1 && spawn.Spawned? then
              && ps[slot].state == Unused
              && r.shm.processes[slot]
                 == ps[slot].(pid := spawn.pid, state := Running,
                              startSec := k.shm.clock.seconds, startNano := k.shm.clock.nanoseconds)
              && |r.shm.processes| == |ps|
              && (forall j | 0 <= j < |ps| && j != slot :: r.shm.processes[j] == ps[j])
              && r.shm.activeProcesses == k.shm.activeProcesses + 1
              && r.processesSoFar == k.processesSoFar + 1
              && r.nextLaunchTime == NextLaunchTime(k.shm.clock.nanoseconds, cfg.launchInterval)
              && r.shm.frameTable == k.shm.frameTable
              && r.shm.clock == k.shm.clock
            else r == k
  {
  }

  /** A termination notice from a pid some PCB in use holds retires that PCB: it becomes
      TERMINATED, the active count drops by one, no occupied frame is left with that pid and
      no time is charged. A notice from any other pid changes nothing. */
  lemma DispatchTerminates(m: SharedMemory, x: Message)
    requires Consistent(m) && x.terminated
    ensures var r := Dispatch(m, Some(x));
            var slot := FirstWithPid(m.processes, x.pid);
            if slot == -1 then r == m
            else
              && r.processes[slot].state == Terminated
              && r.processes[slot].pid == x.pid
              && (forall j | 0 <= j < MAX_PROC && j != slot :: r.processes[j] == m.processes[j])
              && r.activeProcesses == m.activeProcesses - 1
              && (forall f | 0 <= f < TOTAL_FRAMES && r.frameTable[f].occupied :: r.frameTable[f].pid != x.pid)
              && r.clock == m.clock
  {
    var slot := FirstWithPid(m.processes, x.pid);
    if slot != -1 {
      TerminateReleasesExactly(m, slot);
    }
  }

  /** A request from a pid some PCB in use holds is served: the entry for the requested page
      names a frame afterwards (the one it named, or the fault's frame when it was absent), that
      frame turns dirty on a write, one access is counted and one fault exactly when the page
      was absent, and the clock advances by the hit or fault cost. A request from any other
      pid changes nothing. */
  lemma {:induction false} DispatchServes(m: SharedMemory, x: Message)
    requires Consistent(m) && !x.terminated && InAddressRange(x.address)
    ensures var r := Dispatch(m, Some(x));
            var slot := FirstWithPid(m.processes, x.pid);
            var page := x.address / PAGE_SIZE;
            if slot == -1 then r == m
            else
              var before := m.processes[slot].pageTable[page];
              var f := r.processes[slot].pageTable[page];
              var victim := FaultFrame(m.frameTable);
              var cost := if before != -1 then HIT_NS
                          else if FirstFree(m.frameTable) == -1 && m.frameTable[victim].dirtyBit
                          then FAULT_NS + WRITEBACK_NS else FAULT_NS;
              && f == (if before == -1 then victim else before)
              && r.frameTable[f].dirtyBit == (x.isWrite || (before != -1 && m.frameTable[f].dirtyBit))
              && ((m.processes[slot].state == Running || before == -1) ==> Maps(r.frameTable, f, x.pid, page))
              && r.processes[slot].totalMemoryAccesses == m.processes[slot].totalMemoryAccesses + 1
              && r.processes[slot].pageFaults == m.processes[slot].pageFaults + (if before == -1 then 1 else 0)
              && (m.clock.seconds + 2 <= UINT_MAX ==> TotalNs(r.clock) == TotalNs(m.clock) + cost)
              && r.activeProcesses == m.activeProcesses
  {
    var slot := FirstWithPid(m.processes, x.pid);
    if slot != -1 {
      var page := x.address / PAGE_SIZE;
      assert PcbOk(m.processes[slot]);
      if m.processes[slot].pageTable[page] == -1 {
        FaultCounters(m, slot, x.address, x.isWrite);
        FaultFrameContents(m, slot, x.address, x.isWrite);
        if m.clock.seconds + 2 <= UINT_MAX {
          FaultClock(m, slot, x.address, x.isWrite);
        }
      } else {
        HitPath(m, slot, x.address, x.isWrite);
      }
    }
  }

  /** Dispatch never changes which pid a PCB holds nor when it started. */
  lemma DispatchKeepsIdentity(m: SharedMemory, msg: Option<Message>, j: int)
    requires Consistent(m) && 0 <= j < MAX_PROC
    requires msg.Some? && !msg.value.terminated ==> InAddressRange(msg.value.address)
    ensures var r := Dispatch(m, msg);
      && |r.processes| == MAX_PROC
      && r.processes[j].pid == m.processes[j].pid
      && r.processes[j].startSec == m.processes[j].startSec
      && r.processes[j].startNano == m.processes[j].startNano
      && (m.processes[j].state != Unused ==> r.processes[j].state != Unused)
  {
    if msg.Some? {
      var slot := FirstWithPid(m.processes, msg.value.pid);
      if slot != -1 && !msg.value.terminated {
        MemoryRequestKeepsIdentity(m, slot, msg.value.address, msg.value.isWrite);
      }
    }
  }

  /** A failed spawn abandons the pass: nothing changes and no tick is charged. */
  lemma SpawnFailureSkipsPass(k: Kernel, cfg: Config, msg: Option<Message>)
    requires ValidConfig(cfg) && Invariant(k, cfg) && InputsOk(k, SpawnFailed, msg)
    requires LoopGuard(k, cfg) && AdmissionOpen(k, cfg) && FirstUnused(k.shm.processes) != -1
    ensures Step(k, cfg, false, SpawnFailed, msg) == Outcome(k, SpawnRetry, None)
  {
  }

  /** A message from a pid that no PCB in use holds (nor the worker admitted in the same
      pass) is dropped: the pass goes exactly as if no message had arrived, so it changes
      nothing but what admission and the 1000 ns tick change, and sends no response. */
  lemma UnknownSenderIgnored(k: Kernel, cfg: Config, timedOut: bool, spawn: Spawn, msg: Message)
    requires ValidConfig(cfg) && Invariant(k, cfg) && InputsOk(k, spawn, Some(msg))
    requires forall j | 0 <= j < |k.shm.processes| :: !Holds(k.shm.processes[j], msg.pid)
    requires spawn.Spawned? ==> spawn.pid != msg.pid
    ensures Step(k, cfg, timedOut, spawn, Some(msg)) == Step(k, cfg, timedOut, spawn, None)
  {
    if LoopGuard(k, cfg) && !timedOut {
      var slot := if AdmissionOpen(k, cfg) then FirstUnused(k.shm.processes) else -1;
      if !(slot != -1 && spawn.SpawnFailed?) {
        var k1 := if slot != -1 then Admit(k, cfg, slot, spawn.pid) else k;
        AdmitInvariantIf(k, cfg, slot, spawn);
        forall j | 0 <= j < |k1.shm.processes| ensures !Holds(k1.shm.processes[j], msg.pid) {
          if j != slot {
            assert k1.shm.processes[j] == k.shm.processes[j];
          }
        }
        assert FirstWithPid(k1.shm.processes, msg.pid) == -1;
      }
    }
  }

  /** The loop stops only when every worker has been launched and none is still active, or
      on the wall-clock limit; a completed pass charges the 1000 ns tick. */
  lemma PassOutcome(k: Kernel, cfg: Config, timedOut: bool, spawn: Spawn, msg: Option<Message>)
    requires ValidConfig(cfg) && Invariant(k, cfg) && InputsOk(k, spawn, msg)
    ensures var Outcome(r, pass, reply) := Step(k, cfg, timedOut, spawn, msg);
      && (pass == LoopEnded <==> k.processesSoFar >= cfg.maxProcesses && k.shm.activeProcesses <= 0)
      && (pass == TimeLimit <==> LoopGuard(k, cfg) && timedOut)
      && (pass == SpawnRetry <==> LoopGuard(k, cfg) && !timedOut && AdmissionOpen(k, cfg)
                                  && FirstUnused(k.shm.processes) != -1 && spawn.SpawnFailed?)
      && (pass != Ticked ==> r == k && reply.None?)
      && (pass == Ticked ==>
            r.shm.clock == Advance(Dispatch(Launched(k, cfg, spawn).shm, msg).clock, LOOP_NS))
  {
  }

  /** A pass that admits nobody and receives no request from a known worker only charges
      the 1000 ns tick: everything else stays as it was and no response is sent. */
  lemma QuietPassOnlyTicks(k: Kernel, cfg: Config, spawn: Spawn, msg: Option<Message>)
    requires ValidConfig(cfg) && Invariant(k, cfg) && InputsOk(k, spawn, msg)
    requires LoopGuard(k, cfg)
    requires !AdmissionOpen(k, cfg) || FirstUnused(k.shm.processes) == -1
    requires msg.Some? ==> forall j | 0 <= j < |k.shm.processes| :: !Holds(k.shm.processes[j], msg.value.pid)
    ensures Step(k, cfg, false, spawn, msg)
            == Outcome(k.(shm := k.shm.(clock := Advance(k.shm.clock, LOOP_NS))), Ticked, None)
  {
    if msg.Some? {
      assert FirstWithPid(k.shm.processes, msg.value.pid) == -1;
    }
  }

  /** A response is sent exactly when the pass completed and the PCB holding the sender's pid
      had one more memory access counted: every served request is answered, and nothing
      else is. */
  lemma {:induction false} ReplyExactlyWhenServed(k: Kernel, cfg: Config, timedOut: bool, spawn: Spawn, msg: Option<Message>)
    requires ValidConfig(cfg) && Invariant(k, cfg) && InputsOk(k, spawn, msg)
    ensures var Outcome(r, pass, reply) := Step(k, cfg, timedOut, spawn, msg);
            var before := Launched(k, cfg, spawn).shm;
            reply.Some? <==>
              pass == Ticked && msg.Some?
              && exists j | 0 <= j < MAX_PROC ::
                   Holds(before.processes[j], msg.value.pid)
                   && r.shm.processes[j].totalMemoryAccesses == before.processes[j].totalMemoryAccesses + 1
  {
    var o := Step(k, cfg, timedOut, spawn, msg);
    var before := Launched(k, cfg, spawn).shm;
    if o.pass == Ticked && msg.Some? {
      var x := msg.value;
      var slot := FirstWithPid(before.processes, x.pid);
      assert o.next.shm.processes == Dispatch(before, msg).processes;
      if slot == -1 {
        assert Dispatch(before, msg) == before;
      } else if x.terminated {
        Paging.TerminateReleasesExactly(before, slot);
        forall j | 0 <= j < MAX_PROC
          ensures o.next.shm.processes[j].totalMemoryAccesses == before.processes[j].totalMemoryAccesses
        {
        }
      } else {
        ServeConsistent(before, slot, x.address / PAGE_SIZE, x.isWrite);
        assert o.next.shm.processes[slot].totalMemoryAccesses == before.processes[slot].totalMemoryAccesses + 1;
      }
    }
  }

  /** No PCB goes back to UNUSED: a slot, once given to a worker, is never given again. */
  lemma NoSlotReused(k: Kernel, cfg: Config, timedOut: bool, spawn: Spawn, msg: Option<Message>, j: int)
    requires ValidConfig(cfg) && Invariant(k, cfg) && InputsOk(k, spawn, msg)
    requires 0 <= j < MAX_PROC && k.shm.processes[j].state != Unused
    ensures var r := Step(k, cfg, timedOut, spawn, msg).next;
      && r.shm.processes[j].state != Unused
      && r.shm.processes[j].pid == k.shm.processes[j].pid
  {
    if Step(k, cfg, timedOut, spawn, msg).pass == Ticked {
      var slot := if AdmissionOpen(k, cfg) then FirstUnused(k.shm.processes) else -1;
      var k1 := if slot != -1 then Admit(k, cfg, slot, spawn.pid) else k;
      AdmitInvariantIf(k, cfg, slot, spawn);
      assert k1.shm.processes[j] == k.shm.processes[j];
      DispatchKeepsIdentity(k1.shm, msg, j);
    }
  }
}
