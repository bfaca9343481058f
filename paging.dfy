/**
  The kernel's shared-memory transitions as functions on the segment's value:
  initialisation, page hit, page fault with LRU eviction, memory request and
  process termination, with the invariant they keep: page tables of RUNNING
  processes and the frame table agree.
 */
module Paging {
  import opened OssH
  import opened Clock
  import opened Tables

  /** Costs charged to the simulated clock, in nanoseconds. */
  const HIT_NS: uint32 := 100
  const FAULT_NS: uint32 := 14_000_000
  const WRITEBACK_NS: uint32 := 10_000_000

  /** A page table has one entry per page, each a frame index or -1. */
  predicate PageTableShape(p: PCB) {
    && |p.pageTable| == PAGES_PER_PROC
    && forall j | 0 <= j < |p.pageTable| :: p.pageTable[j] == -1 || 0 <= p.pageTable[j] < TOTAL_FRAMES
  }

  predicate PcbOk(p: PCB) {
    && PageTableShape(p)
    && p.state != Blocked
    && 0 <= p.pageFaults && 0 <= p.totalMemoryAccesses
    && (p.state == Unused ==>
          p.totalMemoryAccesses == 0 && p.pageFaults == 0 && forall j | 0 <= j < |p.pageTable| :: p.pageTable[j] == -1)
    && (p.state != Unused ==> p.pid > 0)
  }

  predicate FrameOk(e: FrameTableEntry) {
    && e.lastRefNano < NS_PER_SEC
    && (if e.occupied then 0 <= e.page < PAGES_PER_PROC else e.pid == -1 && e.page == -1)
  }

  /** Some non-UNUSED PCB carries `pid`. */
  ghost predicate Known(ps: seq<PCB>, pid: int) {
    exists j | 0 <= j < |ps| :: Holds(ps[j], pid)
  }

  predicate DistinctPids(ps: seq<PCB>) {
    forall i, j | 0 <= i < |ps| && 0 <= j < |ps| && Holds(ps[i], ps[i].pid) && Holds(ps[j], ps[i].pid) :: i == j
  }

  /** Frame `f` is occupied by page `page` of process `pid`. */
  predicate Maps(fs: seq<FrameTableEntry>, f: int, pid: int, page: int) {
    0 <= f < |fs| && fs[f].occupied && fs[f].pid == pid && fs[f].page == page
  }

  /** Every resident entry of a RUNNING page table names a frame that holds that page. */
  predicate TablesToFrames(ps: seq<PCB>, fs: seq<FrameTableEntry>) {
    forall i, p | 0 <= i < |ps| && ps[i].state == Running && 0 <= p < |ps[i].pageTable| && ps[i].pageTable[p] != -1 ::
      Maps(fs, ps[i].pageTable[p], ps[i].pid, p)
  }

  /** Every occupied frame of a RUNNING process is named by that process's entry for its page. */
  predicate FramesToTables(ps: seq<PCB>, fs: seq<FrameTableEntry>) {
    forall i, f | 0 <= i < |ps| && ps[i].state == Running && 0 <= f < |fs| && fs[f].occupied && fs[f].pid == ps[i].pid ::
      0 <= fs[f].page < |ps[i].pageTable| && ps[i].pageTable[fs[f].page] == f
  }

  /** The invariant of the shared-memory segment. */
  ghost predicate Consistent(m: SharedMemory) {
    && WellSized(m)
    && Normalised(m.clock)
    && (forall i | 0 <= i < |m.processes| :: PcbOk(m.processes[i]))
    && (forall f | 0 <= f < |m.frameTable| :: FrameOk(m.frameTable[f]))
    && (forall f | 0 <= f < |m.frameTable| && m.frameTable[f].occupied :: Known(m.processes, m.frameTable[f].pid))
    && DistinctPids(m.processes)
    && TablesToFrames(m.processes, m.frameTable)
    && FramesToTables(m.processes, m.frameTable)
  }

  /** The invariant with frame `x` set aside: no RUNNING entry names `x`, and nothing is
      required of frame `x` itself. A fault claims `x` from this state. */
  ghost predicate ConsistentExcept(m: SharedMemory, x: int) {
    && WellSized(m)
    && Normalised(m.clock)
    && 0 <= x < |m.frameTable|
    && (forall i | 0 <= i < |m.processes| :: PcbOk(m.processes[i]))
    && (forall f | 0 <= f < |m.frameTable| && f != x :: FrameOk(m.frameTable[f]))
    && (forall f | 0 <= f < |m.frameTable| && f != x && m.frameTable[f].occupied :: Known(m.processes, m.frameTable[f].pid))
    && DistinctPids(m.processes)
    && (forall i, p | 0 <= i < |m.processes| && m.processes[i].state == Running && 0 <= p < |m.processes[i].pageTable|
          && m.processes[i].pageTable[p] != -1 ::
          m.processes[i].pageTable[p] != x && Maps(m.frameTable, m.processes[i].pageTable[p], m.processes[i].pid, p))
    && (forall i, f | 0 <= i < |m.processes| && m.processes[i].state == Running && 0 <= f < |m.frameTable| && f != x
          && m.frameTable[f].occupied && m.frameTable[f].pid == m.processes[i].pid ::
          m.processes[i].pageTable[m.frameTable[f].page] == f)
  }

  // ---------------------------------------------------------------- initialisation

  const EMPTY_FRAME: FrameTableEntry := FrameTableEntry(false, -1, -1, false, 0, 0)

  /** `initSharedMemory`: clock at zero, every PCB UNUSED with pid 0, zero counters and an
      all-absent page table (its start stamp is left as it was), every frame empty. */
  function InitSharedMemory(m: SharedMemory): (r: SharedMemory)
    requires WellSized(m)
  {
    SharedMemory(
      SimClock(0, 0),
      seq(MAX_PROC, i requires 0 <= i < MAX_PROC =>
        m.processes[i].(pid := 0, state := Unused, totalMemoryAccesses := 0, pageFaults := 0,
                        pageTable := seq(PAGES_PER_PROC, _ => -1))),
      seq(TOTAL_FRAMES, _ => EMPTY_FRAME),
      0)
  }

  lemma InitConsistent(m: SharedMemory)
    requires WellSized(m)
    ensures Consistent(InitSharedMemory(m))
    ensures forall i | 0 <= i < MAX_PROC :: InitSharedMemory(m).processes[i].state == Unused
    ensures forall f | 0 <= f < TOTAL_FRAMES :: !InitSharedMemory(m).frameTable[f].occupied
  {
    var r := InitSharedMemory(m);
    forall i | 0 <= i < MAX_PROC ensures PcbOk(r.processes[i]) {
      assert r.processes[i].pageTable == seq(PAGES_PER_PROC, _ => -1);
    }
  }

  // ---------------------------------------------------------------- hit

  /** A page hit on frame `f`: stamp the frame with the current time, mark it dirty on a
      write, then charge the access. */
  function Hit(m: SharedMemory, f: int, isWrite: bool): SharedMemory
    requires 0 <= f < |m.frameTable|
  {
    var e := m.frameTable[f];
    m.(frameTable := m.frameTable[f := e.(lastRefSec := m.clock.seconds, lastRefNano := m.clock.nanoseconds,
                                         dirtyBit := e.dirtyBit || isWrite)],
       clock := Advance(m.clock, HIT_NS))
  }

  lemma HitConsistent(m: SharedMemory, f: int, isWrite: bool)
    requires Consistent(m) && 0 <= f < |m.frameTable|
    ensures Consistent(Hit(m, f, isWrite))
  {
    var r := Hit(m, f, isWrite);
    assert forall g | 0 <= g < TOTAL_FRAMES ::
      r.frameTable[g].occupied == m.frameTable[g].occupied && r.frameTable[g].pid == m.frameTable[g].pid
      && r.frameTable[g].page == m.frameTable[g].page;
    forall g | 0 <= g < TOTAL_FRAMES && r.frameTable[g].occupied
      ensures Known(r.processes, r.frameTable[g].pid)
    {
      assert Known(m.processes, m.frameTable[g].pid);
    }
  }

  // ---------------------------------------------------------------- fault

  /** Clears entry `page` of a PCB's page table. */
  function ClearEntry(p: PCB, page: int): PCB
    requires 0 <= page < |p.pageTable|
  {
    p.(pageTable := p.pageTable[page := -1])
  }

  /** Eviction of occupied frame `v`: the PCB holding the victim's pid loses its entry for
      the victim's page, and a dirty victim costs a writeback. The frame itself is left as
      it is until it is claimed. */
  function Evict(m: SharedMemory, v: int): (r: SharedMemory)
    requires Consistent(m) && 0 <= v < |m.frameTable| && m.frameTable[v].occupied
    ensures WellSized(r)
    ensures forall i | 0 <= i < |r.processes| :: PageTableShape(r.processes[i])
  {
    var victim := m.frameTable[v];
    var owner := FirstWithPid(m.processes, victim.pid);
    var procs := if owner == -1 then m.processes
                 else m.processes[owner := ClearEntry(m.processes[owner], victim.page)];
    m.(processes := procs,
       clock := if victim.dirtyBit then Advance(m.clock, WRITEBACK_NS) else m.clock)
  }

  /** Frame `x` is claimed for `page` of process `i`: the frame records the owner, the page,
      the dirty bit of this access and the current time; the page table points at `x`; the
      fault is counted and the disk read is charged. */
  function Claim(m: SharedMemory, i: int, page: int, isWrite: bool, x: int): SharedMemory
    requires 0 <= i < |m.processes| && 0 <= page < |m.processes[i].pageTable| && 0 <= x < |m.frameTable|
  {
    var pcb := m.processes[i];
    var entry := FrameTableEntry(true, pcb.pid, page, isWrite, m.clock.seconds, m.clock.nanoseconds);
    m.(frameTable := m.frameTable[x := entry],
       processes := m.processes[i := pcb.(pageTable := pcb.pageTable[page := x], pageFaults := pcb.pageFaults + 1)],
       clock := Advance(m.clock, FAULT_NS))
  }

  /** The frame a fault uses: the lowest free frame, otherwise the LRU frame. */
  function FaultFrame(fs: seq<FrameTableEntry>): (x: int)
    requires |fs| > 0
    ensures 0 <= x < |fs|
    ensures FirstFree(fs) != -1 ==> x == FirstFree(fs) && IsFirstFree(fs, x)
    ensures FirstFree(fs) == -1 ==> x == Lru(fs) && IsLru(fs, x) && fs[x].occupied
  {
    var free := FirstFree(fs);
    if free != -1 then free
    else
      assert fs[0].occupied;
      Lru(fs)
  }

  /** The state a fault claims its frame from: unchanged when a frame is free, otherwise
      after evicting the LRU frame. */
  function FaultPre(m: SharedMemory): (r: SharedMemory)
    requires Consistent(m)
    ensures WellSized(r)
    ensures forall i | 0 <= i < |r.processes| :: PageTableShape(r.processes[i])
  {
    if FirstFree(m.frameTable) != -1 then m else Evict(m, FaultFrame(m.frameTable))
  }

  /** `handlePageFault`. */
  function PageFault(m: SharedMemory, i: int, page: int, isWrite: bool): SharedMemory
    requires Consistent(m) && 0 <= i < MAX_PROC && 0 <= page < PAGES_PER_PROC
  {
    Claim(FaultPre(m), i, page, isWrite, FaultFrame(m.frameTable))
  }

  /** Before the claim, the frame table and the active count are untouched and only an
      eviction's writeback moves the clock. */
  lemma FaultPreClock(m: SharedMemory)
    requires Consistent(m)
    ensures var x := FaultFrame(m.frameTable);
            var evicted := FirstFree(m.frameTable) == -1;
            var r := FaultPre(m);
            && r.frameTable == m.frameTable
            && r.activeProcesses == m.activeProcesses
            && r.clock == (if evicted && m.frameTable[x].dirtyBit then Advance(m.clock, WRITEBACK_NS) else m.clock)
            && (!evicted ==> r == m)
  {
  }

  /** Before the claim, PCBs change at most by losing the victim page's entry in the PCB
      holding the victim's pid. */
  lemma FaultPreEffects(m: SharedMemory)
    requires Consistent(m)
    ensures var x := FaultFrame(m.frameTable);
            var evicted := FirstFree(m.frameTable) == -1;
            var r := FaultPre(m);
            && (forall j | 0 <= j < MAX_PROC ::
                  r.processes[j].(pageTable := []) == m.processes[j].(pageTable := [])
                  && (forall p | 0 <= p < PAGES_PER_PROC && m.processes[j].pageTable[p] == -1 :: r.processes[j].pageTable[p] == -1))
            && (evicted ==> forall j | 0 <= j < MAX_PROC && Holds(m.processes[j], m.frameTable[x].pid) ::
                  r.processes[j].pageTable[m.frameTable[x].page] == -1)
            && (evicted ==> forall j, p | 0 <= j < MAX_PROC && 0 <= p < PAGES_PER_PROC ::
                  r.processes[j].pageTable[p]
                  == (if Holds(m.processes[j], m.frameTable[x].pid) && p == m.frameTable[x].page then -1
                      else m.processes[j].pageTable[p]))
  {
    var x := FaultFrame(m.frameTable);
    if FirstFree(m.frameTable) == -1 {
      EvictKeepsShape(m, x);
      EvictClearsExactly(m, x);
      var owner := FirstWithPid(m.processes, m.frameTable[x].pid);
      forall j | 0 <= j < MAX_PROC && Holds(m.processes[j], m.frameTable[x].pid) ensures owner == j {
        assert Holds(m.processes[owner], m.processes[j].pid);
      }
    }
  }

  /** Before the claim, every PCB keeps its pid and counters. */
  lemma FaultPreKeepsPcb(m: SharedMemory, i: int)
    requires Consistent(m) && 0 <= i < MAX_PROC
    ensures var r := FaultPre(m);
            && r.processes[i].pid == m.processes[i].pid
            && r.processes[i].pageFaults == m.processes[i].pageFaults
            && r.processes[i].totalMemoryAccesses == m.processes[i].totalMemoryAccesses
  {
  }

  lemma FreeFrameSetAside(m: SharedMemory, x: int)
    requires Consistent(m) && 0 <= x < |m.frameTable| && !m.frameTable[x].occupied
    ensures ConsistentExcept(m, x)
  {
  }

  /** Eviction clears exactly one page-table entry: the victim page's entry in the PCB
      holding the victim's pid. Every other entry of every PCB is unchanged. */
  lemma {:induction false} EvictClearsExactly(m: SharedMemory, v: int)
    requires Consistent(m) && 0 <= v < |m.frameTable| && m.frameTable[v].occupied
    ensures var r := Evict(m, v);
            var victim := m.frameTable[v];
            forall j, p | 0 <= j < MAX_PROC && 0 <= p < PAGES_PER_PROC ::
              r.processes[j].pageTable[p]
              == (if Holds(m.processes[j], victim.pid) && p == victim.page then -1 else m.processes[j].pageTable[p])
  {
    var r := Evict(m, v);
    var victim := m.frameTable[v];
    var owner := FirstWithPid(m.processes, victim.pid);
    forall j, p | 0 <= j < MAX_PROC && 0 <= p < PAGES_PER_PROC
      ensures r.processes[j].pageTable[p]
              == (if Holds(m.processes[j], victim.pid) && p == victim.page then -1 else m.processes[j].pageTable[p])
    {
      assert PcbOk(m.processes[j]);
      if Holds(m.processes[j], victim.pid) {
        assert Holds(m.processes[owner], m.processes[j].pid);
      } else if owner != -1 {
        assert j != owner;
      }
    }
  }

  /** Eviction keeps every PCB well formed and every other frame's pid known, and only ever
      turns a page-table entry into -1. */
  lemma {:induction false} EvictKeepsShape(m: SharedMemory, v: int)
    requires Consistent(m) && 0 <= v < |m.frameTable| && m.frameTable[v].occupied
    ensures var r := Evict(m, v);
      && r.frameTable == m.frameTable
      && (forall j | 0 <= j < MAX_PROC :: PcbOk(r.processes[j]))
      && (forall f | 0 <= f < TOTAL_FRAMES && f != v && m.frameTable[f].occupied :: Known(r.processes, m.frameTable[f].pid))
      && (forall j, p | 0 <= j < MAX_PROC && 0 <= p < PAGES_PER_PROC && m.processes[j].pageTable[p] == -1 ::
            r.processes[j].pageTable[p] == -1)
      && (forall j | 0 <= j < MAX_PROC :: r.processes[j].(pageTable := []) == m.processes[j].(pageTable := []))
  {
    var r := Evict(m, v);
    var ps, fs := m.processes, m.frameTable;
    forall j | 0 <= j < MAX_PROC ensures PcbOk(r.processes[j]) {
      assert PcbOk(ps[j]);
    }
    forall f | 0 <= f < TOTAL_FRAMES && f != v && fs[f].occupied ensures Known(r.processes, fs[f].pid) {
      assert Known(ps, fs[f].pid);
      var j :| 0 <= j < |ps| && Holds(ps[j], fs[f].pid);
      assert Holds(r.processes[j], fs[f].pid);
    }
  }

  /** After eviction no RUNNING entry names the victim frame, and the page tables and the
      other frames still agree. */
  lemma {:induction false} EvictKeepsAgreement(m: SharedMemory, v: int)
    requires Consistent(m) && 0 <= v < |m.frameTable| && m.frameTable[v].occupied
    ensures var r := Evict(m, v);
      && (forall i, p | 0 <= i < MAX_PROC && r.processes[i].state == Running && 0 <= p < PAGES_PER_PROC
            && r.processes[i].pageTable[p] != -1 ::
            r.processes[i].pageTable[p] != v && Maps(m.frameTable, r.processes[i].pageTable[p], r.processes[i].pid, p))
      && (forall i, f | 0 <= i < MAX_PROC && r.processes[i].state == Running && 0 <= f < TOTAL_FRAMES && f != v
            && m.frameTable[f].occupied && m.frameTable[f].pid == r.processes[i].pid ::
            r.processes[i].pageTable[m.frameTable[f].page] == f)
  {
    var r := Evict(m, v);
    var ps, fs := m.processes, m.frameTable;
    var victim := fs[v];
    var owner := FirstWithPid(ps, victim.pid);
    forall i, p | 0 <= i < MAX_PROC && r.processes[i].state == Running && 0 <= p < PAGES_PER_PROC
        && r.processes[i].pageTable[p] != -1
      ensures r.processes[i].pageTable[p] != v && Maps(fs, r.processes[i].pageTable[p], r.processes[i].pid, p)
    {
      assert ps[i].pageTable[p] == r.processes[i].pageTable[p];
      assert Maps(fs, ps[i].pageTable[p], ps[i].pid, p);
      if owner == i {
        assert p != victim.page;
      } else if ps[i].pageTable[p] == v {
        assert Holds(ps[i], victim.pid);
        assert false;
      }
    }
    forall i, f | 0 <= i < MAX_PROC && r.processes[i].state == Running && 0 <= f < TOTAL_FRAMES && f != v
        && fs[f].occupied && fs[f].pid == r.processes[i].pid
      ensures r.processes[i].pageTable[fs[f].page] == f
    {
      assert FrameOk(fs[f]);
      assert ps[i].pageTable[fs[f].page] == f;
      if owner == i {
        assert ps[i].pageTable[victim.page] == v;
      }
    }
  }

  lemma EvictSetsAside(m: SharedMemory, v: int)
    requires Consistent(m) && 0 <= v < |m.frameTable| && m.frameTable[v].occupied
    ensures ConsistentExcept(Evict(m, v), v)
    ensures forall j, p | 0 <= j < MAX_PROC && 0 <= p < PAGES_PER_PROC && m.processes[j].pageTable[p] == -1 ::
      Evict(m, v).processes[j].pageTable[p] == -1
    ensures forall j | 0 <= j < MAX_PROC ::
      Evict(m, v).processes[j].(pageTable := []) == m.processes[j].(pageTable := [])
  {
    EvictKeepsShape(m, v);
    EvictKeepsAgreement(m, v);
    var r := Evict(m, v);
    assert DistinctPids(r.processes) by {
      forall a, b | 0 <= a < MAX_PROC && 0 <= b < MAX_PROC && Holds(r.processes[a], r.processes[a].pid)
          && Holds(r.processes[b], r.processes[a].pid)
        ensures a == b
      {
        assert Holds(m.processes[a], m.processes[a].pid) && Holds(m.processes[b], m.processes[a].pid);
      }
    }
  }

  lemma {:induction false} ClaimRestores(m: SharedMemory, i: int, page: int, isWrite: bool, x: int)
    requires ConsistentExcept(m, x)
    requires 0 <= i < MAX_PROC && m.processes[i].state != Unused
    requires 0 <= page < PAGES_PER_PROC && m.processes[i].pageTable[page] == -1
    ensures Consistent(Claim(m, i, page, isWrite, x))
  {
    var r := Claim(m, i, page, isWrite, x);
    var ps, fs := m.processes, m.frameTable;
    assert PcbOk(ps[i]);
    forall f | 0 <= f < TOTAL_FRAMES && r.frameTable[f].occupied ensures Known(r.processes, r.frameTable[f].pid) {
      if f == x {
        assert Holds(r.processes[i], r.frameTable[f].pid);
      } else {
        assert Known(ps, fs[f].pid);
        var j :| 0 <= j < |ps| && Holds(ps[j], fs[f].pid);
        assert Holds(r.processes[j], fs[f].pid);
      }
    }
    forall a, b | 0 <= a < MAX_PROC && 0 <= b < MAX_PROC && Holds(r.processes[a], r.processes[a].pid)
        && Holds(r.processes[b], r.processes[a].pid)
      ensures a == b
    {
      assert Holds(ps[a], ps[a].pid) && Holds(ps[b], ps[a].pid);
    }
    forall j, p | 0 <= j < MAX_PROC && r.processes[j].state == Running && 0 <= p < PAGES_PER_PROC
        && r.processes[j].pageTable[p] != -1
      ensures Maps(r.frameTable, r.processes[j].pageTable[p], r.processes[j].pid, p)
    {
      if j == i && p == page {
      } else {
        assert ps[j].pageTable[p] == r.processes[j].pageTable[p];
      }
    }
    forall j, f | 0 <= j < MAX_PROC && r.processes[j].state == Running && 0 <= f < TOTAL_FRAMES
        && r.frameTable[f].occupied && r.frameTable[f].pid == r.processes[j].pid
      ensures 0 <= r.frameTable[f].page < PAGES_PER_PROC && r.processes[j].pageTable[r.frameTable[f].page] == f
    {
      if f == x {
        assert Holds(ps[i], ps[i].pid) && Holds(ps[j], ps[i].pid);
        assert j == i;
      } else {
        assert FrameOk(fs[f]);
        assert ps[j].pageTable[fs[f].page] == f;
        if j == i && fs[f].page == page {
          assert false;
        }
      }
    }
  }

  lemma PageFaultConsistent(m: SharedMemory, i: int, page: int, isWrite: bool)
    requires Consistent(m) && 0 <= i < MAX_PROC && m.processes[i].state != Unused
    requires 0 <= page < PAGES_PER_PROC && m.processes[i].pageTable[page] == -1
    ensures Consistent(PageFault(m, i, page, isWrite))
  {
    var x := FaultFrame(m.frameTable);
    if FirstFree(m.frameTable) != -1 {
      FreeFrameSetAside(m, x);
    } else {
      EvictSetsAside(m, x);
    }
    ClaimRestores(FaultPre(m), i, page, isWrite, x);
  }

  // ---------------------------------------------------------------- memory request

  /** Every PCB has had no more faults than accesses. */
  predicate FaultsWithinAccesses(ps: seq<PCB>) {
    forall i | 0 <= i < |ps| :: ps[i].pageFaults <= ps[i].totalMemoryAccesses
  }

  /** The invariant at request boundaries: consistency plus the per-process counter relation
      (inside a fault the fault is counted before the access is). */
  ghost predicate Accounted(m: SharedMemory) {
    Consistent(m) && FaultsWithinAccesses(m.processes)
  }

  /** The addresses a worker generates: 32 pages of PAGE_SIZE bytes. */
  predicate InAddressRange(address: int) {
    0 <= address < ADDRESS_LIMIT
  }

  /** One more access counted for process `i`. */
  function CountAccess(m: SharedMemory, i: int): SharedMemory
    requires 0 <= i < |m.processes|
  {
    m.(processes := m.processes[i := m.processes[i].(totalMemoryAccesses := m.processes[i].totalMemoryAccesses + 1)])
  }

  /** The frame and page a request resolves to before it is served. */
  function Serve(m: SharedMemory, i: int, page: int, isWrite: bool): SharedMemory
    requires Consistent(m) && 0 <= i < MAX_PROC && 0 <= page < PAGES_PER_PROC
  {
    assert PcbOk(m.processes[i]);
    var f := m.processes[i].pageTable[page];
    if f == -1 then PageFault(m, i, page, isWrite) else Hit(m, f, isWrite)
  }

  /** `handleMemoryRequest`: look the page up; on an absent entry handle a fault, otherwise
      a hit; either way count one access. */
  function MemoryRequest(m: SharedMemory, i: int, address: int, isWrite: bool): SharedMemory
    requires Consistent(m) && 0 <= i < MAX_PROC && InAddressRange(address)
  {
    CountAccess(Serve(m, i, address / PAGE_SIZE, isWrite), i)
  }

  lemma CountAccessConsistent(m: SharedMemory, i: int)
    requires Consistent(m) && 0 <= i < MAX_PROC && m.processes[i].state != Unused
    ensures Consistent(CountAccess(m, i))
  {
    var r := CountAccess(m, i);
    assert PcbOk(m.processes[i]);
    assert PcbOk(r.processes[i]);
    forall f | 0 <= f < TOTAL_FRAMES && r.frameTable[f].occupied ensures Known(r.processes, r.frameTable[f].pid) {
      assert Known(m.processes, m.frameTable[f].pid);
      var j :| 0 <= j < MAX_PROC && Holds(m.processes[j], m.frameTable[f].pid);
      assert Holds(r.processes[j], m.frameTable[f].pid);
    }
    assert DistinctPids(r.processes);
  }

  lemma ServeConsistent(m: SharedMemory, i: int, page: int, isWrite: bool)
    requires Consistent(m) && 0 <= i < MAX_PROC && m.processes[i].state != Unused && 0 <= page < PAGES_PER_PROC
    ensures Consistent(Serve(m, i, page, isWrite))
    ensures Serve(m, i, page, isWrite).processes[i].totalMemoryAccesses == m.processes[i].totalMemoryAccesses
    ensures Serve(m, i, page, isWrite).processes[i].pageFaults
            == m.processes[i].pageFaults + (if m.processes[i].pageTable[page] == -1 then 1 else 0)
    ensures forall j | 0 <= j < MAX_PROC && j != i ::
              Serve(m, i, page, isWrite).processes[j].pageFaults == m.processes[j].pageFaults
              && Serve(m, i, page, isWrite).processes[j].totalMemoryAccesses == m.processes[j].totalMemoryAccesses
  {
    assert PcbOk(m.processes[i]);
    var f := m.processes[i].pageTable[page];
    if f == -1 {
      PageFaultConsistent(m, i, page, isWrite);
    } else {
      HitConsistent(m, f, isWrite);
    }
  }

  lemma MemoryRequestAccounted(m: SharedMemory, i: int, address: int, isWrite: bool)
    requires Accounted(m) && 0 <= i < MAX_PROC && m.processes[i].state != Unused && InAddressRange(address)
    ensures Accounted(MemoryRequest(m, i, address, isWrite))
  {
    var r := Serve(m, i, address / PAGE_SIZE, isWrite);
    ServeConsistent(m, i, address / PAGE_SIZE, isWrite);
    CountAccessConsistent(r, i);
    var r' := CountAccess(r, i);
    forall j | 0 <= j < MAX_PROC ensures r'.processes[j].pageFaults <= r'.processes[j].totalMemoryAccesses {
      assert m.processes[j].pageFaults <= m.processes[j].totalMemoryAccesses;
    }
  }

  /** A request never changes which pid a PCB holds, its state or its start time: only page
      tables and counters move. */
  lemma MemoryRequestKeepsIdentity(m: SharedMemory, i: int, address: int, isWrite: bool)
    requires Consistent(m) && 0 <= i < MAX_PROC && InAddressRange(address)
    ensures var r := MemoryRequest(m, i, address, isWrite);
      && |r.processes| == MAX_PROC
      && forall j | 0 <= j < MAX_PROC ::
           r.processes[j].(pageTable := [], pageFaults := 0, totalMemoryAccesses := 0)
           == m.processes[j].(pageTable := [], pageFaults := 0, totalMemoryAccesses := 0)
  {
    var page := address / PAGE_SIZE;
    assert PcbOk(m.processes[i]);
    if m.processes[i].pageTable[page] == -1 {
      FaultPreEffects(m);
    }
  }

  /** A hit: the frame is stamped with the clock as it was before the access and becomes
      dirty on a write (a hit never cleans it); the clock moves by exactly 100 ns; the access
      is counted, the fault count is not; no page table and no frame's owner changes. */
  lemma HitPath(m: SharedMemory, i: int, address: int, isWrite: bool)
    requires Consistent(m) && 0 <= i < MAX_PROC && InAddressRange(address)
    requires m.processes[i].pageTable[address / PAGE_SIZE] != -1
    ensures var f := m.processes[i].pageTable[address / PAGE_SIZE];
            var r := MemoryRequest(m, i, address, isWrite);
            && r.frameTable[f].lastRefSec == m.clock.seconds
            && r.frameTable[f].lastRefNano == m.clock.nanoseconds
            && r.frameTable[f].dirtyBit == (m.frameTable[f].dirtyBit || isWrite)
            && r.frameTable[f].(lastRefSec := 0, lastRefNano := 0, dirtyBit := false)
               == m.frameTable[f].(lastRefSec := 0, lastRefNano := 0, dirtyBit := false)
            && (forall g | 0 <= g < TOTAL_FRAMES && g != f :: r.frameTable[g] == m.frameTable[g])
            && (m.clock.seconds < UINT_MAX ==> TotalNs(r.clock) == TotalNs(m.clock) + HIT_NS)
            && r.processes[i].totalMemoryAccesses == m.processes[i].totalMemoryAccesses + 1
            && r.processes[i].pageFaults == m.processes[i].pageFaults
            && (forall j | 0 <= j < MAX_PROC :: r.processes[j].pageTable == m.processes[j].pageTable)
            && r.activeProcesses == m.activeProcesses
  {
    assert PcbOk(m.processes[i]);
    assert NoOverflow(m.clock, HIT_NS) <== m.clock.seconds < UINT_MAX;
  }

  /** What claiming frame `x` does, stated for any pre-state. */
  lemma ClaimEffects(m: SharedMemory, i: int, page: int, isWrite: bool, x: int)
    requires 0 <= i < |m.processes| && 0 <= page < |m.processes[i].pageTable| && 0 <= x < |m.frameTable|
    ensures var r := Claim(m, i, page, isWrite, x);
            && r.frameTable[x] == FrameTableEntry(true, m.processes[i].pid, page, isWrite, m.clock.seconds, m.clock.nanoseconds)
            && (forall g | 0 <= g < |m.frameTable| && g != x :: r.frameTable[g] == m.frameTable[g])
            && r.processes[i].pageTable == m.processes[i].pageTable[page := x]
            && r.processes[i].pageFaults == m.processes[i].pageFaults + 1
            && (forall j | 0 <= j < |m.processes| && j != i :: r.processes[j] == m.processes[j])
            && r.clock == Advance(m.clock, FAULT_NS)
            && r.activeProcesses == m.activeProcesses
  {
  }

  /** A request on an absent page is a fault followed by the access count. */
  lemma FaultUnfolds(m: SharedMemory, i: int, address: int, isWrite: bool)
    requires Consistent(m) && 0 <= i < MAX_PROC && InAddressRange(address)
    requires m.processes[i].pageTable[address / PAGE_SIZE] == -1
    ensures var pre := FaultPre(m);
            && 0 <= address / PAGE_SIZE < |pre.processes[i].pageTable|
            && MemoryRequest(m, i, address, isWrite)
               == CountAccess(Claim(pre, i, address / PAGE_SIZE, isWrite, FaultFrame(m.frameTable)), i)
  {
  }

  /** The cost of a fault: the clock moves by 14 ms, plus 10 ms only when an evicted victim
      was dirty (barring a wrap of the seconds). */
  lemma {:induction false} FaultClock(m: SharedMemory, i: int, address: int, isWrite: bool)
    requires Consistent(m) && 0 <= i < MAX_PROC && InAddressRange(address)
    requires m.processes[i].pageTable[address / PAGE_SIZE] == -1
    requires m.clock.seconds + 2 <= UINT_MAX
    ensures var x := FaultFrame(m.frameTable);
            var evicted := FirstFree(m.frameTable) == -1;
            var penalty := if evicted && m.frameTable[x].dirtyBit then WRITEBACK_NS else 0;
            TotalNs(MemoryRequest(m, i, address, isWrite).clock) == TotalNs(m.clock) + FAULT_NS + penalty
  {
    var page := address / PAGE_SIZE;
    var x := FaultFrame(m.frameTable);
    var evicted := FirstFree(m.frameTable) == -1;
    var penalty: uint32 := if evicted && m.frameTable[x].dirtyBit then WRITEBACK_NS else 0;
    var pre := FaultPre(m);
    FaultPreClock(m);
    assert PcbOk(m.processes[i]);
    assert MemoryRequest(m, i, address, isWrite).clock == Claim(pre, i, page, isWrite, x).clock;
    assert pre.clock == Advance(m.clock, penalty) by {
      if !(evicted && m.frameTable[x].dirtyBit) { assert Advance(m.clock, 0) == m.clock; }
    }
    AdvanceTwice(m.clock, penalty, FAULT_NS);
  }

  /** An eviction takes the victim page away from the PCB holding the victim's pid: its entry
      for that page is absent afterwards, unless the requester re-takes that very page. */
  lemma {:induction false} FaultUnmapsVictim(m: SharedMemory, i: int, address: int, isWrite: bool)
    requires Consistent(m) && 0 <= i < MAX_PROC && InAddressRange(address)
    requires m.processes[i].pageTable[address / PAGE_SIZE] == -1
    requires FirstFree(m.frameTable) == -1
    ensures var v := m.frameTable[FaultFrame(m.frameTable)];
            var r := MemoryRequest(m, i, address, isWrite);
            forall j | 0 <= j < MAX_PROC && Holds(m.processes[j], v.pid) ::
              r.processes[j].pageTable[v.page] == -1 || (j == i && v.page == address / PAGE_SIZE)
  {
    var page := address / PAGE_SIZE;
    var x := FaultFrame(m.frameTable);
    var pre := FaultPre(m);
    FaultPreEffects(m);
    assert PcbOk(m.processes[i]);
    var c := Claim(pre, i, page, isWrite, x);
    ClaimEffects(pre, i, page, isWrite, x);
    var r := CountAccess(c, i);
    assert MemoryRequest(m, i, address, isWrite) == r;
    var q := m.frameTable[x].page;
    forall j | 0 <= j < MAX_PROC && Holds(m.processes[j], m.frameTable[x].pid)
      ensures r.processes[j].pageTable[q] == -1 || (j == i && q == page)
    {
      assert pre.processes[j].pageTable[q] == -1;
      if j != i {
        assert r.processes[j] == c.processes[j] == pre.processes[j];
      }
    }
  }

  /** After a fault every page-table entry is known: the requester's page points at the
      frame used, the victim page's entry in the PCB holding the victim's pid is -1 when
      a frame was evicted, and every other entry is unchanged. */
  lemma {:induction false} FaultPageTables(m: SharedMemory, i: int, address: int, isWrite: bool)
    requires Consistent(m) && 0 <= i < MAX_PROC && InAddressRange(address)
    requires m.processes[i].pageTable[address / PAGE_SIZE] == -1
    ensures var x := FaultFrame(m.frameTable);
            var evicted := FirstFree(m.frameTable) == -1;
            var v := m.frameTable[x];
            var r := MemoryRequest(m, i, address, isWrite);
            forall j, p | 0 <= j < MAX_PROC && 0 <= p < PAGES_PER_PROC ::
              r.processes[j].pageTable[p]
              == (if j == i && p == address / PAGE_SIZE then x
                  else if evicted && Holds(m.processes[j], v.pid) && p == v.page then -1
                  else m.processes[j].pageTable[p])
  {
    var page := address / PAGE_SIZE;
    var x := FaultFrame(m.frameTable);
    var pre := FaultPre(m);
    FaultPreEffects(m);
    FaultPreClock(m);
    FaultUnfolds(m, i, address, isWrite);
    var c := Claim(pre, i, page, isWrite, x);
    ClaimEffects(pre, i, page, isWrite, x);
    var r := CountAccess(c, i);
    forall j, p | 0 <= j < MAX_PROC && 0 <= p < PAGES_PER_PROC
      ensures r.processes[j].pageTable[p]
              == (if j == i && p == page then x
                  else if FirstFree(m.frameTable) == -1 && Holds(m.processes[j], m.frameTable[x].pid) && p == m.frameTable[x].page then -1
                  else m.processes[j].pageTable[p])
    {
      if j != i {
        assert r.processes[j] == c.processes[j] == pre.processes[j];
      } else {
        assert r.processes[i].pageTable == pre.processes[i].pageTable[page := x];
      }
    }
  }

  /** A fault on page `page` of process `i` uses the lowest free frame if any, otherwise
      the LRU frame; that frame ends up holding the requester's page with the dirty bit of
      this access and the time after any writeback, and no other frame changes. */
  lemma {:induction false} FaultFrameContents(m: SharedMemory, i: int, address: int, isWrite: bool)
    requires Consistent(m) && 0 <= i < MAX_PROC && InAddressRange(address)
    requires m.processes[i].pageTable[address / PAGE_SIZE] == -1
    ensures var x := FaultFrame(m.frameTable);
            var evicted := FirstFree(m.frameTable) == -1;
            var penalty := if evicted && m.frameTable[x].dirtyBit then WRITEBACK_NS else 0;
            var stamp := Advance(m.clock, penalty);
            var r := MemoryRequest(m, i, address, isWrite);
            && r.frameTable[x] == FrameTableEntry(true, m.processes[i].pid, address / PAGE_SIZE, isWrite, stamp.seconds, stamp.nanoseconds)
            && (forall g | 0 <= g < TOTAL_FRAMES && g != x :: r.frameTable[g] == m.frameTable[g])
  {
    var page := address / PAGE_SIZE;
    var x := FaultFrame(m.frameTable);
    var pre := FaultPre(m);
    FaultPreClock(m);
    FaultPreKeepsPcb(m, i);
    FaultUnfolds(m, i, address, isWrite);
    var c := Claim(pre, i, page, isWrite, x);
    assert c.frameTable == m.frameTable[x := FrameTableEntry(true, m.processes[i].pid, page, isWrite, pre.clock.seconds, pre.clock.nanoseconds)];
    var evicted := FirstFree(m.frameTable) == -1;
    if !(evicted && m.frameTable[x].dirtyBit) {
      assert Advance(m.clock, 0) == m.clock;
    }
  }

  /** After a fault the requester's entry names the frame used, one fault and one access are
      counted, and the active count is unchanged. */
  lemma {:induction false} FaultCounters(m: SharedMemory, i: int, address: int, isWrite: bool)
    requires Consistent(m) && 0 <= i < MAX_PROC && InAddressRange(address)
    requires m.processes[i].pageTable[address / PAGE_SIZE] == -1
    ensures var r := MemoryRequest(m, i, address, isWrite);
            && r.processes[i].pageTable[address / PAGE_SIZE] == FaultFrame(m.frameTable)
            && r.processes[i].pageFaults == m.processes[i].pageFaults + 1
            && r.processes[i].totalMemoryAccesses == m.processes[i].totalMemoryAccesses + 1
            && r.activeProcesses == m.activeProcesses
  {
    FaultPreClock(m);
    FaultPreKeepsPcb(m, i);
    FaultUnfolds(m, i, address, isWrite);
    ClaimEffects(FaultPre(m), i, address / PAGE_SIZE, isWrite, FaultFrame(m.frameTable));
  }

  // ---------------------------------------------------------------- termination

  /** A frame given back: unoccupied, no owner, no page, clean; its timestamp stays. */
  function Release(e: FrameTableEntry): FrameTableEntry {
    e.(occupied := false, pid := -1, page := -1, dirtyBit := false)
  }

  /** `terminateProcess`: free the occupied frames carrying the process's pid, mark the PCB
      TERMINATED and decrement the active-process count. */
  function TerminateProcess(m: SharedMemory, i: int): SharedMemory
    requires 0 <= i < |m.processes|
  {
    var pid := m.processes[i].pid;
    var fs := m.frameTable;
    m.(frameTable := seq(|fs|, f requires 0 <= f < |fs| =>
                           if fs[f].occupied && fs[f].pid == pid then Release(fs[f]) else fs[f]),
       processes := m.processes[i := m.processes[i].(state := Terminated)],
       activeProcesses := m.activeProcesses - 1)
  }

  /** Termination frees exactly the occupied frames of this pid, leaves every other frame
      and every page table as it was, and decrements the active count by one. */
  lemma TerminateReleasesExactly(m: SharedMemory, i: int)
    requires WellSized(m) && 0 <= i < MAX_PROC
    ensures var r := TerminateProcess(m, i);
            && (forall f | 0 <= f < TOTAL_FRAMES ::
                  if m.frameTable[f].occupied && m.frameTable[f].pid == m.processes[i].pid
                  then !r.frameTable[f].occupied && r.frameTable[f].pid == -1 && r.frameTable[f].page == -1
                       && !r.frameTable[f].dirtyBit && r.frameTable[f].lastRefSec == m.frameTable[f].lastRefSec
                       && r.frameTable[f].lastRefNano == m.frameTable[f].lastRefNano
                  else r.frameTable[f] == m.frameTable[f])
            && (forall f | 0 <= f < TOTAL_FRAMES :: r.frameTable[f].occupied ==> r.frameTable[f].pid != m.processes[i].pid)
            && r.processes[i] == m.processes[i].(state := Terminated)
            && (forall j | 0 <= j < MAX_PROC && j != i :: r.processes[j] == m.processes[j])
            && (forall j | 0 <= j < MAX_PROC :: r.processes[j].pageTable == m.processes[j].pageTable)
            && r.activeProcesses == m.activeProcesses - 1
            && r.clock == m.clock
  {
  }

  lemma {:induction false} TerminateAccounted(m: SharedMemory, i: int)
    requires Accounted(m) && 0 <= i < MAX_PROC && m.processes[i].state != Unused
    ensures Accounted(TerminateProcess(m, i))
  {
    var r := TerminateProcess(m, i);
    var ps, fs := m.processes, m.frameTable;
    assert PcbOk(ps[i]);
    forall j | 0 <= j < MAX_PROC ensures PcbOk(r.processes[j]) {
      assert PcbOk(ps[j]);
    }
    forall f | 0 <= f < TOTAL_FRAMES ensures FrameOk(r.frameTable[f]) {
      assert FrameOk(fs[f]);
    }
    forall f | 0 <= f < TOTAL_FRAMES && r.frameTable[f].occupied ensures Known(r.processes, r.frameTable[f].pid) {
      assert r.frameTable[f] == fs[f];
      var j :| 0 <= j < MAX_PROC && Holds(ps[j], fs[f].pid);
      assert Holds(r.processes[j], fs[f].pid);
    }
    forall a, b | 0 <= a < MAX_PROC && 0 <= b < MAX_PROC && Holds(r.processes[a], r.processes[a].pid)
        && Holds(r.processes[b], r.processes[a].pid)
      ensures a == b
    {
      assert Holds(ps[a], ps[a].pid) && Holds(ps[b], ps[a].pid);
    }
    forall j, p | 0 <= j < MAX_PROC && r.processes[j].state == Running && 0 <= p < PAGES_PER_PROC
        && r.processes[j].pageTable[p] != -1
      ensures Maps(r.frameTable, r.processes[j].pageTable[p], r.processes[j].pid, p)
    {
      assert j != i;
      var g := ps[j].pageTable[p];
      assert Maps(fs, g, ps[j].pid, p);
      assert Holds(ps[j], ps[j].pid) && !Holds(ps[i], ps[j].pid);
      assert r.frameTable[g] == fs[g];
    }
    forall j, f | 0 <= j < MAX_PROC && r.processes[j].state == Running && 0 <= f < TOTAL_FRAMES
        && r.frameTable[f].occupied && r.frameTable[f].pid == r.processes[j].pid
      ensures 0 <= r.frameTable[f].page < PAGES_PER_PROC && r.processes[j].pageTable[r.frameTable[f].page] == f
    {
      assert r.frameTable[f] == fs[f];
      assert FrameOk(fs[f]);
    }
  }

  // ---------------------------------------------------------------- statistics

  /** Accesses summed over the PCBs that are not UNUSED (the final statistics). */
  function TotalAccesses(ps: seq<PCB>): int {
    if ps == [] then 0
    else
      var last := ps[|ps| - 1];
      TotalAccesses(ps[..|ps| - 1]) + (if last.state != Unused then last.totalMemoryAccesses else 0)
  }

  /** Faults summed over the PCBs that are not UNUSED. */
  function TotalFaults(ps: seq<PCB>): int {
    if ps == [] then 0
    else
      var last := ps[|ps| - 1];
      TotalFaults(ps[..|ps| - 1]) + (if last.state != Unused then last.pageFaults else 0)
  }

  /** Hence the reported faults-per-access ratio lies in [0, 1]. */
  lemma {:induction false} TotalFaultsWithinAccesses(ps: seq<PCB>)
    requires FaultsWithinAccesses(ps)
    requires forall i | 0 <= i < |ps| :: 0 <= ps[i].pageFaults
    ensures 0 <= TotalFaults(ps) <= TotalAccesses(ps)
  {
    if ps != [] {
      TotalFaultsWithinAccesses(ps[..|ps| - 1]);
    }
  }
}
