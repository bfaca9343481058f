/**
  Constants and record layouts of the kernel's header: the shared clock, the
  frame-table entries, the process control blocks, the request messages and the
  shared-memory segment that aggregates them.
 */
module OssH {
  import opened Wrappers

  const MAX_PROC: int := 18
  const TOTAL_PROC: int := 100
  const MEMORY_SIZE: int := 131072
  const PAGE_SIZE: int := 1024
  const TOTAL_FRAMES: int := 128
  const PAGES_PER_PROC: int := 32

  /** Message types. */
  const REQUEST: int := 1
  const RESPONSE: int := 2
  const TERMINATE: int := 3

  /** The largest C `unsigned int`; clock fields are 32-bit unsigned. */
  const UINT_MAX: int := 0xFFFF_FFFF
  type uint32 = x: int | 0 <= x <= UINT_MAX

  /** Process states; `Code` is the integer the header assigns to each. */
  datatype ProcState = Unused | Running | Blocked | Terminated {
    function Code(): int {
      match this
      case Unused => 0
      case Running => 1
      case Blocked => 2
      case Terminated => 3
    }
  }

  /** Reads a state code back; codes outside 0..3 name no state. */
  function StateOfCode(code: int): (r: Option<ProcState>)
    ensures r.Some? <==> 0 <= code <= 3
  {
    if code == 0 then Some(Unused)
    else if code == 1 then Some(Running)
    else if code == 2 then Some(Blocked)
    else if code == 3 then Some(Terminated)
    else None
  }

  /** Every state's code reads back as that state, so the four codes are distinct. */
  lemma StateCodeRoundTrip(s: ProcState)
    ensures StateOfCode(s.Code()) == Some(s)
    ensures 0 <= s.Code() <= 3
  {
  }

  /** The simulated clock: seconds and nanoseconds, both `unsigned int`. */
  datatype SimClock = SimClock(seconds: uint32, nanoseconds: uint32)

  /** One physical frame; `pid` and `page` are -1 when the frame holds nothing. */
  datatype FrameTableEntry = FrameTableEntry(
    occupied: bool,
    pid: int,
    page: int,
    dirtyBit: bool,
    lastRefSec: uint32,
    lastRefNano: uint32)

  /** A process control block; a page-table entry is a frame index or -1. */
  datatype PCB = PCB(
    pid: int,
    state: ProcState,
    pageTable: seq<int>,
    totalMemoryAccesses: int,
    pageFaults: int,
    startSec: uint32,
    startNano: uint32)

  /** A request or termination notice sent by a worker. */
  datatype Message = Message(mtype: int, pid: int, address: int, isWrite: bool, terminated: bool)

  /** The shared-memory segment: one clock, the PCBs, the frames, the active count. */
  datatype SharedMemory = SharedMemory(
    clock: SimClock,
    processes: seq<PCB>,
    frameTable: seq<FrameTableEntry>,
    activeProcesses: int)

  /** The segment holds exactly MAX_PROC PCBs and TOTAL_FRAMES frame entries. */
  predicate WellSized(m: SharedMemory) {
    |m.processes| == MAX_PROC && |m.frameTable| == TOTAL_FRAMES
  }

  /** The highest address a worker may request (exclusive): 32 pages of 1024 bytes. */
  const ADDRESS_LIMIT: int := PAGES_PER_PROC * PAGE_SIZE

  /** The header's sizes fit together: physical memory is the frames times the page size,
      every in-range address names one of a process's 32 pages, and message codes differ. */
  lemma HeaderConstants(address: int)
    requires 0 <= address < ADDRESS_LIMIT
    ensures MEMORY_SIZE == TOTAL_FRAMES * PAGE_SIZE
    ensures ADDRESS_LIMIT == 32768
    ensures 0 <= address / PAGE_SIZE < PAGES_PER_PROC
    ensures REQUEST != RESPONSE && RESPONSE != TERMINATE && REQUEST != TERMINATE
  {
  }
}
