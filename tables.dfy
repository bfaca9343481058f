/**
  What the kernel's linear scans compute, as functions over the tables' contents:
  the first unused PCB, the first free frame, the PCB of a given pid, and the
  least-recently-used occupied frame. Each returns -1 when nothing matches.
 */
module Tables {
  import opened OssH

  /** `k` is the lowest index of an UNUSED PCB, or -1 when there is none. */
  predicate IsFirstUnused(ps: seq<PCB>, k: int) {
    if k == -1 then forall i | 0 <= i < |ps| :: ps[i].state != Unused
    else 0 <= k < |ps| && ps[k].state == Unused && forall i | 0 <= i < k :: ps[i].state != Unused
  }

  function FirstUnused(ps: seq<PCB>): (k: int)
    ensures IsFirstUnused(ps, k)
  {
    if ps == [] then -1
    else
      var k := FirstUnused(ps[..|ps| - 1]);
      if k != -1 then k
      else if ps[|ps| - 1].state == Unused then |ps| - 1
      else -1
  }

  lemma FirstUnusedUnique(ps: seq<PCB>, a: int, b: int)
    requires IsFirstUnused(ps, a) && IsFirstUnused(ps, b)
    ensures a == b
  {
  }

  /** `k` is the lowest index of an unoccupied frame, or -1 when every frame is occupied. */
  predicate IsFirstFree(fs: seq<FrameTableEntry>, k: int) {
    if k == -1 then forall i | 0 <= i < |fs| :: fs[i].occupied
    else 0 <= k < |fs| && !fs[k].occupied && forall i | 0 <= i < k :: fs[i].occupied
  }

  function FirstFree(fs: seq<FrameTableEntry>): (k: int)
    ensures IsFirstFree(fs, k)
  {
    if fs == [] then -1
    else
      var k := FirstFree(fs[..|fs| - 1]);
      if k != -1 then k
      else if !fs[|fs| - 1].occupied then |fs| - 1
      else -1
  }

  lemma FirstFreeUnique(fs: seq<FrameTableEntry>, a: int, b: int)
    requires IsFirstFree(fs, a) && IsFirstFree(fs, b)
    ensures a == b
  {
  }

  /** A PCB "holds" a pid when it is not UNUSED and carries that pid. */
  predicate Holds(p: PCB, pid: int) {
    p.state != Unused && p.pid == pid
  }

  /** `k` is the lowest index of a PCB holding `pid`, or -1 when none does. */
  predicate IsFirstWithPid(ps: seq<PCB>, pid: int, k: int) {
    if k == -1 then forall i | 0 <= i < |ps| :: !Holds(ps[i], pid)
    else 0 <= k < |ps| && Holds(ps[k], pid) && forall i | 0 <= i < k :: !Holds(ps[i], pid)
  }

  function FirstWithPid(ps: seq<PCB>, pid: int): (k: int)
    ensures IsFirstWithPid(ps, pid, k)
  {
    if ps == [] then -1
    else
      var k := FirstWithPid(ps[..|ps| - 1], pid);
      if k != -1 then k
      else if Holds(ps[|ps| - 1], pid) then |ps| - 1
      else -1
  }

  lemma FirstWithPidUnique(ps: seq<PCB>, pid: int, a: int, b: int)
    requires IsFirstWithPid(ps, pid, a) && IsFirstWithPid(ps, pid, b)
    ensures a == b
  {
  }

  /** Frame `a` was last referenced strictly before frame `b`
      (lexicographic on seconds, then nanoseconds). */
  predicate RefBefore(a: FrameTableEntry, b: FrameTableEntry) {
    a.lastRefSec < b.lastRefSec || (a.lastRefSec == b.lastRefSec && a.lastRefNano < b.lastRefNano)
  }

  /** `k` is the least-recently-used occupied frame, the lowest such index on ties;
      -1 exactly when no frame is occupied. */
  predicate IsLru(fs: seq<FrameTableEntry>, k: int) {
    if k == -1 then forall i | 0 <= i < |fs| :: !fs[i].occupied
    else
      && 0 <= k < |fs| && fs[k].occupied
      && (forall i | 0 <= i < |fs| && fs[i].occupied :: !RefBefore(fs[i], fs[k]))
      && (forall i | 0 <= i < k && fs[i].occupied :: RefBefore(fs[k], fs[i]))
  }

  /** The scan of the frame table from the lowest index: a later frame replaces the
      current choice only when it was referenced strictly earlier. */
  function Lru(fs: seq<FrameTableEntry>): (k: int)
    ensures IsLru(fs, k)
  {
    if fs == [] then -1
    else
      var b := Lru(fs[..|fs| - 1]);
      var last := |fs| - 1;
      if fs[last].occupied && (b == -1 || RefBefore(fs[last], fs[b])) then last else b
  }

  lemma LruUnique(fs: seq<FrameTableEntry>, a: int, b: int)
    requires IsLru(fs, a) && IsLru(fs, b)
    ensures a == b
  {
  }

  /** No occupied frame carries the timestamp (UINT_MAX, UINT_MAX) with which the
      source's scan seeds its running minimum. */
  predicate NoSentinelStamp(fs: seq<FrameTableEntry>) {
    forall i | 0 <= i < |fs| && fs[i].occupied :: !(fs[i].lastRefSec == UINT_MAX && fs[i].lastRefNano == UINT_MAX)
  }
}
