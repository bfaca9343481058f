/** The simulated clock's only mutation path, `incrementClock` (oss.c). */
module Clock {
  import opened OssH

  const NS_PER_SEC: int := 1_000_000_000
  /** 2^32: unsigned arithmetic on the clock fields wraps modulo this. */
  const WORD: int := 0x1_0000_0000

  /** The instant a clock value denotes, in nanoseconds. */
  function TotalNs(c: SimClock): nat {
    c.seconds * NS_PER_SEC + c.nanoseconds
  }

  predicate Normalised(c: SimClock) {
    c.nanoseconds < NS_PER_SEC
  }

  /** Neither the nanosecond addition nor the carry into seconds wraps. */
  predicate NoOverflow(c: SimClock, ns: uint32) {
    c.nanoseconds + ns < WORD && c.seconds + (c.nanoseconds + ns) / NS_PER_SEC < WORD
  }

  /**
    The clock after `incrementClock(c, ns)`: the nanoseconds are added in 32-bit
    unsigned arithmetic, then any whole seconds are carried. The result is always
    normalised; without wrap-around it is exactly `ns` later.
   */
  function Advance(c: SimClock, ns: uint32): (r: SimClock)
    ensures Normalised(r)
    ensures NoOverflow(c, ns) ==> TotalNs(r) == TotalNs(c) + ns
    ensures NoOverflow(c, ns) && Normalised(c) && ns < NS_PER_SEC ==> r.seconds <= c.seconds + 1
  {
    var n := (c.nanoseconds + ns) % WORD;
    if n >= NS_PER_SEC then
      SimClock((c.seconds + n / NS_PER_SEC) % WORD, n % NS_PER_SEC)
    else
      SimClock(c.seconds, n)
  }

  /** On a normalised clock, an advance below one second cannot wrap while the seconds
      stay below UINT_MAX, and two such advances add up. */
  lemma {:induction false} AdvanceTwice(c: SimClock, a: uint32, b: uint32)
    requires Normalised(c) && a < NS_PER_SEC && b < NS_PER_SEC
    requires c.seconds + 2 <= UINT_MAX
    ensures TotalNs(Advance(Advance(c, a), b)) == TotalNs(c) + a + b
  {
    var c1 := Advance(c, a);
    assert NoOverflow(c, a);
    assert c1.seconds <= c.seconds + 1;
    assert NoOverflow(c1, b);
  }
}
