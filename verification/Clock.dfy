/** Elapsed time on a free-running 32-bit millisecond counter. */
module Clock {
  import opened Bytes

  const WRAP := 0x1_0000_0000

  /** What the counter shows at real time `t`. */
  function Tick(t: nat): u32 {
    t % WRAP
  }

  /** Unsigned 32-bit subtraction, then comparison. */
  predicate Expired(now: u32, start: u32, duration: u32) {
    (now as int - start as int) % WRAP >= duration
  }

  lemma {:induction false} TickDifference(t: nat, t0: nat)
    requires t0 <= t
    ensures (Tick(t) as int - Tick(t0) as int) % WRAP == (t - t0) % WRAP
  {
    var q, q0 := t / WRAP, t0 / WRAP;
    var d: int := (t - t0) - (Tick(t) as int - Tick(t0) as int);
    assert d == WRAP * (q - q0);
  }

  /** On real time, a deadline that is `duration` after `t0` is reported exactly when the time
      since `t0`, reduced to 32 bits, has reached it. */
  lemma {:induction false} ExpiredModulo(t: nat, t0: nat, duration: u32)
    requires t0 <= t
    ensures Expired(Tick(t), Tick(t0), duration) <==> (t - t0) % WRAP >= duration
  {
    TickDifference(t, t0);
  }

  /** Read less than one wrap after `t0`, the counter tells the truth about the deadline. */
  lemma {:induction false} ExpiredExact(t: nat, t0: nat, duration: u32)
    requires t0 <= t < t0 + WRAP
    ensures Expired(Tick(t), Tick(t0), duration) <==> t >= t0 + duration
  {
    ExpiredModulo(t, t0, duration);
  }

  /** Read later, it may not: one wrap after the start no deadline seems to have passed. */
  lemma {:induction false} ExpiredForgets(t0: nat, duration: u32)
    requires 0 < duration
    ensures !Expired(Tick(t0 + WRAP), Tick(t0), duration)
  {
    ExpiredModulo(t0 + WRAP, t0, duration);
  }
}
