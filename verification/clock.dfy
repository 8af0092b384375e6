/** The 32-bit millisecond counter that every timer of the firmware reads. */
module Clock {
  import opened Common

  const WRAP: int := 0x1_0000_0000

  /** `millis()` at true time `t`, counted in unbounded milliseconds since boot. */
  function Millis(t: nat): u32 {
    t % WRAP
  }

  /** The unsigned subtraction `now - start`. */
  function Since(now: u32, start: u32): u32 {
    (now - start) % WRAP
  }

  /** The counter sees the true difference of any two times, wrapped. So a lower-bound test never
      overstates the true elapsed time, rollover or not, and is exact within one wrap. */
  lemma SinceBound(t0: nat, t: nat)
    ensures Since(Millis(t), Millis(t0)) == (t - t0) % WRAP
    ensures t0 <= t ==> Since(Millis(t), Millis(t0)) <= t - t0
    ensures t0 <= t < t0 + WRAP ==> Since(Millis(t), Millis(t0)) == t - t0
  {
  }
}
