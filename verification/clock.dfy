/**
 * The millisecond clock of the scheduler: a free-running 32-bit unsigned
 * counter (`unsigned long` on the RP2040, where `long` is 32 bits wide).
 * Additions and subtractions on it wrap modulo 2^32, and the deadline test
 * reinterprets a difference as a signed 32-bit value.
 */
module Clock {

  const MODULUS: int := 0x1_0000_0000
  const HALF: int := 0x8000_0000

  newtype u32 = x: int | 0 <= x < MODULUS

  /** `a + b` on `unsigned long`: the mathematical sum, less 2^32 when it overflows. */
  function Add(a: u32, b: u32): (r: u32)
    ensures a as int + b as int < MODULUS ==> r as int == a as int + b as int
    ensures a as int + b as int >= MODULUS ==> r as int == a as int + b as int - MODULUS
  {
    ((a as int + b as int) % MODULUS) as u32
  }

  /** `a - b` on `unsigned long`: the mathematical difference, plus 2^32 when it underflows. */
  function Sub(a: u32, b: u32): (r: u32)
    ensures a >= b ==> r as int == a as int - b as int
    ensures a < b ==> r as int == a as int - b as int + MODULUS
  {
    ((a as int - b as int) % MODULUS) as u32
  }

  /** The `(long)` cast of a 32-bit unsigned value: two's-complement reinterpretation. */
  function ToSigned(x: u32): (r: int)
    ensures -HALF <= r < HALF
    ensures r == x as int || r == x as int - MODULUS
  {
    if x as int < HALF then x as int else x as int - MODULUS
  }

  /** The deadline test of the scheduler, `(long)(now - deadline) >= 0`. */
  predicate DeadlineReached(now: u32, deadline: u32)
  {
    ToSigned(Sub(now, deadline)) >= 0
  }

  /**
   * The deadline test is wraparound-safe: for a deadline set `p` milliseconds
   * after time `t` (with `p` below 2^31), the test passes exactly when the
   * time elapsed since `t`, measured modulo 2^32, lies in the window
   * `[p, p + 2^31)`, wherever `t` sits in the counter's range.
   */
  lemma DeadlineWindow(t: u32, p: u32, now: u32)
    requires (p as int) < HALF
    ensures DeadlineReached(now, Add(t, p)) <==> p <= Sub(now, t) && (Sub(now, t) as int) < p as int + HALF
  {
  }
}
