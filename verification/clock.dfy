/**
 * The driver's millisecond clock: `millis()` reads the wall clock, turns it
 * into 64-bit milliseconds, subtracts the epoch taken at module load and
 * truncates the difference to 32 bits. The wall clock is an input here.
 */
module Clock {
  import opened GpioTypes

  /** The exact wall-clock time in milliseconds, without any wrap-around. */
  function WallMillis(sec: nat, usec: nat): nat
  {
    sec * 1000 + usec / 1000
  }

  /** `(uint64_t)tv_sec * 1000 + (uint64_t)(tv_usec / 1000)`, with both the
      product and the sum wrapping at 2^64. Also the epoch computed at load. */
  function TimeNow64(sec: nat, usec: nat): (t: u64)
    ensures t as int == WallMillis(sec, usec) % U64_MODULUS
  {
    ModSumLemma(sec * 1000, usec / 1000, U64_MODULUS);
    (((sec * 1000) % U64_MODULUS + usec / 1000) % U64_MODULUS) as u64
  }

  /** `millis()`: `(uint32_t)(timeNow - epochMilli)` with the subtraction in
      64 bits. The 64-bit wrap of the subtraction is lost in the truncation:
      the result is the exact difference of the two 64-bit values modulo 2^32. */
  function Millis(sec: nat, usec: nat, epoch: u64): (m: u32)
    ensures m as int == (TimeNow64(sec, usec) as int - epoch as int) % U32_MODULUS
  {
    ModModLemma(TimeNow64(sec, usec) as int - epoch as int);
    (((TimeNow64(sec, usec) as int - epoch as int) % U64_MODULUS) % U32_MODULUS) as u32
  }

  /** Unsigned 32-bit difference `a - b`. */
  function Sub32(a: u32, b: u32): (d: u32)
    ensures d as int == (a as int - b as int) % U32_MODULUS
    ensures b <= a ==> d == a - b
    ensures a < b ==> d as int == a as int - b as int + U32_MODULUS
  {
    if b <= a then a - b else (a as int - b as int + U32_MODULUS) as u32
  }

  lemma ModSumLemma(a: int, b: int, m: int)
    requires m > 0
    ensures (a % m + b) % m == (a + b) % m
  {
    var q := a / m;
    assert a == q * m + a % m;
    assert a + b == (a % m + b) + q * m;
    ModShift(a % m + b, q, m);
  }

  lemma ModShift(x: int, q: int, m: int)
    requires m > 0
    ensures (x + q * m) % m == x % m
  {
    var r := x % m;
    assert x + q * m == (x / m + q) * m + r;
    ModUnique(x + q * m, x / m + q, r, m);
  }

  /** A representation `x == a * m + r` with `0 <= r < m` gives `x % m`. */
  lemma ModUnique(x: int, a: int, r: int, m: int)
    requires m > 0 && 0 <= r < m && x == a * m + r
    ensures x % m == r
  {
    var a', r' := x / m, x % m;
    assert (a - a') * m == r' - r;
    if a - a' >= 1 {
      MulAtLeast(a - a', m);
    } else if a' - a >= 1 {
      MulAtLeast(a' - a, m);
    }
  }

  lemma MulAtLeast(k: int, m: int)
    requires k >= 1 && m > 0
    ensures k * m >= m
  {
    assert k * m == (k - 1) * m + m;
  }

  /** Truncating a 64-bit value to 32 bits loses exactly what truncating the
      exact value to 32 bits loses, because 2^32 divides 2^64. */
  lemma {:induction false} ModModLemma(x: int)
    ensures (x % U64_MODULUS) % U32_MODULUS == x % U32_MODULUS
  {
    var q := x / U64_MODULUS;
    assert x == q * U64_MODULUS + x % U64_MODULUS;
    assert q * U64_MODULUS == (q * U32_MODULUS) * U32_MODULUS;
    ModShift(x % U64_MODULUS, q * U32_MODULUS, U32_MODULUS);
  }

  /** `millis()` is the exact elapsed time since the epoch, modulo 2^32, in
      spite of the intermediate 64-bit wrap-arounds. */
  lemma {:induction false} MillisIsElapsedMod32(sec: nat, usec: nat, epoch: u64)
    ensures Millis(sec, usec, epoch) as int == (WallMillis(sec, usec) - epoch as int) % U32_MODULUS
  {
    var w := WallMillis(sec, usec);
    var t := TimeNow64(sec, usec) as int;
    ModModLemma(t - epoch as int);
    // t and w differ by a multiple of 2^64, hence of 2^32
    var q := w / U64_MODULUS;
    assert w == q * U64_MODULUS + t;
    assert w - epoch as int == (t - epoch as int) + (q * U32_MODULUS) * U32_MODULUS;
    ModShift(t - epoch as int, q * U32_MODULUS, U32_MODULUS);
  }

  /** Two `millis()` readings taken less than 2^32 ms apart differ, in
      unsigned 32-bit arithmetic, by exactly the real time between them.
      This is what the debounce gate relies on. */
  lemma {:induction false} ElapsedIsRealTime(s1: nat, u1: nat, s2: nat, u2: nat, epoch: u64)
    requires WallMillis(s1, u1) <= WallMillis(s2, u2) < WallMillis(s1, u1) + U32_MODULUS
    ensures Sub32(Millis(s2, u2, epoch), Millis(s1, u1, epoch)) as int
            == WallMillis(s2, u2) - WallMillis(s1, u1)
  {
    var w1, w2 := WallMillis(s1, u1), WallMillis(s2, u2);
    var m1, m2 := Millis(s1, u1, epoch) as int, Millis(s2, u2, epoch) as int;
    MillisIsElapsedMod32(s1, u1, epoch);
    MillisIsElapsedMod32(s2, u2, epoch);
    var e1, e2 := w1 - epoch as int, w2 - epoch as int;
    assert e1 == (e1 / U32_MODULUS) * U32_MODULUS + m1;
    assert e2 == (e2 / U32_MODULUS) * U32_MODULUS + m2;
    var d := m2 - m1;
    assert d == (w2 - w1) - (e2 / U32_MODULUS - e1 / U32_MODULUS) * U32_MODULUS;
    ModShift(w2 - w1, -(e2 / U32_MODULUS - e1 / U32_MODULUS), U32_MODULUS);
    assert d % U32_MODULUS == (w2 - w1) % U32_MODULUS;
  }
}
