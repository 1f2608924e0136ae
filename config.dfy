/**
 * Compile-time configuration of the tracker (main.h) and the depth of the
 * GPS point queue derived from it at start-up (main.c). All of these are
 * C `uint32_t` values, so their arithmetic wraps modulo 2^32 and is written
 * out as such.
 */
module Config {

  const U32Modulus: int := 0x1_0000_0000

  newtype u32 = x: int | 0 <= x < 0x1_0000_0000

  function AddU32(a: u32, b: u32): u32 {
    ((a as int + b as int) % U32Modulus) as u32
  }

  function SubU32(a: u32, b: u32): u32 {
    ((a as int - b as int) % U32Modulus) as u32
  }

  function MulU32(a: u32, b: u32): u32 {
    ((a as int * b as int) % U32Modulus) as u32
  }

  /** Cadence of reading GPS points, in milliseconds. */
  const GpsPointPeriodInMs: u32 := 10000

  /** How long the queue can buffer points while the network is down, in minutes. */
  const GpsPointBufferDurationInMin: u32 := 10

  /** `minutes * 60 * 1000` in `uint32_t`: exact whenever the product fits. */
  function DurationInMs(minutes: u32): (ms: u32)
    ensures minutes as int * 60000 < U32Modulus ==> ms as int == minutes as int * 60000
  {
    MulU32(MulU32(minutes, 60), 1000)
  }

  const GpsPointBufferDurationInMs: u32 := DurationInMs(GpsPointBufferDurationInMin)

  /** `n` is the smallest whole number of periods `p` that covers `d`. */
  predicate IsCeilQuotient(n: int, d: int, p: int) {
    n * p >= d && (n - 1) * p < d
  }

  lemma CeilQuotient(d: nat, p: nat)
    requires p > 0
    ensures IsCeilQuotient((d + p - 1) / p, d, p)
  {
    var s := d + p - 1;
    var n := s / p;
    var m := s % p;
    assert s == n * p + m && 0 <= m < p;
    assert n * p >= d;
    assert (n - 1) * p == n * p - p;
  }

  lemma RoundsUpWithoutWrap(d: u32, p: u32)
    requires p > 0 && d as int + p as int - 1 < U32Modulus
    ensures var n := AddU32(d, SubU32(p, 1)) / p;
      IsCeilQuotient(n as int, d as int, p as int) && (n > 0 <==> d > 0)
  {
    var s := AddU32(d, SubU32(p, 1));
    assert s as int == d as int + p as int - 1;
    var n := s / p;
    CeilQuotient(d as nat, p as nat);
    if d > 0 {
      assert n > 0;
    } else {
      assert n == 0 by {
        assert s as int < p as int;
      }
    }
  }

  /**
   * Queue depth `(durationMs + (periodMs - 1)) / periodMs`, evaluated in
   * `uint32_t`: the division rounds up as long as the sum does not wrap.
   */
  function QueueLength(durationMs: u32, periodMs: u32): (n: u32)
    requires periodMs > 0
    ensures durationMs as int + periodMs as int - 1 < U32Modulus ==>
              IsCeilQuotient(n as int, durationMs as int, periodMs as int)
    ensures durationMs as int + periodMs as int - 1 < U32Modulus ==>
              (n > 0 <==> durationMs > 0)
  {
    var n := AddU32(durationMs, SubU32(periodMs, 1)) / periodMs;
    assert durationMs as int + periodMs as int - 1 < U32Modulus ==>
             IsCeilQuotient(n as int, durationMs as int, periodMs as int) && (n > 0 <==> durationMs > 0) by {
      if durationMs as int + periodMs as int - 1 < U32Modulus {
        RoundsUpWithoutWrap(durationMs, periodMs);
      }
    }
    n
  }

  /**
   * The configured values: a positive period, a 600000 ms buffer, no
   * wrap-around in the depth formula, and a depth of exactly 60 points
   * (600000 is a multiple of 10000, so rounding up adds nothing).
   */
  lemma ConfiguredQueueLength()
    ensures GpsPointPeriodInMs > 0
    ensures GpsPointBufferDurationInMs == 600000
    ensures GpsPointBufferDurationInMs as int + GpsPointPeriodInMs as int - 1 < U32Modulus
    ensures QueueLength(GpsPointBufferDurationInMs, GpsPointPeriodInMs) == 60
    ensures 60 * GpsPointPeriodInMs as int == GpsPointBufferDurationInMs as int
  {
  }
}
