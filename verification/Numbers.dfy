/** Exact counterparts of the rounding operations the Lua scripts and the REST headers use. */
module Numbers {

  type posreal = x: real | x > 0.0 witness 1.0

  type pos = x: int | x >= 1 witness 1

  function Min(x: real, y: real): real {
    if x <= y then x else y
  }

  function Max(x: int, y: int): int {
    if x <= y then y else x
  }

  /** math.ceil */
  function Ceil(x: real): (n: int)
    ensures x <= n as real < x + 1.0
  {
    -((-x).Floor)
  }

  /** Ceil is the least integer at or above its argument. */
  lemma {:induction false} CeilIsLeast(x: real, n: int)
    ensures Ceil(x) <= n <==> x <= n as real
  {
  }

  lemma {:induction false} MulMonotone(x: real, y: real, k: posreal)
    ensures x <= y <==> x * k <= y * k
  {
    assert (y - x) * k == y * k - x * k;
  }

  /** Waiting `ms` milliseconds at `rate` per second covers `amount` exactly when `ms` reaches
      amount / rate * 1000: the arithmetic behind both ceilings of the bucket script. */
  lemma {:induction false} WaitCovers(amount: real, rate: posreal, ms: int)
    ensures ms as real / 1000.0 * rate >= amount <==> ms >= Ceil(amount / rate * 1000.0)
  {
    var wait := amount / rate * 1000.0;
    calc {
      wait / 1000.0 * rate;
      amount / rate * rate;
      amount;
    }
    MulMonotone(wait / 1000.0, ms as real / 1000.0, rate);
    CeilIsLeast(wait, ms);
  }

  /** What `rate` per second brings in `ms` milliseconds: rate * elapsed. */
  function Brought(rate: posreal, ms: int): real {
    rate * ms as real / 1000.0
  }

  /** `wait` is the least number of milliseconds that brings `amount`. */
  ghost predicate LeastWait(wait: int, rate: posreal, amount: real) {
    forall ms: int :: Brought(rate, ms) >= amount <==> ms >= wait
  }

  lemma {:induction false} CeilIsLeastWait(amount: real, rate: posreal)
    ensures LeastWait(Ceil(amount / rate * 1000.0), rate, amount)
  {
    forall ms: int
      ensures Brought(rate, ms) >= amount <==> ms >= Ceil(amount / rate * 1000.0)
    {
      WaitCovers(amount, rate, ms);
      assert rate * ms as real / 1000.0 == ms as real / 1000.0 * rate;
    }
  }
}

/** The clock both scripts read. */
module ServerClock {

  /** `now` is the time of a check: the override if there is one, else the whole milliseconds of what
      redis.call('TIME') answers. */
  ghost predicate Reads(now: nat, nowOverride: int, seconds: nat, micros: nat) {
    if nowOverride > 0 then now == nowOverride
    else 1000 * now <= 1_000_000 * seconds + micros < 1000 * (now + 1)
  }

  /** The start of both scripts. */
  method ReadClock(nowOverride: int, seconds: nat, micros: nat) returns (now: nat)
    ensures Reads(now, nowOverride, seconds, micros)
  {
    if nowOverride > 0 {
      now := nowOverride;
    } else {
      now := seconds * 1000 + micros / 1000;
    }
  }

  /** The server clock orders its readings: later ones never give an earlier time, and they differ by the elapsed
      time up to one millisecond. */
  lemma {:induction false} ReadingsInOrder(now: nat, seconds: nat, micros: nat, now': nat, seconds': nat, micros': nat)
    requires micros < 1_000_000 && micros' < 1_000_000
    requires seconds < seconds' || (seconds == seconds' && micros <= micros')
    requires Reads(now, 0, seconds, micros) && Reads(now', 0, seconds', micros')
    ensures now <= now'
    ensures var elapsed := 1_000_000 * (seconds' - seconds) + micros' - micros;
            1000 * (now' - now - 1) < elapsed < 1000 * (now' - now + 1)
  {
  }
}
