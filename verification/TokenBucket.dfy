/** src/adapters/lua/token_bucket.lua: one atomic check, as a function of the stored state and as the
    script's own step-by-step update of the stored hash. */
module TokenBucket {
  import opened Numbers
  import opened CoreTypes

  /** One execution of the script. The rule travels with every call, as ARGV does. */
  datatype Call = Call(capacity: posreal, rate: posreal, cost: pos, now: nat)

  /** The hash { tokens, lastRefillMs }, or no key. */
  datatype State = Fresh | Stored(tokens: real, last: nat)

  /** Elapsed time with a backwards clock clamped to zero. */
  function Forward(last: nat, now: nat): nat {
    if now < last then 0 else now - last
  }

  function Refill(rate: posreal, ms: nat): real {
    ms as real / 1000.0 * rate
  }

  /** The tokens a check at `now` finds before it spends. */
  function Available(s: State, capacity: posreal, rate: posreal, now: nat): real {
    match s
    case Fresh => capacity
    case Stored(tokens, last) => Min(capacity, tokens + Refill(rate, Forward(last, now)))
  }

  /** Milliseconds until `amount` tokens have accrued at `rate`, rounded up. */
  function WaitFor(amount: real, rate: posreal): int {
    Ceil(amount / rate * 1000.0)
  }

  function Ttl(capacity: posreal, rate: posreal): int {
    Max(1, WaitFor(capacity, rate))
  }

  function Step(s: State, c: Call): (State, Reply) {
    var available := Available(s, c.capacity, c.rate, c.now);
    var allowed := available >= c.cost as real;
    var tokens := if allowed then available - c.cost as real else available;
    var retryAfterMs := if allowed then 0 else WaitFor(c.cost as real - available, c.rate);
    var resetMs := c.now + WaitFor(c.capacity - tokens, c.rate);
    (Stored(tokens, c.now), Reply(allowed, tokens.Floor, retryAfterMs, resetMs))
  }

  /** The state after a run of checks on one key. */
  function After(s: State, run: seq<Call>): State {
    if run == [] then s else Step(After(s, run[..|run| - 1]), run[|run| - 1]).0
  }

  function ReplyAt(s: State, run: seq<Call>, n: nat): Reply
    requires n < |run|
  {
    Step(After(s, run[..n]), run[n]).1
  }

  function Replies(s: State, run: seq<Call>): seq<Reply> {
    seq(|run|, n requires 0 <= n < |run| => ReplyAt(s, run, n))
  }

  lemma {:induction false} AfterNext(s: State, run: seq<Call>, n: nat)
    requires n < |run|
    ensures After(s, run[..n + 1]) == Step(After(s, run[..n]), run[n]).0
  {
    assert run[..n + 1][..n] == run[..n];
  }

  /** Running one stretch after another. */
  lemma {:induction false} AfterConcat(s: State, a: seq<Call>, b: seq<Call>)
    ensures After(s, a + b) == After(After(s, a), b)
    decreases |b|
  {
    if b == [] {
      assert a + b == a;
    } else {
      var n := |b| - 1;
      assert (a + b)[..|a| + n] == a + b[..n];
      AfterConcat(s, a, b[..n]);
    }
  }

  // ----- the arithmetic of refills -----

  lemma {:induction false} RefillIsBrought(rate: posreal, ms: nat)
    ensures Refill(rate, ms) == rate * ms as real / 1000.0 == Brought(rate, ms)
  {
    assert rate * ms as real / 1000.0 == ms as real / 1000.0 * rate;
  }

  lemma {:induction false} WaitForIsLeast(amount: real, rate: posreal)
    ensures LeastWait(WaitFor(amount, rate), rate, amount)
  {
    CeilIsLeastWait(amount, rate);
  }

  lemma {:induction false} RefillNonNegative(rate: posreal, ms: nat)
    ensures Refill(rate, ms) >= 0.0
  {
  }

  lemma {:induction false} RefillZero(rate: posreal)
    ensures Refill(rate, 0) == 0.0
  {
  }

  lemma {:induction false} RefillAdds(rate: posreal, a: nat, b: nat)
    ensures Refill(rate, a + b) == Refill(rate, a) + Refill(rate, b)
  {
    assert (a + b) as real / 1000.0 == a as real / 1000.0 + b as real / 1000.0;
  }

  /** Stored tokens never leave [0, capacity]. */
  lemma {:induction false} TokensInRange(run: seq<Call>)
    requires run != []
    ensures After(Fresh, run).Stored?
    ensures After(Fresh, run).last == run[|run| - 1].now
    ensures 0.0 <= After(Fresh, run).tokens <= run[|run| - 1].capacity
    ensures var c := run[|run| - 1];
            Available(After(Fresh, run[..|run| - 1]), c.capacity, c.rate, c.now) >= 0.0
  {
    var n := |run| - 1;
    var pre := After(Fresh, run[..n]);
    if n > 0 {
      TokensInRange(run[..n]);
      RefillNonNegative(run[n].rate, Forward(pre.last, run[n].now));
    }
  }
}
