/** The stored hash of one key, updated in place as src/adapters/lua/token_bucket.lua updates it. */
module TokenBucketKey {
  import opened Numbers
  import opened CoreTypes
  import opened ServerClock
  import opened TokenBucket
  import opened TokenBucketPromises
  import opened TokenBucketRuns

  /** One more check on a key with a given history. */
  lemma {:induction false} NextCheck(history: seq<Call>, c: Call)
    ensures var run, s := history + [c], After(Fresh, history);
            && After(Fresh, run) == Step(s, c).0
            && 0.0 <= Step(s, c).0.tokens <= c.capacity
            && (Step(s, c).1.allowed <==> WithinEveryEnvelope(run, |history|))
  {
    var run := history + [c];
    assert run[..|history|] == history;
    TokensInRange(run);
    AdmittedIffWithinEveryEnvelope(run, |history|);
  }

  class BucketKey {
    var present: bool
    var tokens: real
    var lastRefillMs: nat
    var expireAt: nat
    /** The checks since the key was created. */
    ghost var history: seq<Call>

    function Hash(): State
      reads this
    {
      if present then Stored(tokens, lastRefillMs) else Fresh
    }

    ghost predicate Valid()
      reads this
    {
      && Hash() == After(Fresh, history)
      && (present <==> history != [])
      && (present ==> var c := history[|history| - 1]; expireAt == c.now + Ttl(c.capacity, c.rate))
    }

    constructor ()
      ensures Valid() && history == []
    {
      present, tokens, lastRefillMs, expireAt := false, 0.0, 0, 0;
      history := [];
    }

    /** The script. The tokens found are those stored plus what the rate has brought since, up to the capacity; the
        check is admitted exactly when every envelope over the history allows it; the hints and the deadline are
        the least waits that bring what is missing. */
    method Check(capacity: posreal, refillPerSec: posreal, cost: pos, nowOverride: int, seconds: nat, micros: nat)
      returns (reply: Reply)
      requires Valid()
      modifies this
      ensures Valid() && present && Reads(lastRefillMs, nowOverride, seconds, micros)
      ensures history == old(history) + [Call(capacity, refillPerSec, cost, lastRefillMs)]
      ensures reply == Step(old(Hash()), history[|history| - 1]).1
      ensures var found := tokens + if reply.allowed then cost as real else 0.0;
              && (!old(present) ==> found == capacity)
              && (old(present) && lastRefillMs < old(lastRefillMs) ==> found == Min(capacity, old(tokens)))
              && (old(present) && lastRefillMs >= old(lastRefillMs) ==>
                    found == Min(capacity, old(tokens) + Brought(refillPerSec, lastRefillMs - old(lastRefillMs))))
      ensures reply.allowed <==> WithinEveryEnvelope(history, |history| - 1)
      ensures 0.0 <= tokens <= capacity
      ensures !reply.allowed ==> LeastWait(reply.retryAfterMs, refillPerSec, cost as real - tokens)
      ensures LeastWait(reply.resetMs - lastRefillMs, refillPerSec, capacity - tokens)
      ensures LeastWait(expireAt - lastRefillMs, refillPerSec, capacity)
    {
      hide After, WaitFor, Refill, Brought, WithinEveryEnvelope, LeastWait, Reads;
      var now := ReadClock(nowOverride, seconds, micros);
      ghost var pre := Hash();
      var found, last := tokens, lastRefillMs;
      if !present {
        found := capacity;
        last := now;
      }
      var elapsedMs := now - last;
      if elapsedMs < 0 {
        elapsedMs := 0;
      }
      found := Min(capacity, found + Refill(refillPerSec, elapsedMs));
      RefillZero(refillPerSec);
      RefillIsBrought(refillPerSec, elapsedMs);
      assert found == Available(pre, capacity, refillPerSec, now);

      var allowed := false;
      var retryAfterMs := 0;
      if found >= cost as real {
        allowed := true;
        found := found - cost as real;
      } else {
        var deficit := cost as real - found;
        retryAfterMs := WaitFor(deficit, refillPerSec);
        WaitForIsLeast(deficit, refillPerSec);
      }
      var missing := capacity - found;
      var resetMs := now + WaitFor(missing, refillPerSec);
      WaitForIsLeast(missing, refillPerSec);

      present, tokens, lastRefillMs := true, found, now;
      var ttlMs := WaitFor(capacity, refillPerSec);
      WaitForIsLeast(capacity, refillPerSec);
      TtlClampNeverFires(capacity, refillPerSec);
      if ttlMs < 1 {
        ttlMs := 1;
      }
      expireAt := now + ttlMs;
      reply := Reply(allowed, found.Floor, retryAfterMs, resetMs);

      ghost var c := Call(capacity, refillPerSec, cost, now);
      ghost var run := history + [c];
      assert (Hash(), reply) == Step(pre, c);
      NextCheck(history, c);
      assert Hash() == After(Fresh, run) && run[|run| - 1] == c && |run| - 1 == |history|;
      history := run;
    }

    /** The key expires once its deadline has passed; no later check can tell, under the last rule or any rule that
        fits its TTL. */
    method Expire(now: nat)
      requires Valid() && present && now >= expireAt
      modifies this
      ensures Valid() && !present && history == []
      ensures var last := old(history)[|old(history)| - 1];
              forall capacity: posreal, rate: posreal :: EditFits(last.capacity, last.rate, capacity, rate) ==>
                Agree(Hash(), old(Hash()), capacity, rate, now)
    {
      ghost var last, s := history[|history| - 1], Hash();
      TokensInRange(history);
      hide After;
      forall capacity: posreal, rate: posreal | EditFits(last.capacity, last.rate, capacity, rate)
        ensures Agree(Fresh, s, capacity, rate, now)
      {
        EditInvisibleIff(last.capacity, last.rate, capacity, rate);
        assert Agree(Fresh, s, capacity, rate, s.last + Ttl(last.capacity, last.rate));
      }
      present := false;
      history := [];
    }
  }
}
