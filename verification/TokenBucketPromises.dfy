/** What one reply of the bucket script promises about later checks, for one rule and a nondecreasing clock. */
module TokenBucketPromises {
  import opened Numbers
  import opened Schedules
  import opened TokenBucket
  import opened TokenBucketRuns

  // ----- states that no later check can tell apart -----

  ghost predicate Agree(s: State, s': State, capacity: posreal, rate: posreal, from: nat) {
    forall t: nat :: t >= from ==> Available(s, capacity, rate, t) == Available(s', capacity, rate, t)
  }

  ghost predicate NotAfter(s: State, t: nat) {
    s.Stored? ==> s.last <= t
  }

  /** A run that continues state `s` under one rule with a nondecreasing clock. */
  ghost predicate Continues(s: State, run: seq<Call>, capacity: posreal, rate: posreal) {
    && OneRule(run, capacity, rate)
    && Nondecreasing(run)
    && (run != [] ==> NotAfter(s, run[0].now))
  }

  /** The time of the state after a run. */
  function Latest(s: State, run: seq<Call>): nat {
    if run == [] then (if s.Fresh? then 0 else s.last) else run[|run| - 1].now
  }

  lemma {:induction false} LatestIsStored(s: State, run: seq<Call>)
    ensures NotAfter(After(s, run), Latest(s, run))
  {
  }

  lemma {:induction false} ContinuesPrefix(s: State, run: seq<Call>, n: nat, capacity: posreal, rate: posreal)
    requires n < |run| && Continues(s, run, capacity, rate)
    ensures Continues(s, run[..n], capacity, rate)
    ensures Latest(s, run[..n]) <= run[n].now
  {
  }

  /** Splitting a capped refill at an intermediate time changes nothing. */
  lemma {:induction false} CappedRefillsCompose(tokens: real, last: nat, mid: nat, t: nat,
                                                capacity: posreal, rate: posreal)
    requires last <= mid <= t
    ensures Available(Stored(Available(Stored(tokens, last), capacity, rate, mid), mid), capacity, rate, t)
            == Available(Stored(tokens, last), capacity, rate, t)
  {
    RefillAdds(rate, mid - last, t - mid);
    RefillNonNegative(rate, t - mid);
  }

  /** A check that finds A tokens and spends x leaves, for every later time, what it found minus at most x;
      a denied one leaves exactly what it found. */
  lemma {:induction false} StepOnlyLowers(s: State, c: Call, t: nat)
    requires NotAfter(s, c.now) && c.now <= t
    ensures Available(Step(s, c).0, c.capacity, c.rate, t) <= Available(s, c.capacity, c.rate, t)
    ensures !Step(s, c).1.allowed ==>
              Available(Step(s, c).0, c.capacity, c.rate, t) == Available(s, c.capacity, c.rate, t)
  {
    RefillNonNegative(c.rate, t - c.now);
    match s {
      case Fresh =>
      case Stored(tokens, last) => CappedRefillsCompose(tokens, last, c.now, t, c.capacity, c.rate);
    }
  }

  // ----- denied checks leave no trace -----

  lemma {:induction false} RepliesNext(s: State, pre: seq<Call>, c: Call)
    ensures Replies(s, pre + [c]) == Replies(s, pre) + [Step(After(s, pre), c).1]
    ensures After(s, pre + [c]) == Step(After(s, pre), c).0
  {
    var run := pre + [c];
    assert run[..|pre|] == pre;
    forall k | 0 <= k < |pre|
      ensures ReplyAt(s, pre, k) == ReplyAt(s, run, k)
    {
      assert pre[..k] == run[..k];
    }
  }

  /** Agreeing states give one reply and one new state, and a denied check keeps the agreement even if only
      one of the two sides runs it. */
  lemma {:induction false} AgreeingStep(a: State, b: State, c: Call, from: nat)
    requires Agree(a, b, c.capacity, c.rate, from) && from <= c.now && NotAfter(b, c.now)
    ensures Step(a, c) == Step(b, c)
    ensures !Step(b, c).1.allowed ==> Agree(a, Step(b, c).0, c.capacity, c.rate, c.now)
  {
    assert Available(a, c.capacity, c.rate, c.now) == Available(b, c.capacity, c.rate, c.now);
    if !Step(b, c).1.allowed {
      forall t: nat | t >= c.now
        ensures Available(a, c.capacity, c.rate, t) == Available(Step(b, c).0, c.capacity, c.rate, t)
      {
        StepOnlyLowers(b, c, t);
      }
    }
  }

  /** The replies of the kept checks and the final states match. */
  ghost predicate NoTrace(s: State, run: seq<Call>, keep: seq<bool>, capacity: posreal, rate: posreal)
    requires |keep| == |run|
  {
    && Replies(s, Select(run, keep)) == Select(Replies(s, run), keep)
    && Agree(After(s, Select(run, keep)), After(s, run), capacity, rate, Latest(s, run))
  }

  lemma {:induction false} NoTraceNext(s: State, pre: seq<Call>, preKeep: seq<bool>, c: Call, kept: bool)
    requires |preKeep| == |pre| && NoTrace(s, pre, preKeep, c.capacity, c.rate)
    requires Latest(s, pre) <= c.now
    requires kept || !Step(After(s, pre), c).1.allowed
    ensures NoTrace(s, pre + [c], preKeep + [kept], c.capacity, c.rate)
  {
    var thin := Select(pre, preKeep);
    LatestIsStored(s, pre);
    AgreeingStep(After(s, thin), After(s, pre), c, Latest(s, pre));
    RepliesNext(s, pre, c);
    RepliesNext(s, thin, c);
    SelectNext(pre, preKeep, c, kept);
    SelectNext(Replies(s, pre), preKeep, Step(After(s, pre), c).1, kept);
  }

  /** Every check a selection drops was denied. */
  ghost predicate DropsOnlyDenied(s: State, run: seq<Call>, keep: seq<bool>)
    requires |keep| == |run|
  {
    forall n :: 0 <= n < |run| && !keep[n] ==> !ReplyAt(s, run, n).allowed
  }

  lemma {:induction false} DropsOnlyDeniedPrefix(s: State, run: seq<Call>, keep: seq<bool>, n: nat)
    requires n < |keep| == |run| && DropsOnlyDenied(s, run, keep)
    ensures DropsOnlyDenied(s, run[..n], keep[..n])
    ensures keep[n] || !Step(After(s, run[..n]), run[n]).1.allowed
  {
    forall k | 0 <= k < n && !keep[..n][k]
      ensures !ReplyAt(s, run[..n], k).allowed
    {
      assert run[..n][..k] == run[..k];
    }
  }

  /** Deleting any set of denied checks from a run leaves every other reply as it was. */
  lemma {:induction false} DeniedChecksLeaveNoTrace(s: State, run: seq<Call>, keep: seq<bool>,
                                                    capacity: posreal, rate: posreal)
    requires |keep| == |run| && Continues(s, run, capacity, rate)
    requires DropsOnlyDenied(s, run, keep)
    ensures NoTrace(s, run, keep, capacity, rate)
    decreases |run|
  {
    if run != [] {
      var n := |run| - 1;
      assert run == run[..n] + [run[n]] && keep == keep[..n] + [keep[n]];
      ContinuesPrefix(s, run, n, capacity, rate);
      DropsOnlyDeniedPrefix(s, run, keep, n);
      DeniedChecksLeaveNoTrace(s, run[..n], keep[..n], capacity, rate);
      NoTraceNext(s, run[..n], keep[..n], run[n], keep[n]);
    }
  }

  ghost predicate AllDenied(s: State, run: seq<Call>) {
    forall k :: 0 <= k < |run| ==> !ReplyAt(s, run, k).allowed
  }

  /** Traffic never makes tokens appear. */
  lemma {:induction false} TrafficOnlyLowers(s: State, run: seq<Call>, capacity: posreal, rate: posreal, t: nat)
    requires Continues(s, run, capacity, rate) && Latest(s, run) <= t
    ensures Available(After(s, run), capacity, rate, t) <= Available(s, capacity, rate, t)
    decreases |run|
  {
    if run != [] {
      var n := |run| - 1;
      ContinuesPrefix(s, run, n, capacity, rate);
      TrafficOnlyLowers(s, run[..n], capacity, rate, t);
      LatestIsStored(s, run[..n]);
      StepOnlyLowers(After(s, run[..n]), run[n], t);
    }
  }

  // ----- retryAfterMs and resetMs -----

  /** Refilling for `ms` milliseconds covers an amount exactly from its wait on. */
  lemma {:induction false} RefillCovers(amount: real, rate: posreal, ms: nat)
    ensures Refill(rate, ms) >= amount <==> ms >= WaitFor(amount, rate)
  {
    WaitCovers(amount, rate, ms);
  }

  /** A check whose cost fits the capacity is covered exactly from now + retryAfterMs on. */
  lemma {:induction false} RetryHintIsLeast(s: State, c: Call, t: nat)
    requires !Step(s, c).1.allowed && c.cost as real <= c.capacity && c.now <= t
    ensures Available(Step(s, c).0, c.capacity, c.rate, t) >= c.cost as real <==> t >= c.now + Step(s, c).1.retryAfterMs
  {
    hide Refill, WaitFor;
    RefillCovers(c.cost as real - Available(s, c.capacity, c.rate, c.now), c.rate, t - c.now);
  }

  /** A deny always asks for a wait of at least one millisecond. */
  lemma {:induction false} RetryHintIsPositive(s: State, c: Call)
    requires !Step(s, c).1.allowed
    ensures Step(s, c).1.retryAfterMs >= 1
  {
    WaitCovers(c.cost as real - Available(s, c.capacity, c.rate, c.now), c.rate, 0);
  }

  /** Before the hinted time that cost, or more, is denied whatever traffic follows the deny. */
  lemma {:induction false} DeniedBeforeHint(s: State, c: Call, traffic: seq<Call>, probe: Call)
    requires !Step(s, c).1.allowed && c.cost as real <= c.capacity
    requires Continues(Step(s, c).0, traffic + [probe], c.capacity, c.rate)
    requires probe.cost >= c.cost && probe.now < c.now + Step(s, c).1.retryAfterMs
    ensures !Step(After(Step(s, c).0, traffic), probe).1.allowed
  {
    var n := |traffic|;
    assert (traffic + [probe])[..n] == traffic;
    ContinuesPrefix(Step(s, c).0, traffic + [probe], n, c.capacity, c.rate);
    assert probe == (traffic + [probe])[n];
    TrafficOnlyLowers(Step(s, c).0, traffic, c.capacity, c.rate, probe.now);
    RetryHintIsLeast(s, c, probe.now);
  }

  /** From the hinted time on the same cost is admitted, if nothing was admitted in between. */
  lemma {:induction false} AdmittedFromHint(s: State, c: Call, denied: seq<Call>, probe: Call)
    requires !Step(s, c).1.allowed && c.cost as real <= c.capacity
    requires Continues(Step(s, c).0, denied + [probe], c.capacity, c.rate) && AllDenied(Step(s, c).0, denied)
    requires probe.cost == c.cost && probe.now >= c.now + Step(s, c).1.retryAfterMs
    ensures Step(After(Step(s, c).0, denied), probe).1.allowed
  {
    var s', n := Step(s, c).0, |denied|;
    assert (denied + [probe])[..n] == denied && (denied + [probe])[n] == probe;
    ContinuesPrefix(s', denied + [probe], n, c.capacity, c.rate);
    DeniedRunIsInvisible(s', denied, c.capacity, c.rate);
    assert Available(After(s', denied), c.capacity, c.rate, probe.now) == Available(s', c.capacity, c.rate, probe.now);
    RetryHintIsPositive(s, c);
    RetryHintIsLeast(s, c, probe.now);
  }

  lemma {:induction false} DeniedRunIsInvisible(s: State, denied: seq<Call>, capacity: posreal, rate: posreal)
    requires Continues(s, denied, capacity, rate) && AllDenied(s, denied)
    ensures Agree(s, After(s, denied), capacity, rate, Latest(s, denied))
  {
    var none := seq(|denied|, _ => false);
    DeniedChecksLeaveNoTrace(s, denied, none, capacity, rate);
    SelectNone(denied, none);
  }

  /** A stored bucket is full exactly once the missing tokens have had time to accrue. */
  lemma {:induction false} FullIff(s: State, capacity: posreal, rate: posreal, t: nat)
    requires s.Stored? && t >= s.last
    ensures Available(s, capacity, rate, t) == capacity <==> t >= s.last + WaitFor(capacity - s.tokens, rate)
  {
    WaitCovers(capacity - s.tokens, rate, t - s.last);
  }

  /** With no later admission, however many checks are denied meanwhile, the bucket is full exactly from resetMs
      on. */
  lemma {:induction false} ResetIsLeastFullTime(s: State, c: Call, denied: seq<Call>, t: nat)
    requires Continues(Step(s, c).0, denied, c.capacity, c.rate) && AllDenied(Step(s, c).0, denied)
    requires t >= c.now && t >= Latest(Step(s, c).0, denied)
    ensures Available(After(Step(s, c).0, denied), c.capacity, c.rate, t) == c.capacity <==> t >= Step(s, c).1.resetMs
  {
    DeniedRunIsInvisible(Step(s, c).0, denied, c.capacity, c.rate);
    FullIff(Step(s, c).0, c.capacity, c.rate, t);
  }

  lemma {:induction false} RetryNoLaterThanReset(s: State, c: Call)
    requires !Step(s, c).1.allowed && c.cost as real <= c.capacity
    ensures c.now + Step(s, c).1.retryAfterMs <= Step(s, c).1.resetMs
  {
    RetryHintIsPositive(s, c);
    var reset := Step(s, c).1.resetMs;
    WaitCovers(c.capacity - Step(s, c).0.tokens, c.rate, reset - c.now);
    WaitCovers(c.cost as real - Available(s, c.capacity, c.rate, c.now), c.rate, reset - c.now);
  }

  // ----- remaining, and unit checks at one instant -----

  /** Unit-cost checks under one rule at one instant. */
  ghost predicate UnitBurst(run: seq<Call>, capacity: posreal, rate: posreal, now: nat) {
    OneRule(run, capacity, rate) && UnitCosts(run) && forall k :: 0 <= k < |run| ==> run[k].now == now
  }

  /** Of any number of unit checks at one instant exactly the first floor(available) are admitted. */
  lemma {:induction false} BurstAdmitsFloor(s: State, run: seq<Call>, n: nat,
                                            capacity: posreal, rate: posreal, now: nat)
    requires n <= |run| && UnitBurst(run, capacity, rate, now)
    requires NotAfter(s, now) && Available(s, capacity, rate, now) >= 0.0
    ensures var whole := Available(s, capacity, rate, now).Floor;
            && Available(After(s, run[..n]), capacity, rate, now)
               == Available(s, capacity, rate, now) - (if n <= whole then n else whole) as real
            && (n < |run| ==> (ReplyAt(s, run, n).allowed <==> n < whole))
    decreases n
  {
    hide Refill, WaitFor;
    if n == 0 {
      assert run[..0] == [];
    } else {
      BurstAdmitsFloor(s, run, n - 1, capacity, rate, now);
      AfterNext(s, run, n - 1);
      RefillZero(rate);
    }
  }

  /** After a reply with `remaining` == m, exactly the next m unit checks at that instant pass. */
  lemma {:induction false} RemainingIsExact(pre: seq<Call>, c: Call, run: seq<Call>, k: nat)
    requires k < |run| && UnitBurst(run, c.capacity, c.rate, c.now)
    ensures var s := After(Fresh, pre);
            ReplyAt(Step(s, c).0, run, k).allowed <==> k < Step(s, c).1.remaining
  {
    var s := After(Fresh, pre);
    assert (pre + [c])[..|pre|] == pre;
    TokensInRange(pre + [c]);
    var s' := Step(s, c).0;
    assert Refill(c.rate, 0) == 0.0;
    assert Available(s', c.capacity, c.rate, c.now) == s'.tokens;
    BurstAdmitsFloor(s', run, k, c.capacity, c.rate, c.now);
  }

  /** n simultaneous unit checks on a fresh key admit min(n, floor(capacity)). */
  lemma {:induction false} StormOnFreshKey(run: seq<Call>, n: nat, capacity: posreal, rate: posreal, now: nat)
    requires n <= |run| && UnitBurst(run, capacity, rate, now)
    ensures Count(Admissions(run), 0, n) == if n <= capacity.Floor then n else capacity.Floor
    decreases n
  {
    if n > 0 {
      StormOnFreshKey(run, n - 1, capacity, rate, now);
      BurstAdmitsFloor(Fresh, run, n - 1, capacity, rate, now);
    }
  }

  // ----- the TTL -----

  /** The `< 1` clamp on the TTL never changes the value. */
  lemma {:induction false} TtlClampNeverFires(capacity: posreal, rate: posreal)
    ensures Ttl(capacity, rate) == WaitFor(capacity, rate)
  {
    WaitCovers(capacity, rate, 0);
  }

  /** A bucket last checked under one rule and next checked under another: expiry at any moment the TTL allows is
      invisible to the next check exactly when, within that TTL, the bucket would have refilled to the new
      capacity. */
  lemma {:induction false} ExpiryInvisibleIff(s: State, capacity: posreal, rate: posreal,
                                              capacity': posreal, rate': posreal)
    requires s.Stored?
    ensures Agree(Fresh, s, capacity', rate', s.last + Ttl(capacity, rate))
            <==> WaitFor(capacity' - s.tokens, rate') <= Ttl(capacity, rate)
  {
    var deadline := s.last + Ttl(capacity, rate);
    forall t: nat | t >= deadline
      ensures Available(s, capacity', rate', t) == capacity' <==> t >= s.last + WaitFor(capacity' - s.tokens, rate')
    {
      FullIff(s, capacity', rate', t);
    }
    if Agree(Fresh, s, capacity', rate', deadline) {
      assert Available(Fresh, capacity', rate', deadline) == Available(s, capacity', rate', deadline);
    }
  }

  /** The new rule fills an empty bucket within the TTL of the old one: what an administrator can check before
      editing a rule. */
  predicate EditFits(capacity: posreal, rate: posreal, capacity': posreal, rate': posreal) {
    WaitFor(capacity', rate') <= Ttl(capacity, rate)
  }

  /** An edit never lets an expired key show, whatever the bucket held, exactly when it fits. */
  lemma {:induction false} EditInvisibleIff(capacity: posreal, rate: posreal, capacity': posreal, rate': posreal)
    ensures (forall s: State :: s.Stored? && s.tokens >= 0.0 ==>
               Agree(Fresh, s, capacity', rate', s.last + Ttl(capacity, rate)))
            <==> EditFits(capacity, rate, capacity', rate')
  {
    forall s: State | s.Stored? && s.tokens >= 0.0 && EditFits(capacity, rate, capacity', rate')
      ensures Agree(Fresh, s, capacity', rate', s.last + Ttl(capacity, rate))
    {
      DrainedWaitsLongest(s.tokens, capacity', rate');
      ExpiryInvisibleIff(s, capacity, rate, capacity', rate');
    }
    ExpiryInvisibleIff(Stored(0.0, 0), capacity, rate, capacity', rate');
  }

  lemma {:induction false} DrainedWaitsLongest(tokens: real, capacity: posreal, rate: posreal)
    requires tokens >= 0.0
    ensures WaitFor(capacity - tokens, rate) <= WaitFor(capacity, rate)
  {
    WaitCovers(capacity, rate, WaitFor(capacity, rate));
    WaitCovers(capacity - tokens, rate, WaitFor(capacity, rate));
  }

  /** Without an edit the TTL is safe for every bucket, and least for a drained one. */
  lemma {:induction false} FullFromTtlOn(s: State, capacity: posreal, rate: posreal, t: nat)
    requires s.Stored? && s.tokens >= 0.0 && t >= s.last
    ensures t >= s.last + Ttl(capacity, rate) ==> Available(s, capacity, rate, t) == Available(Fresh, capacity, rate, t)
    ensures s.tokens == 0.0 && Available(s, capacity, rate, t) == Available(Fresh, capacity, rate, t)
            ==> t >= s.last + Ttl(capacity, rate)
  {
    TtlClampNeverFires(capacity, rate);
    DrainedWaitsLongest(s.tokens, capacity, rate);
    FullIff(s, capacity, rate, t);
  }

  /** An edit that does not fit: the expired key starts with the new capacity, the stored bucket would not have
      refilled to it. */
  lemma {:induction false} EditCanShow()
    ensures var s := Step(Fresh, Call(1.0, 1.0, 1, 0)).0;
            && s.last + Ttl(1.0, 1.0) == 1000
            && Available(s, 100.0, 1.0, 1000) == 1.0
            && Available(Fresh, 100.0, 1.0, 1000) == 100.0
  {
    var s := Step(Fresh, Call(1.0, 1.0, 1, 0)).0;
    assert s == Stored(0.0, 0);
    TtlClampNeverFires(1.0, 1.0);
    assert Refill(1.0, 1000) == 1.0;
  }

  /** Every edit of the rule between two checks of a key fits. */
  ghost predicate EditsFit(run: seq<Call>) {
    |run| < 2
    || var n := |run| - 1;
       EditsFit(run[..n]) && EditFits(run[n - 1].capacity, run[n - 1].rate, run[n].capacity, run[n].rate)
  }

  lemma {:induction false} OneRuleFits(run: seq<Call>, capacity: posreal, rate: posreal)
    requires OneRule(run, capacity, rate)
    ensures EditsFit(run)
    decreases |run|
  {
    if |run| >= 2 {
      TtlClampNeverFires(capacity, rate);
      OneRuleFits(run[..|run| - 1], capacity, rate);
    }
  }
}
