/** What the two stored fields mean: the script admits exactly what a (burst, rate) envelope over the whole
    history of the key allows, for any clock and any sequence of rule versions. */
module TokenBucketRuns {
  import opened Numbers
  import opened Schedules
  import opened TokenBucket

  /** Tokens minted between check i and check j: refill over the forward clock moves only. */
  function Gain(run: seq<Call>, i: nat, j: nat): real
    requires j < |run|
    decreases j
  {
    if j <= i then 0.0
    else Gain(run, i, j - 1) + Refill(run[j].rate, Forward(run[j - 1].now, run[j].now))
  }

  function Allowed(run: seq<Call>, n: nat): bool
    requires n < |run|
  {
    ReplyAt(Fresh, run, n).allowed
  }

  /** Cost admitted by the checks with index in [i, j). */
  function Spent(run: seq<Call>, i: nat, j: nat): int
    requires j <= |run|
    decreases j
  {
    if j <= i then 0 else Spent(run, i, j - 1) + if Allowed(run, j - 1) then run[j - 1].cost else 0
  }

  /** What the envelope anchored at check i leaves for check n. */
  function Headroom(run: seq<Call>, i: nat, n: nat): real
    requires i <= n < |run|
  {
    run[i].capacity + Gain(run, i, n) - Spent(run, i, n) as real
  }

  function AvailableAt(run: seq<Call>, n: nat): real
    requires n < |run|
  {
    Available(After(Fresh, run[..n]), run[n].capacity, run[n].rate, run[n].now)
  }

  lemma {:induction false} AvailableNext(run: seq<Call>, n: nat)
    requires n + 1 < |run|
    ensures AvailableAt(run, n + 1) ==
            Min(run[n + 1].capacity,
                AvailableAt(run, n) - (if Allowed(run, n) then run[n].cost else 0) as real
                + Refill(run[n + 1].rate, Forward(run[n].now, run[n + 1].now)))
  {
    AfterNext(Fresh, run, n);
  }

  lemma {:induction false} HeadroomNext(run: seq<Call>, i: nat, n: nat)
    requires i <= n < |run| - 1
    ensures Headroom(run, i, n + 1) ==
            Headroom(run, i, n) - (if Allowed(run, n) then run[n].cost else 0) as real
            + Refill(run[n + 1].rate, Forward(run[n].now, run[n + 1].now))
  {
  }

  /** The tokens found by check n are the minimum of all the envelopes anchored at or before it. */
  lemma {:induction false} ClosedForm(run: seq<Call>, n: nat)
    requires n < |run|
    ensures forall i :: 0 <= i <= n ==> AvailableAt(run, n) <= Headroom(run, i, n)
    ensures exists i :: 0 <= i <= n && AvailableAt(run, n) == Headroom(run, i, n)
    decreases n
  {
    if n == 0 {
      assert AvailableAt(run, 0) == Headroom(run, 0, 0);
    } else {
      ClosedForm(run, n - 1);
      AvailableNext(run, n - 1);
      forall i | 0 <= i <= n
        ensures AvailableAt(run, n) <= Headroom(run, i, n)
      {
        if i < n {
          HeadroomNext(run, i, n - 1);
        }
      }
      var k :| 0 <= k <= n - 1 && AvailableAt(run, n - 1) == Headroom(run, k, n - 1);
      HeadroomNext(run, k, n - 1);
      assert AvailableAt(run, n) == Headroom(run, k, n) || AvailableAt(run, n) == Headroom(run, n, n);
    }
  }

  /** Admitting check n keeps the cost admitted since every earlier check i within that check's burst plus the
      refill since. */
  ghost predicate WithinEveryEnvelope(run: seq<Call>, n: nat)
    requires n < |run|
  {
    forall i :: 0 <= i <= n ==> (Spent(run, i, n) + run[n].cost) as real <= run[i].capacity + Gain(run, i, n)
  }

  /** A check is admitted exactly when no envelope breaks. */
  lemma {:induction false} AdmittedIffWithinEveryEnvelope(run: seq<Call>, n: nat)
    requires n < |run|
    ensures Allowed(run, n) <==> WithinEveryEnvelope(run, n)
  {
    ClosedForm(run, n);
    if Allowed(run, n) {
      forall i | 0 <= i <= n
        ensures (Spent(run, i, n) + run[n].cost) as real <= run[i].capacity + Gain(run, i, n)
      {
        assert AvailableAt(run, n) <= Headroom(run, i, n);
      }
    } else {
      var k :| 0 <= k <= n && AvailableAt(run, n) == Headroom(run, k, n);
      assert (Spent(run, k, n) + run[n].cost) as real > run[k].capacity + Gain(run, k, n);
    }
  }

  /** Over any stretch of any run the admitted cost is at most one burst plus the refill of that stretch. */
  lemma {:induction false} StretchBound(run: seq<Call>, i: nat, n: nat)
    requires i <= n < |run|
    ensures Spent(run, i, n + 1) as real <= run[i].capacity + Gain(run, i, n)
    decreases n
  {
    if Allowed(run, n) {
      AdmittedIffWithinEveryEnvelope(run, n);
    } else if i < n {
      StretchBound(run, i, n - 1);
      RefillNonNegative(run[n].rate, Forward(run[n - 1].now, run[n].now));
    }
  }

  // ----- the clock -----

  ghost predicate OneRule(run: seq<Call>, capacity: posreal, rate: posreal) {
    forall k :: 0 <= k < |run| ==> run[k].capacity == capacity && run[k].rate == rate
  }

  /** The rule of check i is in force up to check n. */
  ghost predicate RuleHolds(run: seq<Call>, i: nat, n: nat)
    requires i <= n < |run|
  {
    forall k :: i <= k <= n ==> run[k].capacity == run[i].capacity && run[k].rate == run[i].rate
  }

  /** The clock never steps back between check i and check n. */
  ghost predicate NondecreasingBetween(run: seq<Call>, i: nat, n: nat)
    requires n < |run|
  {
    forall j, k :: i <= j <= k <= n ==> run[j].now <= run[k].now
  }

  ghost predicate Nondecreasing(run: seq<Call>) {
    run == [] || NondecreasingBetween(run, 0, |run| - 1)
  }

  /** Total length of the backward moves of the clock between check i and check j. */
  function Backward(run: seq<Call>, i: nat, j: nat): nat
    requires j < |run|
    decreases j
  {
    if j <= i then 0 else Backward(run, i, j - 1) + Forward(run[j].now, run[j - 1].now)
  }

  /** While the rule holds, the minted tokens are those of the elapsed time plus those of every backward move:
      an interval the clock crosses again is refilled again. */
  lemma {:induction false} GainIsElapsedPlusBackward(run: seq<Call>, i: nat, j: nat)
    requires i <= j < |run| && RuleHolds(run, i, j)
    ensures run[j].now + Backward(run, i, j) >= run[i].now
    ensures Gain(run, i, j) == Refill(run[i].rate, run[j].now + Backward(run, i, j) - run[i].now)
    decreases j
  {
    if i < j {
      GainIsElapsedPlusBackward(run, i, j - 1);
      var before := run[j - 1].now + Backward(run, i, j - 1) - run[i].now;
      RefillAdds(run[i].rate, before, Forward(run[j - 1].now, run[j].now));
    }
  }

  lemma {:induction false} NoBackwardMoves(run: seq<Call>, i: nat, j: nat)
    requires i <= j < |run|
    ensures Backward(run, i, j) == 0 <==> NondecreasingBetween(run, i, j)
    decreases j
  {
    if i < j {
      NoBackwardMoves(run, i, j - 1);
    }
  }

  /** The documented guarantee: on a nondecreasing clock, any interval of the run through which one rule holds
      admits at most capacity + rate * elapsed, whatever rules were in force before. */
  lemma {:induction false} IntervalBound(run: seq<Call>, i: nat, n: nat)
    requires i <= n < |run| && RuleHolds(run, i, n) && NondecreasingBetween(run, i, n)
    ensures Spent(run, i, n + 1) as real
            <= run[i].capacity + Brought(run[i].rate, run[n].now - run[i].now)
  {
    hide Refill, Brought, Gain, Spent;
    RefillIsBrought(run[i].rate, run[n].now - run[i].now);
    NoBackwardMoves(run, i, n);
    GainIsElapsedPlusBackward(run, i, n);
    StretchBound(run, i, n);
  }

  // ----- which clocks keep the documented guarantee -----

  /** Total length of the forward moves of the clock between check i and check j. */
  function Ahead(run: seq<Call>, i: nat, j: nat): nat
    requires j < |run|
    decreases j
  {
    if j <= i then 0 else Ahead(run, i, j - 1) + Forward(run[j - 1].now, run[j].now)
  }

  lemma {:induction false} GainIsAhead(run: seq<Call>, i: nat, j: nat)
    requires i <= j < |run| && RuleHolds(run, i, j)
    ensures Gain(run, i, j) == Refill(run[i].rate, Ahead(run, i, j))
    decreases j
  {
    if i < j {
      GainIsAhead(run, i, j - 1);
      RefillAdds(run[i].rate, Ahead(run, i, j - 1), Forward(run[j - 1].now, run[j].now));
    }
  }

  ghost predicate NonincreasingBetween(run: seq<Call>, i: nat, n: nat)
    requires n < |run|
  {
    forall j, k :: i <= j <= k <= n ==> run[j].now >= run[k].now
  }

  /** The clock does not change direction between check i and check n. */
  ghost predicate OneDirection(run: seq<Call>, i: nat, n: nat)
    requires n < |run|
  {
    NondecreasingBetween(run, i, n) || NonincreasingBetween(run, i, n)
  }

  lemma {:induction false} NoForwardMoves(run: seq<Call>, i: nat, j: nat)
    requires i <= j < |run|
    ensures Ahead(run, i, j) == 0 <==> NonincreasingBetween(run, i, j)
    ensures run[i].now + Ahead(run, i, j) == run[j].now + Backward(run, i, j)
    decreases j
  {
    if i < j {
      NoForwardMoves(run, i, j - 1);
    }
  }

  /** The forward moves add up to the elapsed time exactly when the clock keeps its direction. */
  lemma {:induction false} AheadIsElapsedIff(run: seq<Call>, i: nat, n: nat)
    requires i <= n < |run|
    ensures Ahead(run, i, n) >= Forward(run[i].now, run[n].now)
    ensures Ahead(run, i, n) == Forward(run[i].now, run[n].now) <==> OneDirection(run, i, n)
  {
    NoForwardMoves(run, i, n);
    NoBackwardMoves(run, i, n);
  }

  /** Another run at the same times: any costs, one rule. */
  ghost predicate OnClock(w: seq<Call>, run: seq<Call>, capacity: posreal, rate: posreal) {
    && |w| == |run|
    && OneRule(w, capacity, rate)
    && forall k :: 0 <= k < |w| ==> w[k].now == run[k].now
  }

  /** Checks i to n together pay for one burst and the time that has passed between them. */
  ghost predicate PaidByElapsedTime(w: seq<Call>, i: nat, n: nat, capacity: posreal, rate: posreal)
    requires i <= n < |w|
  {
    Spent(w, i, n + 1) as real <= capacity + Refill(rate, Forward(w[i].now, w[n].now))
  }

  /** Cost of check j in the run that takes all it can from check i on and nothing before: a full burst first,
      then every forward move of the clock as it is minted, at one token per millisecond. */
  function GreedyCost(run: seq<Call>, i: nat, burst: pos, j: nat): pos
    requires j < |run|
  {
    if j == i then burst
    else if j > i && run[j - 1].now < run[j].now then run[j].now - run[j - 1].now
    else burst + 1
  }

  const PER_MS: posreal := 1000.0

  function TakesAll(run: seq<Call>, i: nat, burst: pos): (w: seq<Call>)
    ensures |w| == |run|
  {
    seq(|run|, j requires 0 <= j < |run| => Call(burst as real, PER_MS, GreedyCost(run, i, burst, j), run[j].now))
  }

  lemma {:induction false} MoveIsMinted(ms: nat)
    ensures Refill(PER_MS, ms) == ms as real
  {
  }

  /** Check j of that run finds a full bucket up to check i, and after that just the latest forward move. */
  lemma {:induction false} FindsOnlyTheMove(run: seq<Call>, i: nat, burst: pos, j: nat)
    requires j < |run| && (i < j ==> Ahead(run, i, j) <= burst)
    ensures AvailableAt(TakesAll(run, i, burst), j)
            == (if j <= i then burst else Forward(run[j - 1].now, run[j].now)) as real
    decreases j
  {
    hide Refill, WaitFor;
    if j > 0 {
      FindsOnlyTheMove(run, i, burst, j - 1);
      AvailableNext(TakesAll(run, i, burst), j - 1);
      MoveIsMinted(Forward(run[j - 1].now, run[j].now));
    }
  }

  lemma {:induction false} TakesBurstAndMoves(run: seq<Call>, i: nat, burst: pos, n: nat)
    requires i <= n < |run| && Ahead(run, i, n) <= burst
    ensures Spent(TakesAll(run, i, burst), i, n + 1) == burst + Ahead(run, i, n)
    decreases n
  {
    FindsOnlyTheMove(run, i, burst, n);
    if i < n {
      TakesBurstAndMoves(run, i, burst, n - 1);
    }
  }

  /** Exactly the clocks on which no rule and no costs can exceed capacity + rate * elapsed between two checks are
      those that keep their direction between them; every other clock lets some run through that admits more. */
  lemma {:induction false} IntervalBoundIff(run: seq<Call>, i: nat, n: nat)
    requires i <= n < |run|
    ensures (forall w, capacity: posreal, rate: posreal :: OnClock(w, run, capacity, rate) ==>
               PaidByElapsedTime(w, i, n, capacity, rate))
            <==> OneDirection(run, i, n)
  {
    AheadIsElapsedIff(run, i, n);
    if OneDirection(run, i, n) {
      forall w, capacity: posreal, rate: posreal | OnClock(w, run, capacity, rate)
        ensures PaidByElapsedTime(w, i, n, capacity, rate)
      {
        AheadIsElapsedIff(w, i, n);
        GainIsAhead(w, i, n);
        StretchBound(w, i, n);
      }
    } else {
      var burst: pos := 1 + Ahead(run, i, n);
      var w := TakesAll(run, i, burst);
      TakesBurstAndMoves(run, i, burst, n);
      assert OnClock(w, run, burst as real, PER_MS);
      assert !PaidByElapsedTime(w, i, n, burst as real, PER_MS);
    }
  }

  /** The clamp on negative elapsed time does not help against a clock that steps back and forward again,
      because the earlier time is stored: two units pass at one instant through a bucket of one. */
  lemma {:induction false} BackwardClockRefillsTwice()
    ensures var run := [Call(1.0, 1.0, 1, 1000), Call(1.0, 1.0, 1, 0), Call(1.0, 1.0, 1, 1000)];
            Allowed(run, 0) && !Allowed(run, 1) && Allowed(run, 2)
  {
    var run := [Call(1.0, 1.0, 1, 1000), Call(1.0, 1.0, 1, 0), Call(1.0, 1.0, 1, 1000)];
    assert AvailableAt(run, 0) == 1.0;
    AvailableNext(run, 0);
    assert AvailableAt(run, 1) == 0.0;
    AvailableNext(run, 1);
    assert Refill(1.0, 1000) == 1.0;
    assert AvailableAt(run, 2) == 1.0;
  }

  // ----- optimality -----

  function Admissions(run: seq<Call>): (flags: seq<bool>)
    ensures |flags| == |run|
  {
    seq(|run|, n requires 0 <= n < |run| => Allowed(run, n))
  }

  ghost predicate UnitCosts(run: seq<Call>) {
    forall k :: 0 <= k < |run| ==> run[k].cost == 1
  }

  /** A schedule of the run's requests that never exceeds an envelope. */
  ghost predicate Feasible(run: seq<Call>, b: seq<bool>)
    requires |b| == |run|
  {
    forall i, n :: 0 <= i <= n < |run| ==> Count(b, i, n + 1) as real <= run[i].capacity + Gain(run, i, n)
  }

  lemma {:induction false} SpentIsCount(run: seq<Call>, i: nat, n: nat)
    requires UnitCosts(run) && n <= |run|
    ensures Spent(run, i, n) == Count(Admissions(run), i, n)
    decreases n
  {
    if i < n {
      SpentIsCount(run, i, n - 1);
    }
  }

  /** The script's own schedule is feasible, and no feasible schedule is ahead of it after any prefix. */
  lemma {:induction false} GreedyIsOptimal(run: seq<Call>, b: seq<bool>, n: nat)
    requires UnitCosts(run) && |b| == |run| && n <= |run|
    requires Feasible(run, b)
    ensures Feasible(run, Admissions(run))
    ensures Count(b, 0, n) <= Count(Admissions(run), 0, n)
  {
    var g := Admissions(run);
    forall i, m | 0 <= i <= m < |run|
      ensures Count(g, i, m + 1) as real <= run[i].capacity + Gain(run, i, m)
    {
      StretchBound(run, i, m);
      SpentIsCount(run, i, m + 1);
    }
    forall m | 0 <= m < |g| && !g[m] && b[m]
      ensures exists i :: 0 <= i <= m && Count(b, i, m + 1) <= Count(g, i, m)
    {
      AdmittedIffWithinEveryEnvelope(run, m);
      var i :| 0 <= i <= m && (Spent(run, i, m) + run[m].cost) as real > run[i].capacity + Gain(run, i, m);
      SpentIsCount(run, i, m);
    }
    StayAhead(g, b, n);
  }
}
