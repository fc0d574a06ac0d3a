/** What one reply of the window script promises about later checks. */
module SlidingWindowPromises {
  import opened Numbers
  import opened CoreTypes
  import opened Schedules
  import opened SlidingWindow
  import opened SlidingWindowRuns

  // ----- the log behind the hints -----

  /** A denied check reports less room than it asked for. */
  lemma {:induction false} DeniedCounts(log: Log, c: Call)
    requires !Step(log, c).1.allowed
    ensures Step(log, c).1.remaining < c.cost
  {
    DeniedKeepsAll(log, c);
    StepCounts(log, c);
  }

  /** One check with an earlier edge leaves what lies after `edge`, plus what it admits there. */
  lemma {:induction false} StepKeepsUnits(log: Log, c: Call, edge: int)
    requires c.Edge() <= edge
    ensures UnitsAfter(Step(log, c).0, edge)
            == UnitsAfter(log, edge) + (if Step(log, c).1.allowed && c.now > edge then c.cost else 0)
  {
    LiveKeepsLater(log, c.Edge(), edge);
    AppendIf(Live(log, c.Edge()), c.Entry(), Admits(log, c), edge, 0);
  }

  /** The decision and `remaining`, read off the units after the edge. */
  lemma {:induction false} StepCounts(log: Log, c: Call)
    ensures Step(log, c).1.allowed <==> UnitsAfter(log, c.Edge()) + c.cost <= c.limit
    ensures Step(log, c).1.remaining == Max(0, c.limit - UnitsAfter(Step(log, c).0, c.Edge()))
    ensures UnitsAfter(Step(log, c).0, c.Edge()) == Units(Step(log, c).0)
  {
    hide Units, UnitsAfter, Oldest;
    LiveUnits(log, c.Edge());
    AllLive(Step(log, c).0, c.Edge());
  }

  /** Later checks never take away what lies after the edge of the last of them. */
  lemma {:induction false} TrafficKeepsUnits(log: Log, run: seq<Call>, edge: int)
    requires forall k :: 0 <= k < |run| ==> run[k].Edge() <= edge
    ensures UnitsAfter(After(log, run), edge) >= UnitsAfter(log, edge)
    decreases |run|
  {
    if run != [] {
      var n := |run| - 1;
      TrafficKeepsUnits(log, run[..n], edge);
      StepKeepsUnits(After(log, run[..n]), run[n], edge);
    }
  }

  ghost predicate AllDenied(log: Log, run: seq<Call>) {
    forall k :: 0 <= k < |run| ==> !ReplyAt(log, run, k).allowed
  }

  /** Denied checks change nothing after the edge of the last of them. */
  lemma {:induction false} DeniedKeepsUnits(log: Log, run: seq<Call>, edge: int)
    requires forall k :: 0 <= k < |run| ==> run[k].Edge() <= edge
    requires AllDenied(log, run)
    ensures UnitsAfter(After(log, run), edge) == UnitsAfter(log, edge)
    decreases |run|
  {
    hide Step;
    if run != [] {
      var n := |run| - 1;
      forall k | 0 <= k < n
        ensures !ReplyAt(log, run[..n], k).allowed
      {
        assert run[..n][..k] == run[..k];
        assert !ReplyAt(log, run, k).allowed;
      }
      assert !ReplyAt(log, run, n).allowed;
      DeniedKeepsUnits(log, run[..n], edge);
      StepKeepsUnits(After(log, run[..n]), run[n], edge);
    }
  }

  /** A check whose cost fits the limit never leaves an empty set behind: the script's last branch is dead for
      it. */
  lemma {:induction false} NeverEmptyWithinLimit(log: Log, c: Call)
    requires c.cost <= c.limit
    ensures Step(log, c).0 != []
  {
  }

  /** The script's last branch: the set is left empty exactly when a cost above the limit finds nothing live, and
      then the reply has the whole limit remaining, and a wait and a reset of one window. */
  lemma {:induction false} HopelessWaitsAWindow(log: Log, c: Call)
    ensures Step(log, c).0 == [] <==> c.cost > c.limit && UnitsAfter(log, c.Edge()) == 0
    ensures Step(log, c).0 == [] ==> Step(log, c).1 == Reply(false, c.limit, c.windowMs, c.now + c.windowMs)
  {
    LiveUnits(log, c.Edge());
    hide UnitsAfter;
    var live := Live(log, c.Edge());
    assert live != [] ==> Units(live) >= live[|live| - 1].cost;
  }

  /** A log that is its own live part keeps every unit until its oldest entry reaches the edge, and loses some
      from then on. */
  lemma {:induction false} OldestGoesFirst(log: Log, edge: int)
    requires log != []
    ensures edge < Oldest(log) ==> UnitsAfter(log, edge) == Units(log)
    ensures edge >= Oldest(log) ==> UnitsAfter(log, edge) < Units(log)
  {
    if edge < Oldest(log) {
      AllLive(log, edge);
    } else {
      var k :| 0 <= k < |log| && Oldest(log) == log[k].time;
      LosesUnits(log, k, edge);
    }
  }

  lemma {:induction false} LosesUnits(log: Log, k: nat, edge: int)
    requires k < |log| && log[k].time <= edge
    ensures UnitsAfter(log, edge) < Units(log)
  {
    var n := |log| - 1;
    assert log == log[..n] + [log[n]];
    AppendIf(log[..n], log[n], true, edge, 0);
    LiveKeepsLater(log[..n], edge, edge);
    hide Units, UnitsAfter;
    if k < n {
      LosesUnits(log[..n], k, edge);
    }
  }

  // ----- resetMs -----

  /** With no later admission, however many checks are denied meanwhile, resetMs is the first instant at which the
      window holds fewer units. */
  lemma {:induction false} ResetIsFirstRelease(log: Log, c: Call, denied: seq<Call>, t: nat)
    requires Step(log, c).0 != [] && c.now <= t
    requires OneWindow(denied, c.windowMs) && forall k :: 0 <= k < |denied| ==> denied[k].now <= t
    requires AllDenied(Step(log, c).0, denied)
    ensures UnitsAfter(After(Step(log, c).0, denied), t - c.windowMs) < Units(Step(log, c).0)
            <==> t >= Step(log, c).1.resetMs
  {
    hide After, Units, UnitsAfter, Oldest, Admits, Kept;
    OldestGoesFirst(Step(log, c).0, t - c.windowMs);
    DeniedKeepsUnits(Step(log, c).0, denied, t - c.windowMs);
  }

  // ----- retryAfterMs -----

  /** The `< 1` clamp never changes the value, in any state and under any clock. */
  lemma {:induction false} RetryClampNeverFires(log: Log, c: Call)
    requires Step(log, c).0 != [] && !Step(log, c).1.allowed
    ensures Step(log, c).1.retryAfterMs == Oldest(Step(log, c).0) + c.windowMs - c.now >= 1
    ensures c.now + Step(log, c).1.retryAfterMs == Step(log, c).1.resetMs
  {
    OldestIsLive(log, c.Edge());
  }

  /** Same rule, at least the cost. */
  ghost predicate AsksAsMuch(probe: Call, c: Call) {
    probe.limit == c.limit && probe.windowMs == c.windowMs && probe.cost >= c.cost
  }

  /** Before the hinted time the cost is denied whatever traffic follows the deny. */
  lemma {:induction false} DeniedBeforeHint(log: Log, c: Call, traffic: seq<Call>, probe: Call)
    requires c.cost <= c.limit && !Step(log, c).1.allowed
    requires OneWindow(traffic, c.windowMs) && forall k :: 0 <= k < |traffic| ==> traffic[k].now <= probe.now
    requires AsksAsMuch(probe, c) && probe.now < c.now + Step(log, c).1.retryAfterMs
    ensures !Step(After(Step(log, c).0, traffic), probe).1.allowed
  {
    var kept := Step(log, c).0;
    NeverEmptyWithinLimit(log, c);
    RetryClampNeverFires(log, c);
    DeniedKeepsAll(log, c);
    hide Step;
    TrafficKeepsUnits(kept, traffic, probe.Edge());
    OldestGoesFirst(kept, probe.Edge());
    StepCounts(After(kept, traffic), probe);
  }

  /** A deny leaves too many units for its own cost. */
  lemma {:induction false} DeniedKeepsAll(log: Log, c: Call)
    requires !Step(log, c).1.allowed
    ensures Units(Step(log, c).0) == UnitsAfter(log, c.Edge())
    ensures Units(Step(log, c).0) + c.cost > c.limit
  {
    LiveUnits(log, c.Edge());
  }

  /** Units that share the lowest score. */
  function OldestUnits(log: Log): nat
    requires log != []
  {
    LiveKeepsLater(log, Oldest(log), Oldest(log));
    Units(log) - UnitsAfter(log, Oldest(log))
  }

  /** A check of the same window and cost that follows a deny, with only denied checks in between. */
  ghost predicate FollowsDeny(log: Log, c: Call, denied: seq<Call>, probe: Call) {
    && !Step(log, c).1.allowed
    && OneWindow(denied, c.windowMs)
    && (forall k :: 0 <= k < |denied| ==> denied[k].now <= probe.now)
    && AllDenied(Step(log, c).0, denied)
    && AsksAsMuch(probe, c) && probe.cost == c.cost
  }

  /** Such a check sees exactly what the deny left and its own window still covers. */
  lemma {:induction false} ProbeAfterDeny(log: Log, c: Call, denied: seq<Call>, probe: Call)
    requires FollowsDeny(log, c, denied, probe)
    ensures Step(After(Step(log, c).0, denied), probe).1.allowed
            <==> UnitsAfter(Step(log, c).0, probe.Edge()) + c.cost <= c.limit
  {
    hide Step;
    DeniedKeepsUnits(Step(log, c).0, denied, probe.Edge());
    StepCounts(After(Step(log, c).0, denied), probe);
  }

  /** At the hinted time, with nothing admitted in between, the same cost is admitted exactly when the units of
      the oldest instant make enough room for it: the hint looks at the oldest entry only. */
  lemma {:induction false} AdmittedAtHintIff(log: Log, c: Call, denied: seq<Call>, probe: Call)
    requires c.cost <= c.limit && FollowsDeny(log, c, denied, probe)
    requires probe.now == c.now + Step(log, c).1.retryAfterMs
    ensures Step(log, c).0 != []
    ensures Step(After(Step(log, c).0, denied), probe).1.allowed
            <==> Units(Step(log, c).0) + c.cost <= c.limit + OldestUnits(Step(log, c).0)
  {
    NeverEmptyWithinLimit(log, c);
    RetryClampNeverFires(log, c);
    hide Step, Units, UnitsAfter, Oldest;
    assert probe.Edge() == Oldest(Step(log, c).0);
    ProbeAfterDeny(log, c, denied, probe);
  }

  /** Cost 1, one limit, nothing admitted in between: the hint is exact, from the hinted time on for ever. */
  lemma {:induction false} UnitCostAdmittedFromHint(log: Log, c: Call, denied: seq<Call>, probe: Call)
    requires c.cost == 1 <= c.limit && Units(log) <= c.limit && FollowsDeny(log, c, denied, probe)
    requires probe.now >= c.now + Step(log, c).1.retryAfterMs
    ensures Step(After(Step(log, c).0, denied), probe).1.allowed
  {
    NeverEmptyWithinLimit(log, c);
    RetryClampNeverFires(log, c);
    ProbeAfterDeny(log, c, denied, probe);
    DeniedKeepsAll(log, c);
    LiveKeepsLater(log, c.Edge(), c.Edge());
    hide Step;
    OldestGoesFirst(Step(log, c).0, probe.Edge());
  }

  /** A key never stores more units than the largest limit in use. */
  lemma {:induction false} StoredUnitsWithinLimit(run: seq<Call>, limit: nat)
    requires forall k :: 0 <= k < |run| ==> run[k].limit <= limit
    ensures Units(After([], run)) <= limit
    decreases |run|
  {
    if run != [] {
      var n := |run| - 1;
      StoredUnitsWithinLimit(run[..n], limit);
      var log := After([], run[..n]);
      LiveUnits(log, run[n].Edge());
      LiveKeepsLater(log, run[n].Edge(), run[n].Edge());
      AppendIf(Live(log, run[n].Edge()), run[n].Entry(), Admits(log, run[n]), 0, 0);
    }
  }

  const FIRST := Admission(0, 1, "a")
  const SECOND := Admission(5, 1, "b")

  /** For cost 2 the hint can be early: two units spaced in time, of which only the first has left by then. */
  lemma {:induction false} HintCanBeEarly()
    ensures var r := Step([FIRST, SECOND], Call(2, 10, 2, 6, "c"));
            !r.1.allowed && r.1.retryAfterMs == 4 && !Step(r.0, Call(2, 10, 2, 10, "d")).1.allowed
  {
    var log, c := [FIRST, SECOND], Call(2, 10, 2, 6, "c");
    assert log == [FIRST] + [SECOND];
    AppendIf([], FIRST, true, 0, 0);
    AppendIf([FIRST], SECOND, true, 0, 0);
    assert UnitsAfter(log, 0) == 1;
    AllLive(log, c.Edge());
    assert Units(log) == 2;
    StepCounts(log, c);
    StepCounts(log, Call(2, 10, 2, 10, "d"));
    assert Oldest(log) == 0;
  }

  // ----- remaining, and unit checks at one instant -----

  /** Unit-cost checks under one rule at one instant. */
  ghost predicate UnitBurst(run: seq<Call>, limit: nat, windowMs: pos, now: nat) {
    forall k :: 0 <= k < |run| ==>
      run[k].limit == limit && run[k].windowMs == windowMs && run[k].cost == 1 && run[k].now == now
  }

  /** Of any number of unit checks at one instant exactly as many pass as there is room for in the window. */
  lemma {:induction false} BurstFillsRoom(log: Log, run: seq<Call>, n: nat, limit: nat, windowMs: pos, now: nat)
    requires n <= |run| && UnitBurst(run, limit, windowMs, now)
    ensures var used := UnitsAfter(log, now - windowMs);
            var room := Max(0, limit - used);
            && UnitsAfter(After(log, run[..n]), now - windowMs) == used + (if n <= room then n else room)
            && (n < |run| ==> (ReplyAt(log, run, n).allowed <==> n < room))
    decreases n
  {
    hide Step, Units, UnitsAfter;
    var edge := now - windowMs;
    if n == 0 {
      assert run[..0] == [];
    } else {
      BurstFillsRoom(log, run, n - 1, limit, windowMs, now);
      var before := After(log, run[..n - 1]);
      assert run[..n] == run[..n - 1] + [run[n - 1]];
      AfterNext(log, run[..n - 1], run[n - 1]);
      StepKeepsUnits(before, run[n - 1], edge);
    }
    if n < |run| {
      StepCounts(After(log, run[..n]), run[n]);
    }
  }

  /** After a reply with `remaining` == m, exactly the next m unit checks at that instant pass, in any state. */
  lemma {:induction false} RemainingIsExact(log: Log, c: Call, run: seq<Call>, k: nat)
    requires k < |run| && UnitBurst(run, c.limit, c.windowMs, c.now)
    ensures ReplyAt(Step(log, c).0, run, k).allowed <==> k < Step(log, c).1.remaining
  {
    hide Step;
    StepCounts(log, c);
    BurstFillsRoom(Step(log, c).0, run, k, c.limit, c.windowMs, c.now);
  }

  /** n simultaneous unit checks on a fresh key admit min(n, limit). */
  lemma {:induction false} StormOnFreshKey(run: seq<Call>, n: nat, limit: nat, windowMs: pos, now: nat)
    requires n <= |run| && UnitBurst(run, limit, windowMs, now)
    ensures Count(Admissions(run), 0, n) == if n <= limit then n else limit
    decreases n
  {
    hide Step;
    if n > 0 {
      StormOnFreshKey(run, n - 1, limit, windowMs, now);
      BurstFillsRoom([], run, n - 1, limit, windowMs, now);
    }
  }

  // ----- the TTL -----

  /** From its deadline on the stored log is indistinguishable from a missing key to every check that looks back no
      further than the last one did. */
  lemma {:induction false} EmptyFromTtlOn(run: seq<Call>, c: Call)
    requires run != [] && Nondecreasing(run)
    requires var last := run[|run| - 1]; c.windowMs <= last.windowMs && c.now >= last.now + last.windowMs
    ensures Live(After([], run), c.Edge()) == []
    ensures Step(After([], run), c) == Step([], c)
  {
    hide Step, After;
    forall a | a in After([], run)
      ensures a.time <= c.Edge()
    {
      assert run[..|run|] == run;
      var i := StoredWasAdmitted(run, |run|, a);
    }
    NoneLive(After([], run), c.Edge());
    OneStepFromLive(After([], run), [], c);
  }

  /** And no earlier: the entry of an admitted check is live to exactly the checks whose window reaches back to
      it. */
  lemma {:induction false} LiveBeforeTtl(log: Log, last: Call, c: Call)
    requires Step(log, last).1.allowed && c.now < last.now + c.windowMs
    ensures Live(Step(log, last).0, c.Edge()) != []
  {
    AppendIf(Live(log, last.Edge()), last.Entry(), true, c.Edge(), 0);
  }

  /** After an edit of the window length, expiry at any moment from the deadline of an admitted check on is invisible
      exactly when the new length is not longer than the one the deadline was set for. */
  lemma {:induction false} ExpiryInvisibleIff(run: seq<Call>, windowMs': pos)
    requires run != [] && Nondecreasing(run) && Allowed(run, |run| - 1)
    ensures var last := run[|run| - 1];
            (forall c: Call :: c.windowMs == windowMs' && c.now >= last.now + last.windowMs ==>
               Step(After([], run), c).1 == Step([], c).1)
            <==> windowMs' <= last.windowMs
  {
    hide Step, After;
    var last := run[|run| - 1];
    if windowMs' <= last.windowMs {
      forall c: Call | c.windowMs == windowMs' && c.now >= last.now + last.windowMs
        ensures Step(After([], run), c).1 == Step([], c).1
      {
        EmptyFromTtlOn(run, c);
      }
    } else {
      StillCounted(run, Call(1, windowMs', 1, last.now + last.windowMs, ""));
    }
  }

  /** A limit of one is still used up by an admission that the window reaches. */
  lemma {:induction false} StillCounted(run: seq<Call>, c: Call)
    requires run != [] && Allowed(run, |run| - 1) && c.limit == 1
    requires c.now < run[|run| - 1].now + c.windowMs
    ensures !Step(After([], run), c).1.allowed
    ensures c.cost == 1 ==> Step([], c).1.allowed
  {
    var n := |run| - 1;
    LiveBeforeTtl(After([], run[..n]), run[n], c);
    hide Answer, Oldest;
    assert Units(Live(After([], run), c.Edge())) >= 1;
  }

  /** A check depends on nothing but the live part of the log. */
  lemma {:induction false} OneStepFromLive(log: Log, log': Log, c: Call)
    requires Live(log, c.Edge()) == Live(log', c.Edge())
    ensures Step(log, c) == Step(log', c)
  {
  }
}
