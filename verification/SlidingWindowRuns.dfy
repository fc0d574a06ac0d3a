/** Whole runs of the sliding-window script: the pruned log answers like the full history, no window ever holds
    more than its limit, and no schedule within the limit admits more. */
module SlidingWindowRuns {
  import opened Numbers
  import opened Schedules
  import opened SlidingWindow

  ghost predicate OneWindow(run: seq<Call>, windowMs: pos) {
    forall k :: 0 <= k < |run| ==> run[k].windowMs == windowMs
  }

  ghost predicate Nondecreasing(run: seq<Call>) {
    forall j, k :: 0 <= j <= k < |run| ==> run[j].now <= run[k].now
  }

  /** No check looks further back than the one before it. */
  ghost predicate Shrinking(run: seq<Call>) {
    forall j, k :: 0 <= j <= k < |run| ==> run[j].windowMs >= run[k].windowMs
  }

  /** A nondecreasing clock, and a window length that stays or gets shorter; the limit may change at will. */
  ghost predicate Steady(run: seq<Call>) {
    Nondecreasing(run) && Shrinking(run)
  }

  lemma {:induction false} SteadyPrefix(run: seq<Call>, n: nat)
    requires n <= |run| && Steady(run)
    ensures Steady(run[..n])
    ensures n < |run| ==>
              forall k :: 0 <= k < n ==> run[..n][k].now <= run[n].now && run[..n][k].windowMs >= run[n].windowMs
  {
  }

  function Allowed(run: seq<Call>, n: nat): bool
    requires n < |run|
  {
    ReplyAt([], run, n).allowed
  }

  /** Everything the script ever admitted. */
  function Admitted(run: seq<Call>): Log {
    if run == [] then []
    else
      var n := |run| - 1;
      var log := Admitted(run[..n]);
      if Allowed(run, n) then log + [run[n].Entry()] else log
  }

  /** Everything the script ever admitted and then evicted. */
  function Evicted(run: seq<Call>): Log {
    if run == [] then []
    else
      var n := |run| - 1;
      Evicted(run[..n]) + Dead(After([], run[..n]), run[n].Edge())
  }

  function Dead(log: Log, edge: int): (dead: Log)
    ensures forall a :: a in dead <==> a in log && a.time <= edge
  {
    if log == [] then []
    else
      var n := |log| - 1;
      var dead := Dead(log[..n], edge);
      assert forall a :: a in log <==> a in log[..n] || a == log[n];
      if log[n].time <= edge then dead + [log[n]] else dead
  }

  lemma {:induction false} AdmittedNext(run: seq<Call>, n: nat, lo: int, hi: int)
    requires n < |run|
    ensures Admitted(run[..n + 1])
            == if Allowed(run, n) then Admitted(run[..n]) + [run[n].Entry()] else Admitted(run[..n])
    ensures UnitsAfter(Admitted(run[..n + 1]), lo)
            == UnitsAfter(Admitted(run[..n]), lo) + (if Allowed(run, n) && run[n].now > lo then run[n].cost else 0)
    ensures UnitsIn(Admitted(run[..n + 1]), lo, hi)
            == UnitsIn(Admitted(run[..n]), lo, hi)
               + (if Allowed(run, n) && lo < run[n].now <= hi then run[n].cost else 0)
  {
    assert run[..n + 1][..n] == run[..n];
    AppendIf(Admitted(run[..n]), run[n].Entry(), Allowed(run, n), lo, hi);
  }

  // ----- any clock: no unit is lost or made up -----

  lemma {:induction false} UnitsAfterConcat(a: Log, b: Log, edge: int)
    ensures UnitsAfter(a + b, edge) == UnitsAfter(a, edge) + UnitsAfter(b, edge)
    decreases |b|
  {
    if b == [] {
      assert a + b == a;
    } else {
      var n := |b| - 1;
      assert (a + b)[..|a| + n] == a + b[..n];
      UnitsAfterConcat(a, b[..n], edge);
    }
  }

  lemma {:induction false} DeadOrLive(log: Log, cut: int, edge: int)
    ensures UnitsAfter(log, edge) == UnitsAfter(Dead(log, cut), edge) + UnitsAfter(Live(log, cut), edge)
  {
    if log != [] {
      var n := |log| - 1;
      DeadOrLive(log[..n], cut, edge);
      AppendIf(Dead(log[..n], cut), log[n], log[n].time <= cut, edge, 0);
      AppendIf(Live(log[..n], cut), log[n], log[n].time > cut, edge, 0);
    }
  }

  /** Under any clock and any rules, what was admitted after an edge is what the key still stores after it plus
      what was evicted after it. */
  lemma {:induction false} UnitsAreConserved(run: seq<Call>, edge: int)
    ensures UnitsAfter(Admitted(run), edge) == UnitsAfter(After([], run), edge) + UnitsAfter(Evicted(run), edge)
    decreases |run|
  {
    hide Answer;
    if run != [] {
      var n := |run| - 1;
      var pre, c := run[..n], run[n];
      var log := After([], pre);
      UnitsAreConserved(pre, edge);
      DeadOrLive(log, c.Edge(), edge);
      UnitsAfterConcat(Evicted(pre), Dead(log, c.Edge()), edge);
      AppendIf(Admitted(pre), c.Entry(), Admits(log, c), edge, 0);
      AppendIf(Live(log, c.Edge()), c.Entry(), Admits(log, c), edge, 0);
    }
  }

  lemma {:induction false} EmptyAtStart(run: seq<Call>, edge: int)
    ensures After([], run[..0]) == []
    ensures UnitsAfter(Evicted(run[..0]), edge) == 0 == UnitsAfter(Admitted(run[..0]), edge)
    ensures Admitted(run[..0]) == []
  {
  }

  /** What is stored after check n: what it did not evict, and its own entry if it was admitted. */
  lemma {:induction false} StoredNext(run: seq<Call>, n: nat, a: Admission)
    requires n < |run|
    ensures a in After([], run[..n + 1])
            <==> (a in After([], run[..n]) && a.time > run[n].Edge()) || (Allowed(run, n) && a == run[n].Entry())
  {
    hide Answer, Units;
    assert run[..n + 1][..n] == run[..n];
    assert a in Live(After([], run[..n]), run[n].Edge()) <==> a in After([], run[..n]) && a.time > run[n].Edge();
  }

  /** Everything stored was admitted by some check. */
  lemma {:induction false} StoredWasAdmitted(run: seq<Call>, n: nat, a: Admission) returns (i: nat)
    requires n <= |run| && a in After([], run[..n])
    ensures i < n && Allowed(run, i) && a == run[i].Entry()
    decreases n
  {
    hide After, Allowed;
    if n == 0 {
      EmptyAtStart(run, 0);
    } else {
      StoredNext(run, n - 1, a);
      if a in After([], run[..n - 1]) {
        i := StoredWasAdmitted(run, n - 1, a);
      } else {
        i := n - 1;
      }
    }
  }

  // ----- any clock: which admissions a check counts -----

  /** A check before check n swept past the time of check i. */
  ghost predicate SweptBefore(run: seq<Call>, i: nat, n: nat)
    requires i < n <= |run|
  {
    exists j :: i < j < n && run[j].Edge() >= run[i].now
  }

  /** The first n checks that were admitted in (lo, hi]. */
  ghost function InWindow(run: seq<Call>, n: nat, lo: int, hi: int): set<nat>
    requires n <= |run|
  {
    set i: nat | i < n && Allowed(run, i) && lo < run[i].now <= hi
  }

  /** The first n checks that were admitted after `edge` and not swept past since. */
  ghost function Unswept(run: seq<Call>, n: nat, edge: int): set<nat>
    requires n <= |run|
  {
    set i: nat | i < n && Allowed(run, i) && run[i].now > edge && !SweptBefore(run, i, n)
  }

  /** Cost of those of the first n checks that are in s. */
  function CostOf(run: seq<Call>, s: set<nat>, n: nat): nat
    requires n <= |run|
  {
    if n == 0 then 0 else CostOf(run, s, n - 1) + if n - 1 in s then run[n - 1].cost else 0
  }

  lemma {:induction false} CostOfSame(run: seq<Call>, s: set<nat>, s': set<nat>, n: nat)
    requires n <= |run| && forall i: nat :: i < n ==> (i in s <==> i in s')
    ensures CostOf(run, s, n) == CostOf(run, s', n)
    decreases n
  {
    if n > 0 {
      CostOfSame(run, s, s', n - 1);
    }
  }

  lemma {:induction false} CostOfDifference(run: seq<Call>, a: set<nat>, b: set<nat>, n: nat)
    requires n <= |run|
    ensures CostOf(run, a, n) + CostOf(run, b - a, n) == CostOf(run, b, n) + CostOf(run, a - b, n)
    decreases n
  {
    if n > 0 {
      CostOfDifference(run, a, b, n - 1);
    }
  }

  lemma {:induction false} CostOfSubset(run: seq<Call>, s: set<nat>, s': set<nat>, n: nat)
    requires n <= |run| && s <= s'
    ensures CostOf(run, s, n) <= CostOf(run, s', n)
    decreases n
  {
    if n > 0 {
      CostOfSubset(run, s, s', n - 1);
    }
  }

  lemma {:induction false} CostOfTwo(run: seq<Call>, s: set<nat>, i: nat, k: nat, n: nat)
    requires i < k < n <= |run| && i in s && k in s
    ensures CostOf(run, s, n) >= run[i].cost + run[k].cost
    decreases n
  {
    if k < n - 1 {
      CostOfTwo(run, s, i, k, n - 1);
    } else {
      CostOfSubset(run, {i}, s, k);
      CostOfOne(run, i, k);
    }
  }

  lemma {:induction false} CostOfOne(run: seq<Call>, i: nat, n: nat)
    requires i < n <= |run|
    ensures CostOf(run, {i}, n) == run[i].cost
    decreases n
  {
    if i < n - 1 {
      CostOfOne(run, i, n - 1);
    } else {
      CostOfNone(run, {i}, i);
    }
  }

  lemma {:induction false} CostOfNone(run: seq<Call>, s: set<nat>, n: nat)
    requires n <= |run|
    ensures CostOf(run, s, n) > 0 <==> exists i: nat :: i < n && i in s
    decreases n
  {
    if n > 0 {
      CostOfNone(run, s, n - 1);
    }
  }

  lemma {:induction false} AdmittedIsInWindow(run: seq<Call>, n: nat, lo: int, hi: int)
    requires n <= |run|
    ensures UnitsIn(Admitted(run[..n]), lo, hi) == CostOf(run, InWindow(run, n, lo, hi), n)
    decreases n
  {
    hide Allowed, Admitted, UnitsIn, UnitsAfter;
    if n == 0 {
      NothingInWindow(run, lo, hi);
    } else {
      AdmittedNext(run, n - 1, lo, hi);
      AdmittedIsInWindow(run, n - 1, lo, hi);
      CostOfSame(run, InWindow(run, n - 1, lo, hi), InWindow(run, n, lo, hi), n - 1);
    }
  }

  lemma {:induction false} NothingInWindow(run: seq<Call>, lo: int, hi: int)
    ensures UnitsIn(Admitted(run[..0]), lo, hi) == 0
  {
  }

  /** What one more check leaves after an edge: what lies after its own edge too, and its own cost. */
  lemma {:induction false} StoredUnitsNext(run: seq<Call>, n: nat, edge: int)
    requires n < |run|
    ensures UnitsAfter(After([], run[..n + 1]), edge)
            == UnitsAfter(After([], run[..n]), Max(edge, run[n].Edge()))
               + if Allowed(run, n) && run[n].now > edge then run[n].cost else 0
  {
    hide Answer, Units, Live, UnitsAfter;
    var log, c := After([], run[..n]), run[n];
    assert run[..n + 1][..n] == run[..n];
    AppendIf(Live(log, c.Edge()), c.Entry(), Admits(log, c), edge, 0);
    LiveTwice(log, c.Edge(), edge);
    LiveUnits(Live(log, c.Edge()), edge);
    LiveUnits(log, Max(edge, c.Edge()));
  }

  /** Under any clock and any rules, the key stores after `edge` exactly what was admitted after it and not swept
      past since. */
  lemma {:induction false} StoredIsUnswept(run: seq<Call>, n: nat, edge: int)
    requires n <= |run|
    ensures UnitsAfter(After([], run[..n]), edge) == CostOf(run, Unswept(run, n, edge), n)
    decreases n
  {
    hide Allowed, After, UnitsAfter;
    if n == 0 {
      EmptyAtStart(run, edge);
    } else {
      var cut := Max(edge, run[n - 1].Edge());
      StoredUnitsNext(run, n - 1, edge);
      StoredIsUnswept(run, n - 1, cut);
      forall i: nat | i < n - 1
        ensures i in Unswept(run, n - 1, cut) <==> i in Unswept(run, n, edge)
      {
        SweptNext(run, i, n - 1);
      }
      CostOfSame(run, Unswept(run, n - 1, cut), Unswept(run, n, edge), n - 1);
    }
  }

  lemma {:induction false} SweptNext(run: seq<Call>, i: nat, n: nat)
    requires i < n < |run|
    ensures SweptBefore(run, i, n + 1) <==> SweptBefore(run, i, n) || run[n].Edge() >= run[i].now
  {
    if SweptBefore(run, i, n + 1) {
      var j :| i < j < n + 1 && run[j].Edge() >= run[i].now;
    }
  }

  /** Under any clock and any rules a check passes exactly when the admissions not swept past before leave room. */
  lemma {:induction false} AdmittedIffUnsweptRoom(run: seq<Call>, n: nat)
    requires n < |run|
    ensures Allowed(run, n) <==> CostOf(run, Unswept(run, n, run[n].Edge()), n) + run[n].cost <= run[n].limit
  {
    hide Unswept, CostOf, Answer;
    LiveUnits(After([], run[..n]), run[n].Edge());
    StoredIsUnswept(run, n, run[n].Edge());
  }

  /** What the count of a check that follows the run misses: its window's admissions that were swept past before. */
  ghost function Missing(run: seq<Call>, c: Call): nat {
    CostOf(run, InWindow(run, |run|, c.Edge(), c.now) - Unswept(run, |run|, c.Edge()), |run|)
  }

  /** What it counts although it lies after the check: admissions of a later clock not swept past yet. */
  ghost function Extra(run: seq<Call>, c: Call): nat {
    CostOf(run, Unswept(run, |run|, c.Edge()) - InWindow(run, |run|, c.Edge(), c.now), |run|)
  }

  /** The account of every count, for any clock and any rules. Units of the window (now - windowMs, now] are missing
      exactly when an earlier check, under a later clock or a shorter window, swept past one of its admissions; units
      outside it are counted exactly when an admission of a later time is still there. So the count is right exactly
      when both amount to the same, and that is a matter of times, windows, costs and replies alone. */
  lemma {:induction false} CountIsRightIff(run: seq<Call>, c: Call)
    ensures var count, truth := Units(Live(After([], run), c.Edge())), UnitsIn(Admitted(run), c.Edge(), c.now);
            && count + Missing(run, c) == truth + Extra(run, c)
            && (count == truth <==> Missing(run, c) == Extra(run, c))
    ensures Missing(run, c) > 0
            <==> exists i: nat ::
                   i < |run| && Allowed(run, i) && c.Edge() < run[i].now <= c.now && SweptBefore(run, i, |run|)
    ensures Extra(run, c) > 0
            <==> exists i: nat :: i < |run| && Allowed(run, i) && run[i].now > c.now && !SweptBefore(run, i, |run|)
  {
    hide Allowed, Admitted, After, UnitsIn, UnitsAfter, Units, Live, SweptBefore;
    var n, edge := |run|, c.Edge();
    var live, window := Unswept(run, n, edge), InWindow(run, n, edge, c.now);
    assert run[..n] == run;
    LiveUnits(After([], run), edge);
    StoredIsUnswept(run, n, edge);
    AdmittedIsInWindow(run, n, edge, c.now);
    CostOfDifference(run, live, window, n);
    CostOfNone(run, window - live, n);
    CostOfNone(run, live - window, n);
    forall i: nat | i < n
      ensures i in window - live
              <==> Allowed(run, i) && edge < run[i].now <= c.now && SweptBefore(run, i, n)
      ensures i in live - window <==> Allowed(run, i) && run[i].now > c.now && !SweptBefore(run, i, n)
    {
    }
  }

  const A := Call(2, 10, 2, 0, "a")
  const B := Call(2, 10, 1, 10, "b")
  const C := Call(2, 10, 1, 1, "c")

  /** The clock hypothesis is needed: limit 2, window 10, and the window (-1, 9] ends up with three units. */
  lemma {:induction false} BackwardClockOverfillsWindow()
    ensures Allowed([A, B, C], 0) && Allowed([A, B, C], 1) && Allowed([A, B, C], 2)
    ensures UnitsIn(Admitted([A, B, C]), -1, 9) == 3
  {
    hide Allowed, Admitted, UnitsIn;
    var run := [A, B, C];
    AllThreePass();
    assert run[..3] == run;
    NothingInWindow(run, -1, 9);
    AdmittedNext(run, 0, -1, 9);
    AdmittedNext(run, 1, -1, 9);
    AdmittedNext(run, 2, -1, 9);
  }

  lemma {:induction false} AllThreePass()
    ensures Allowed([A, B, C], 0) && Allowed([A, B, C], 1) && Allowed([A, B, C], 2)
  {
    hide Step, After;
    var run := [A, B, C];
    assert run[..0] == [] && run[..1] == [] + [A] == [A] && run[..2] == [A] + [B];
    StepsOfBackwardClock();
    EmptyAtStart(run, 0);
    AfterNext([], [], A);
    AfterNext([], [A], B);
  }

  lemma {:induction false} StepsOfBackwardClock()
    ensures Step([], A).1.allowed && Step([], A).0 == [A.Entry()]
    ensures Step([A.Entry()], B).1.allowed && Step([A.Entry()], B).0 == [B.Entry()]
    ensures Step([B.Entry()], C).1.allowed
  {
    hide Answer;
    AppendIf([], A.Entry(), true, 0, 0);
    AppendIf([], B.Entry(), true, -9, 0);
  }

  // ----- a nondecreasing clock: the pruned log answers like the full history -----

  /** The edge of the last check; below every score before the first. */
  function LastEdge(run: seq<Call>): int {
    if run == [] then -1 else run[|run| - 1].Edge()
  }

  /** Same limiter, seen by its replies: on a steady run the script's log is the naive log cut at the last edge. */
  lemma {:induction false} PrunedLogRefinesFullHistory(run: seq<Call>)
    requires Steady(run)
    ensures After([], run) == Live(NaiveAfter(run), LastEdge(run))
    ensures Replies([], run) == NaiveReplies(run)
    ensures forall a :: a in NaiveAfter(run) ==> run != [] && a.time <= run[|run| - 1].now
    decreases |run|
  {
    hide Step, NaiveStep, Live, After, NaiveAfter, Replies, NaiveReplies, Steady;
    if run == [] {
      NothingYet(run);
    } else {
      var n := |run| - 1;
      var pre, c := run[..n], run[n];
      assert run == pre + [c];
      SteadyPrefix(run, n);
      PrunedLogRefinesFullHistory(pre);
      AgreeAtNextEdge(run, n);
      AfterNext([], pre, c);
      NaiveNext(pre, c);
      OneStepAgrees(After([], pre), NaiveAfter(pre), c);
      NaiveTimes(NaiveAfter(pre), c);
    }
  }

  lemma {:induction false} NothingYet(run: seq<Call>)
    requires run == []
    ensures After([], run) == Live(NaiveAfter(run), LastEdge(run)) && Replies([], run) == NaiveReplies(run)
    ensures NaiveAfter(run) == []
  {
  }

  lemma {:induction false} AgreeAtNextEdge(run: seq<Call>, n: nat)
    requires |run| == n + 1 && Steady(run)
    requires After([], run[..n]) == Live(NaiveAfter(run[..n]), LastEdge(run[..n]))
    requires forall a :: a in NaiveAfter(run[..n]) ==> n > 0 && a.time <= run[n - 1].now
    ensures Live(After([], run[..n]), run[n].Edge()) == Live(NaiveAfter(run[..n]), run[n].Edge())
    ensures forall a :: a in NaiveAfter(run[..n]) ==> a.time <= run[n].now
  {
    hide Live, After, NaiveAfter;
    if n == 0 {
      NothingYet(run[..0]);
      NoneLive([], -1);
    } else {
      LiveTwice(NaiveAfter(run[..n]), LastEdge(run[..n]), run[n].Edge());
    }
  }

  lemma {:induction false} NaiveTimes(full: Log, c: Call)
    requires forall a :: a in full ==> a.time <= c.now
    ensures forall a :: a in NaiveStep(full, c).0 ==> a.time <= c.now
  {
    hide NaiveAnswer, NaiveAdmits;
  }

  /** What is read off the cut log is what is read off the full one; in particular the lower clamp on
      retryAfterMs changes nothing. */
  lemma {:induction false} SameAnswer(full: Log, allowed: bool, c: Call)
    ensures Answer(Live(full, c.Edge()), allowed, c) == NaiveAnswer(full, allowed, c)
  {
    hide Live, Units, UnitsAfter, OldestAfter, Oldest;
    LiveUnits(full, c.Edge());
    LiveOldest(full, c.Edge());
    var live := Live(full, c.Edge());
    if live != [] {
      OldestIsLive(full, c.Edge());
    }
  }

  /** If the stored log and the full history agree after the edge, one check does the same on both. */
  lemma {:induction false} OneStepAgrees(log: Log, full: Log, c: Call)
    requires Live(log, c.Edge()) == Live(full, c.Edge())
    ensures Step(log, c).1 == NaiveStep(full, c).1
    ensures Step(log, c).0 == Live(NaiveStep(full, c).0, c.Edge())
  {
    hide Answer, NaiveAnswer;
    LiveUnits(full, c.Edge());
    AppendIf(full, c.Entry(), Admits(log, c), c.Edge(), 0);
    SameAnswer(NaiveStep(full, c).0, Admits(log, c), c);
  }

  lemma {:induction false} AdmittedIsNaiveLog(run: seq<Call>)
    requires Steady(run)
    ensures Admitted(run) == NaiveAfter(run)
    decreases |run|
  {
    hide After, Answer, NaiveAnswer, NaiveAdmits, Live, Units;
    if run != [] {
      var n := |run| - 1;
      assert run == run[..n] + [run[n]];
      SteadyPrefix(run, n);
      AdmittedIsNaiveLog(run[..n]);
      PrunedLogRefinesFullHistory(run);
      NaiveNext(run[..n], run[n]);
      assert Replies([], run)[n] == NaiveReplies(run)[n];
    }
  }

  /** On a steady run a check is admitted exactly when the true count of its window leaves room. */
  lemma {:induction false} AdmittedIffRoom(run: seq<Call>, n: nat)
    requires n < |run| && Steady(run)
    ensures Allowed(run, n) <==> UnitsAfter(Admitted(run[..n]), run[n].Edge()) + run[n].cost <= run[n].limit
  {
    SteadyPrefix(run, n);
    AdmittedIsNaiveLog(run[..n]);
    PrunedLogRefinesFullHistory(run);
    assert Replies([], run)[n] == NaiveReplies(run)[n];
  }

  // ----- exactness -----

  /** The limit used by the last admission at or before t; 0 if there is none. */
  function LastAdmittedLimit(run: seq<Call>, t: int): nat {
    if run == [] then 0
    else
      var n := |run| - 1;
      if Allowed(run, n) && run[n].now <= t then run[n].limit else LastAdmittedLimit(run[..n], t)
  }

  lemma {:induction false} WindowWithinLive(log: Log, lo: int, hi: int, edge: int)
    requires edge <= lo
    ensures UnitsIn(log, lo, hi) <= UnitsAfter(log, edge)
  {
    if log != [] {
      WindowWithinLive(log[..|log| - 1], lo, hi, edge);
    }
  }

  /** For every instant t, the cost ever admitted in (t - window, t] is at most the limit in force at the last
      admission of that window, although the script keeps only the pruned log. The window may be any that every check
      of the run looked back over: the one in use, or the shortest if it has been shortened. */
  lemma {:induction false} NoWindowExceedsItsLimit(run: seq<Call>, windowMs: pos, t: int)
    requires Steady(run) && forall k :: 0 <= k < |run| ==> run[k].windowMs >= windowMs
    ensures UnitsIn(Admitted(run), t - windowMs, t) <= LastAdmittedLimit(run, t)
    decreases |run|
  {
    if run != [] {
      var n := |run| - 1;
      SteadyPrefix(run, n);
      NoWindowExceedsItsLimit(run[..n], windowMs, t);
      NextAdmissionFits(run, windowMs, n, t);
      assert run[..n + 1] == run;
    }
  }

  /** One more check keeps the windows ending at t within the limits. */
  lemma {:induction false} NextAdmissionFits(run: seq<Call>, windowMs: pos, n: nat, t: int)
    requires n < |run| && Steady(run) && run[n].windowMs >= windowMs
    ensures Allowed(run, n) && run[n].now <= t ==> UnitsIn(Admitted(run[..n + 1]), t - windowMs, t) <= run[n].limit
    ensures !Allowed(run, n) || run[n].now > t ==>
              UnitsIn(Admitted(run[..n + 1]), t - windowMs, t) == UnitsIn(Admitted(run[..n]), t - windowMs, t)
  {
    hide Allowed, Admitted, UnitsAfter, UnitsIn;
    AdmittedNext(run, n, t - windowMs, t);
    if Allowed(run, n) && run[n].now <= t {
      AdmittedIffRoom(run, n);
      WindowWithinLive(Admitted(run[..n]), t - windowMs, t, run[n].Edge());
    }
  }

  // ----- which clocks keep the documented guarantee -----

  /** A run at these times: any costs, one limit, one window length. */
  ghost predicate OnClock(v: seq<Call>, times: seq<nat>, limit: nat, windowMs: pos) {
    && |v| == |times|
    && forall k :: 0 <= k < |v| ==> v[k].now == times[k] && v[k].limit == limit && v[k].windowMs == windowMs
  }

  /** Some window of this length holds both instants. */
  predicate Close(t: nat, t': nat, windowMs: pos) {
    t < t' + windowMs && t' < t + windowMs
  }

  /** The clock leaves an instant a whole window behind and later comes back near it. */
  ghost predicate ComesBack(times: seq<nat>, windowMs: pos) {
    exists i, j, k ::
      0 <= i < j < k < |times| && times[j] >= times[i] + windowMs && Close(times[i], times[k], windowMs)
  }

  ghost predicate WithinLimit(v: seq<Call>, limit: nat, windowMs: pos, t: int) {
    UnitsIn(Admitted(v), t - windowMs, t) <= limit
  }

  lemma {:induction false} StaysWithinLimit(v: seq<Call>, times: seq<nat>, limit: nat, windowMs: pos, n: nat, t: int)
    requires OnClock(v, times, limit, windowMs) && !ComesBack(times, windowMs) && n <= |v|
    ensures UnitsIn(Admitted(v[..n]), t - windowMs, t) <= limit
    decreases n
  {
    hide Allowed, Admitted, UnitsIn, UnitsAfter;
    if n == 0 {
      NothingInWindow(v, t - windowMs, t);
    } else {
      var m := n - 1;
      StaysWithinLimit(v, times, limit, windowMs, m, t);
      AdmittedNext(v, m, t - windowMs, t);
      if Allowed(v, m) && t - windowMs < v[m].now <= t {
        AdmittedIffUnsweptRoom(v, m);
        AdmittedIsInWindow(v, m, t - windowMs, t);
        forall i | i in InWindow(v, m, t - windowMs, t)
          ensures i in Unswept(v, m, v[m].Edge())
        {
          assert Close(times[i], times[m], windowMs);
          assert forall j :: i < j < m ==> v[j].Edge() == times[j] - windowMs;
        }
        CostOfSubset(v, InWindow(v, m, t - windowMs, t), Unswept(v, m, v[m].Edge()), m);
      }
    }
  }

  lemma {:induction false} WholeRunStaysWithin(v: seq<Call>, times: seq<nat>, limit: nat, windowMs: pos, t: int)
    requires OnClock(v, times, limit, windowMs) && !ComesBack(times, windowMs)
    ensures WithinLimit(v, limit, windowMs, t)
  {
    assert v[..|v|] == v;
    StaysWithinLimit(v, times, limit, windowMs, |v|, t);
  }

  /** Limit 1; checks i and k ask for one unit, all others for two. */
  function AskTwice(times: seq<nat>, i: nat, k: nat, windowMs: pos): (v: seq<Call>)
    ensures |v| == |times|
  {
    seq(|times|, m requires 0 <= m < |times| => Call(1, windowMs, if m == i || m == k then 1 else 2, times[m], ""))
  }

  /** If check j forgets check i, check k passes as well. */
  lemma {:induction false} BothPass(times: seq<nat>, i: nat, j: nat, k: nat, windowMs: pos)
    requires i < j < k < |times| && times[j] >= times[i] + windowMs
    ensures Allowed(AskTwice(times, i, k, windowMs), i) && Allowed(AskTwice(times, i, k, windowMs), k)
  {
    hide Allowed, CostOf;
    var v := AskTwice(times, i, k, windowMs);
    forall m | 0 <= m < k && m != i
      ensures !Allowed(v, m)
    {
      AdmittedIffUnsweptRoom(v, m);
    }
    assert v[j].Edge() >= v[i].now;
    AdmittedIffUnsweptRoom(v, i);
    CostOfNone(v, Unswept(v, i, v[i].Edge()), i);
    AdmittedIffUnsweptRoom(v, k);
    CostOfNone(v, Unswept(v, k, v[k].Edge()), k);
  }

  lemma {:induction false} BothInOneWindow(times: seq<nat>, i: nat, j: nat, k: nat, windowMs: pos) returns (t: int)
    requires i < j < k < |times| && times[j] >= times[i] + windowMs && Close(times[i], times[k], windowMs)
    ensures OnClock(AskTwice(times, i, k, windowMs), times, 1, windowMs)
    ensures !WithinLimit(AskTwice(times, i, k, windowMs), 1, windowMs, t)
  {
    hide Allowed, Admitted, UnitsIn;
    var v := AskTwice(times, i, k, windowMs);
    t := Max(times[i], times[k]);
    BothPass(times, i, j, k, windowMs);
    assert v[..|v|] == v;
    AdmittedIsInWindow(v, |v|, t - windowMs, t);
    CostOfTwo(v, InWindow(v, |v|, t - windowMs, t), i, k, |v|);
  }

  /** Exactly the clocks on which no limit and no costs can overfill a window are those that never come back to a
      window they have left; on every other clock some run puts more into a window than its limit. */
  lemma {:induction false} NeverOverfillsIff(times: seq<nat>, windowMs: pos)
    ensures (forall v, limit, t :: OnClock(v, times, limit, windowMs) ==> WithinLimit(v, limit, windowMs, t))
            <==> !ComesBack(times, windowMs)
  {
    hide Admitted, UnitsIn, OnClock;
    if !ComesBack(times, windowMs) {
      forall v, limit, t | OnClock(v, times, limit, windowMs)
        ensures WithinLimit(v, limit, windowMs, t)
      {
        WholeRunStaysWithin(v, times, limit, windowMs, t);
      }
    } else {
      var i, j, k :| 0 <= i < j < k < |times| && times[j] >= times[i] + windowMs && Close(times[i], times[k], windowMs);
      var t := BothInOneWindow(times, i, j, k, windowMs);
    }
  }

  // ----- denied checks leave no trace -----

  lemma {:induction false} SelectSteady(run: seq<Call>, keep: seq<bool>)
    requires |keep| == |run| && Steady(run)
    ensures Steady(Select(run, keep))
    ensures forall c :: c in Select(run, keep) ==> c in run
    decreases |run|
  {
    if run != [] {
      var n := |run| - 1;
      SteadyPrefix(run, n);
      SelectSteady(run[..n], keep[..n]);
      forall k | 0 <= k < |Select(run[..n], keep[..n])|
        ensures Select(run[..n], keep[..n])[k].now <= run[n].now
        ensures Select(run[..n], keep[..n])[k].windowMs >= run[n].windowMs
      {
        assert Select(run[..n], keep[..n])[k] in run[..n];
      }
    }
  }

  lemma {:induction false} NaiveErasesDenied(run: seq<Call>, keep: seq<bool>)
    requires |keep| == |run|
    requires forall n :: 0 <= n < |run| && !keep[n] ==> !NaiveReplies(run)[n].allowed
    ensures NaiveAfter(Select(run, keep)) == NaiveAfter(run)
    ensures NaiveReplies(Select(run, keep)) == Select(NaiveReplies(run), keep)
    decreases |run|
  {
    hide NaiveAnswer;
    if run != [] {
      var n := |run| - 1;
      var pre, thin, c := run[..n], keep[..n], run[n];
      assert run == pre + [c] && keep == thin + [keep[n]];
      NaiveNext(pre, c);
      assert NaiveReplies(run)[n] == NaiveStep(NaiveAfter(pre), c).1;
      forall k | 0 <= k < n && !thin[k]
        ensures !NaiveReplies(pre)[k].allowed
      {
        assert NaiveReplies(run)[k] == NaiveReplies(pre)[k];
      }
      NaiveErasesDenied(pre, thin);
      NaiveNext(Select(pre, thin), c);
      SelectNext(pre, thin, c, keep[n]);
      SelectNext(NaiveReplies(pre), thin, NaiveStep(NaiveAfter(pre), c).1, keep[n]);
    }
  }

  /** Deleting any set of denied checks from a run leaves every other reply as it was. */
  lemma {:induction false} DeniedChecksLeaveNoTrace(run: seq<Call>, keep: seq<bool>)
    requires |keep| == |run| && Steady(run)
    requires forall n :: 0 <= n < |run| && !keep[n] ==> !Allowed(run, n)
    ensures Replies([], Select(run, keep)) == Select(Replies([], run), keep)
  {
    PrunedLogRefinesFullHistory(run);
    forall n | 0 <= n < |run| && !keep[n]
      ensures !NaiveReplies(run)[n].allowed
    {
      assert Replies([], run)[n].allowed == Allowed(run, n);
    }
    NaiveErasesDenied(run, keep);
    SelectSteady(run, keep);
    PrunedLogRefinesFullHistory(Select(run, keep));
  }

  // ----- optimality -----

  function Admissions(run: seq<Call>): (flags: seq<bool>)
    ensures |flags| == |run|
  {
    seq(|run|, n requires 0 <= n < |run| => Allowed(run, n))
  }

  ghost predicate UnitCosts(run: seq<Call>) {
    forall k :: 0 <= k < |run| ==> run[k].cost == 1
  }

  /** A schedule of the run's requests that, at each admission, has at most `limit` requests in the window that
      ends there: every stretch [i, n] that starts inside the window counts. */
  ghost predicate Feasible(run: seq<Call>, b: seq<bool>)
    requires |b| == |run|
  {
    forall i, n :: 0 <= i <= n < |run| && b[n] && run[i].now > run[n].Edge() ==> Count(b, i, n + 1) <= run[n].limit
  }

  /** The first of the first n requests that lies after `edge`, or n. */
  function FirstAfter(run: seq<Call>, n: nat, edge: int): (i: nat)
    requires n <= |run|
    ensures i <= n
    ensures forall k :: i <= k < n ==> run[k].now > edge
    ensures i > 0 ==> run[i - 1].now <= edge
  {
    if n == 0 || run[n - 1].now <= edge then n else FirstAfter(run, n - 1, edge)
  }

  /** Admissions of the stretch [i, n) are live after an edge before i, and if the edge is not before i - 1 they
      are all that is. */
  lemma {:induction false} LiveIsCount(run: seq<Call>, i: nat, n: nat, edge: int)
    requires i <= n <= |run| && Nondecreasing(run) && UnitCosts(run)
    requires forall k :: i <= k < n ==> run[k].now > edge
    ensures Count(Admissions(run), i, n) <= UnitsAfter(Admitted(run[..n]), edge)
    ensures (i > 0 ==> run[i - 1].now <= edge) ==> Count(Admissions(run), i, n) == UnitsAfter(Admitted(run[..n]), edge)
    decreases n
  {
    hide Allowed, Admitted, UnitsAfter;
    if n > 0 {
      AdmittedNext(run, n - 1, edge, 0);
      if i < n {
        LiveIsCount(run, i, n - 1, edge);
      } else if run[n - 1].now <= edge {
        NoneAdmittedLive(run, n - 1, edge);
      }
    } else {
      EmptyAtStart(run, edge);
    }
  }

  lemma {:induction false} NoneAdmittedLive(run: seq<Call>, n: nat, edge: int)
    requires n < |run| && Nondecreasing(run) && run[n].now <= edge
    ensures UnitsAfter(Admitted(run[..n + 1]), edge) == 0
    decreases n
  {
    hide Allowed, Admitted, UnitsAfter;
    AdmittedNext(run, n, edge, 0);
    if n > 0 {
      NoneAdmittedLive(run, n - 1, edge);
    } else {
      EmptyAtStart(run, edge);
    }
  }

  /** The script's own schedule is feasible, and no feasible schedule is ahead of it after any prefix. */
  lemma {:induction false} GreedyIsOptimal(run: seq<Call>, b: seq<bool>, n: nat)
    requires UnitCosts(run) && Steady(run) && |b| == |run| && n <= |run|
    requires Feasible(run, b)
    ensures Feasible(run, Admissions(run))
    ensures Count(b, 0, n) <= Count(Admissions(run), 0, n)
  {
    var g := Admissions(run);
    forall i, m | 0 <= i <= m < |run| && g[m] && run[i].now > run[m].Edge()
      ensures Count(g, i, m + 1) <= run[m].limit
    {
      AdmittedIffRoom(run, m);
      LiveIsCount(run, i, m, run[m].Edge());
    }
    forall m | 0 <= m < |g| && !g[m] && b[m]
      ensures exists i :: 0 <= i <= m && Count(b, i, m + 1) <= Count(g, i, m)
    {
      AdmittedIffRoom(run, m);
      var i := FirstAfter(run, m, run[m].Edge());
      LiveIsCount(run, i, m, run[m].Edge());
      assert run[i].now > run[m].Edge();
    }
    StayAhead(g, b, n);
  }
}
