/** src/adapters/lua/sliding_window.lua: one atomic check on the log of admitted requests, and the limiter that
    keeps every admission for ever, against which the pruned log is measured. */
module SlidingWindow {
  import opened Numbers
  import opened CoreTypes

  /** One admitted request: `cost` units at `time`, written under the caller-unique `id`. */
  datatype Admission = Admission(time: nat, cost: pos, id: string)

  /** One execution of the script. The rule travels with every call, as ARGV does. */
  datatype Call = Call(limit: nat, windowMs: pos, cost: pos, now: nat, id: string)
  {
    /** Everything at or before the edge has left the window. */
    function Edge(): int {
      now - windowMs
    }

    function Entry(): Admission {
      Admission(now, cost, id)
    }
  }

  type Log = seq<Admission>

  function Units(log: Log): nat {
    if log == [] then 0 else Units(log[..|log| - 1]) + log[|log| - 1].cost
  }

  /** ZREMRANGEBYSCORE key 0 edge */
  function Live(log: Log, edge: int): (live: Log)
    ensures forall a :: a in live <==> a in log && a.time > edge
  {
    if log == [] then []
    else
      var n := |log| - 1;
      var live := Live(log[..n], edge);
      assert forall a :: a in log <==> a in log[..n] || a == log[n];
      if log[n].time > edge then live + [log[n]] else live
  }

  /** The lowest score. */
  function Oldest(log: Log): (t: nat)
    requires log != []
    ensures forall k :: 0 <= k < |log| ==> t <= log[k].time
    ensures exists k :: 0 <= k < |log| && t == log[k].time
  {
    var n := |log| - 1;
    if n == 0 || log[n].time < Oldest(log[..n]) then log[n].time else Oldest(log[..n])
  }

  function Admits(log: Log, c: Call): bool {
    Units(Live(log, c.Edge())) + c.cost <= c.limit
  }

  /** The log a check leaves: evicted, and extended if the check is admitted. */
  function Kept(log: Log, c: Call): Log {
    if Admits(log, c) then Live(log, c.Edge()) + [c.Entry()] else Live(log, c.Edge())
  }

  function Answer(kept: Log, allowed: bool, c: Call): (r: Reply)
    ensures r.allowed == allowed
  {
    var remaining := Max(0, c.limit - Units(kept));
    if kept != [] then
      var resetMs := Oldest(kept) + c.windowMs;
      Reply(allowed, remaining, if allowed then 0 else Max(1, resetMs - c.now), resetMs)
    else
      Reply(allowed, remaining, if allowed then 0 else c.windowMs, c.now + c.windowMs)
  }

  function Step(log: Log, c: Call): (Log, Reply) {
    (Kept(log, c), Answer(Kept(log, c), Admits(log, c), c))
  }

  /** The log after a run of checks on one key. */
  function After(log: Log, run: seq<Call>): Log {
    if run == [] then log else Step(After(log, run[..|run| - 1]), run[|run| - 1]).0
  }

  function ReplyAt(log: Log, run: seq<Call>, n: nat): Reply
    requires n < |run|
  {
    Step(After(log, run[..n]), run[n]).1
  }

  function Replies(log: Log, run: seq<Call>): seq<Reply> {
    seq(|run|, n requires 0 <= n < |run| => ReplyAt(log, run, n))
  }

  lemma {:induction false} AfterNext(log: Log, pre: seq<Call>, c: Call)
    ensures After(log, pre + [c]) == Step(After(log, pre), c).0
    ensures Replies(log, pre + [c]) == Replies(log, pre) + [Step(After(log, pre), c).1]
  {
    hide Step;
    var run := pre + [c];
    assert run[..|pre|] == pre;
    forall k | 0 <= k < |pre|
      ensures ReplyAt(log, pre, k) == ReplyAt(log, run, k)
    {
      assert pre[..k] == run[..k];
    }
  }

  /** Running one stretch after another. */
  lemma {:induction false} AfterConcat(log: Log, a: seq<Call>, b: seq<Call>)
    ensures After(log, a + b) == After(After(log, a), b)
    decreases |b|
  {
    hide Step;
    if b == [] {
      assert a + b == a;
    } else {
      var n := |b| - 1;
      assert (a + b)[..|a| + n] == a + b[..n];
      AfterConcat(log, a, b[..n]);
    }
  }

  // ----- the limiter that forgets nothing -----

  /** Units admitted after `edge`. */
  function UnitsAfter(log: Log, edge: int): nat {
    if log == [] then 0
    else
      var n := |log| - 1;
      UnitsAfter(log[..n], edge) + if log[n].time > edge then log[n].cost else 0
  }

  /** Units admitted in the half-open window (lo, hi]. */
  function UnitsIn(log: Log, lo: int, hi: int): nat {
    if log == [] then 0
    else
      var n := |log| - 1;
      UnitsIn(log[..n], lo, hi) + if lo < log[n].time <= hi then log[n].cost else 0
  }

  /** The earliest admission after `edge`. */
  function OldestAfter(log: Log, edge: int): Option<nat> {
    if log == [] then None
    else
      var n := |log| - 1;
      var t := OldestAfter(log[..n], edge);
      if log[n].time <= edge then t
      else if t.Some? && t.value <= log[n].time then t
      else Some(log[n].time)
  }

  function NaiveAdmits(log: Log, c: Call): bool {
    UnitsAfter(log, c.Edge()) + c.cost <= c.limit
  }

  function NaiveAnswer(log: Log, allowed: bool, c: Call): (r: Reply)
    ensures r.allowed == allowed
  {
    var remaining := Max(0, c.limit - UnitsAfter(log, c.Edge()));
    match OldestAfter(log, c.Edge())
    case Some(oldest) =>
      Reply(allowed, remaining, if allowed then 0 else oldest + c.windowMs - c.now, oldest + c.windowMs)
    case None =>
      Reply(allowed, remaining, if allowed then 0 else c.windowMs, c.now + c.windowMs)
  }

  /** The reference: every admission stays in `log`, nothing is clamped, nothing expires. */
  function NaiveStep(log: Log, c: Call): (Log, Reply) {
    var log' := if NaiveAdmits(log, c) then log + [c.Entry()] else log;
    (log', NaiveAnswer(log', NaiveAdmits(log, c), c))
  }

  function NaiveAfter(run: seq<Call>): Log {
    if run == [] then [] else NaiveStep(NaiveAfter(run[..|run| - 1]), run[|run| - 1]).0
  }

  function NaiveReplies(run: seq<Call>): seq<Reply> {
    seq(|run|, n requires 0 <= n < |run| => NaiveStep(NaiveAfter(run[..n]), run[n]).1)
  }

  lemma {:induction false} NaiveNext(pre: seq<Call>, c: Call)
    ensures NaiveAfter(pre + [c]) == NaiveStep(NaiveAfter(pre), c).0
    ensures NaiveReplies(pre + [c]) == NaiveReplies(pre) + [NaiveStep(NaiveAfter(pre), c).1]
  {
    hide NaiveStep;
    var run := pre + [c];
    assert run[..|pre|] == pre;
    forall k | 0 <= k < |pre|
      ensures NaiveReplies(pre)[k] == NaiveReplies(run)[k]
    {
      assert pre[..k] == run[..k];
    }
  }

  // ----- logs -----

  /** Every measure of a log after a conditional append. */
  lemma {:induction false} AppendIf(log: Log, a: Admission, ok: bool, lo: int, hi: int)
    ensures var log' := if ok then log + [a] else log;
            && Units(log') == Units(log) + (if ok then a.cost else 0)
            && UnitsAfter(log', lo) == UnitsAfter(log, lo) + (if ok && a.time > lo then a.cost else 0)
            && UnitsIn(log', lo, hi) == UnitsIn(log, lo, hi) + (if ok && lo < a.time <= hi then a.cost else 0)
            && Live(log', lo) == (if ok && a.time > lo then Live(log, lo) + [a] else Live(log, lo))
  {
    if ok {
      assert (log + [a])[..|log|] == log;
    }
  }

  lemma {:induction false} LiveTwice(log: Log, edge: int, edge': int)
    ensures Live(Live(log, edge), edge') == Live(log, Max(edge, edge'))
  {
    if log != [] {
      var n := |log| - 1;
      LiveTwice(log[..n], edge, edge');
      AppendIf(Live(log[..n], edge), log[n], log[n].time > edge, edge', 0);
    }
  }

  /** Evicting first and counting everything is counting what lies after the edge. */
  lemma {:induction false} LiveUnits(log: Log, edge: int)
    ensures Units(Live(log, edge)) == UnitsAfter(log, edge)
  {
    if log != [] {
      var n := |log| - 1;
      LiveUnits(log[..n], edge);
      AppendIf(Live(log[..n], edge), log[n], log[n].time > edge, edge, 0);
    }
  }

  lemma {:induction false} LiveOldest(log: Log, edge: int)
    ensures Live(log, edge) == [] <==> OldestAfter(log, edge) == None
    ensures Live(log, edge) != [] ==> OldestAfter(log, edge) == Some(Oldest(Live(log, edge)))
  {
    if log != [] {
      var n := |log| - 1;
      LiveOldest(log[..n], edge);
      var live := Live(log[..n], edge);
      assert (live + [log[n]])[..|live|] == live;
    }
  }

  lemma {:induction false} OldestIsLive(log: Log, edge: int)
    requires Live(log, edge) != []
    ensures Oldest(Live(log, edge)) > edge
  {
    var live := Live(log, edge);
    var k :| 0 <= k < |live| && Oldest(live) == live[k].time;
    assert live[k] in live;
  }

  /** Evicting at an edge hides nothing from a later edge. */
  lemma {:induction false} LiveKeepsLater(log: Log, edge: int, edge': int)
    requires edge <= edge'
    ensures UnitsAfter(Live(log, edge), edge') == UnitsAfter(log, edge')
    ensures UnitsAfter(log, edge') <= UnitsAfter(log, edge) <= Units(log)
  {
    if log != [] {
      var n := |log| - 1;
      LiveKeepsLater(log[..n], edge, edge');
      AppendIf(Live(log[..n], edge), log[n], log[n].time > edge, edge', 0);
    }
  }

  lemma {:induction false} NoneLive(log: Log, edge: int)
    requires forall a :: a in log ==> a.time <= edge
    ensures Live(log, edge) == []
  {
    if log != [] {
      var n := |log| - 1;
      assert log == log[..n] + [log[n]];
      assert log[n] in log;
      NoneLive(log[..n], edge);
    }
  }

  lemma {:induction false} AllLive(log: Log, edge: int)
    requires forall a :: a in log ==> a.time > edge
    ensures Live(log, edge) == log && UnitsAfter(log, edge) == Units(log)
  {
    if log != [] {
      var n := |log| - 1;
      assert log == log[..n] + [log[n]];
      assert log[n] in log;
      AllLive(log[..n], edge);
    }
  }
}
