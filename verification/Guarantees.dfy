/** What a caller of the limiter gets, stated on the shared store: many clients, many keys, expiring keys. */
module Guarantees {
  import opened Numbers
  import opened CoreTypes
  import opened Schedules
  import opened Limiter
  import opened Scripts
  import opened Store
  import opened Strings
  import Keys
  import TB = TokenBucket
  import TBR = TokenBucketRuns
  import TBP = TokenBucketPromises
  import SW = SlidingWindow
  import SWR = SlidingWindowRuns
  import SWP = SlidingWindowPromises

  /** The server clock orders the checks of one key. */
  lemma {:induction false} BucketCallsInOrder(trace: seq<Event>, key: string)
    requires Legal(trace)
    ensures forall i, j :: 0 <= i <= j < |BucketCalls(trace, key)| ==>
              BucketCalls(trace, key)[i].now <= BucketCalls(trace, key)[j].now <= LastTime(trace)
    decreases |trace|
  {
    if trace != [] {
      BucketCallsInOrder(trace[..|trace| - 1], key);
      hide Legal, Replay;
    }
  }

  lemma {:induction false} WindowCallsInOrder(trace: seq<Event>, key: string)
    requires Legal(trace)
    ensures forall i, j :: 0 <= i <= j < |WindowCalls(trace, key)| ==>
              WindowCalls(trace, key)[i].now <= WindowCalls(trace, key)[j].now <= LastTime(trace)
    decreases |trace|
  {
    if trace != [] {
      WindowCallsInOrder(trace[..|trace| - 1], key);
      hide Legal, Replay;
    }
  }

  function Flags(replies: seq<Reply>): (flags: seq<bool>)
    ensures |flags| == |replies|
  {
    seq(|replies|, k requires 0 <= k < |replies| => replies[k].allowed)
  }

  // ----- token bucket -----

  /** Cost that the replies let through among the checks with index in [i, j). */
  function CostAdmitted(calls: seq<TB.Call>, replies: seq<Reply>, i: nat, j: nat): int
    requires |replies| == |calls| && j <= |calls|
    decreases j
  {
    if j <= i then 0
    else CostAdmitted(calls, replies, i, j - 1) + if replies[j - 1].allowed then calls[j - 1].cost else 0
  }

  lemma {:induction false} CostAdmittedIsSpent(calls: seq<TB.Call>, i: nat, j: nat)
    requires j <= |calls|
    ensures CostAdmitted(calls, TB.Replies(TB.Fresh, calls), i, j) == TBR.Spent(calls, i, j)
    decreases j
  {
    if i < j {
      CostAdmittedIsSpent(calls, i, j - 1);
    }
  }

  /** Whatever happens to other keys, whenever the key expires and however its rule is edited within the TTL: a
      check passes exactly when every envelope over the key's own replies leaves room. */
  lemma {:induction false} BucketAdmitsIffWithinEveryEnvelope(trace: seq<Event>, key: string, n: nat)
    requires Legal(trace) && TBP.EditsFit(BucketCalls(trace, key)) && n < |BucketCalls(trace, key)|
    ensures var calls, replies := BucketCalls(trace, key), BucketReplies(trace, key);
            replies[n].allowed
            <==> forall i :: 0 <= i <= n ==>
                   (CostAdmitted(calls, replies, i, n) + calls[n].cost) as real
                   <= calls[i].capacity + TBR.Gain(calls, i, n)
  {
    hide TB.Step, TB.After, TBR.Spent, TBR.Gain, BucketCalls, BucketReplies, CostAdmitted;
    var calls := BucketCalls(trace, key);
    BucketKeyIsSequential(trace, key);
    TBR.AdmittedIffWithinEveryEnvelope(calls, n);
    forall i | 0 <= i <= n
      ensures CostAdmitted(calls, BucketReplies(trace, key), i, n) == TBR.Spent(calls, i, n)
    {
      CostAdmittedIsSpent(calls, i, n);
    }
  }

  /** Between any two checks of a key through which one rule holds, its replies admit at most
      capacity + rate * elapsed, whatever fitting edits came before. */
  lemma {:induction false} BucketNeverOverAdmits(trace: seq<Event>, key: string, i: nat, n: nat)
    requires Legal(trace) && TBP.EditsFit(BucketCalls(trace, key))
    requires i <= n < |BucketCalls(trace, key)| && TBR.RuleHolds(BucketCalls(trace, key), i, n)
    ensures var calls := BucketCalls(trace, key);
            && calls[n].now >= calls[i].now
            && CostAdmitted(calls, BucketReplies(trace, key), i, n + 1) as real
               <= calls[i].capacity + Brought(calls[i].rate, calls[n].now - calls[i].now)
  {
    hide Brought, TBP.EditsFit, TB.Replies, BucketCalls, BucketReplies, CostAdmitted, TBR.RuleHolds;
    BucketKeyIsSequential(trace, key);
    BucketCallsInOrder(trace, key);
    IntervalAlongCalls(BucketCalls(trace, key), i, n);
  }

  lemma {:induction false} IntervalAlongCalls(calls: seq<TB.Call>, i: nat, n: nat)
    requires i <= n < |calls| && TBR.RuleHolds(calls, i, n)
    requires forall j, k :: 0 <= j <= k < |calls| ==> calls[j].now <= calls[k].now
    ensures CostAdmitted(calls, TB.Replies(TB.Fresh, calls), i, n + 1) as real
            <= calls[i].capacity + Brought(calls[i].rate, calls[n].now - calls[i].now)
  {
    hide Brought, TB.Replies, TBR.Spent, CostAdmitted;
    TBR.IntervalBound(calls, i, n);
    CostAdmittedIsSpent(calls, i, n + 1);
  }

  /** Simultaneous unit checks on a key of their own admit exactly min(n, floor(capacity)), in whatever order
      the clients' calls arrive and whatever runs in between. */
  lemma {:induction false} BucketStormIsExact(trace: seq<Event>, key: string, capacity: posreal, rate: posreal,
                                              now: nat)
    requires Legal(trace) && TBP.UnitBurst(BucketCalls(trace, key), capacity, rate, now)
    ensures var flags := Flags(BucketReplies(trace, key));
            Count(flags, 0, |flags|) == if |flags| <= capacity.Floor then |flags| else capacity.Floor
  {
    var calls := BucketCalls(trace, key);
    TBP.OneRuleFits(calls, capacity, rate);
    BucketKeyIsSequential(trace, key);
    TBP.StormOnFreshKey(calls, |calls|, capacity, rate, now);
    assert Flags(BucketReplies(trace, key)) == TBR.Admissions(calls);
  }

  function AfterCheck(calls: seq<TB.Call>, n: nat): TB.State
    requires n < |calls|
  {
    TB.Step(TB.After(TB.Fresh, calls[..n]), calls[n]).0
  }

  /** The checks between n and m, seen as a run that starts from the state check n leaves. */
  lemma {:induction false} BucketResumes(calls: seq<TB.Call>, n: nat, m: nat)
    requires n < m <= |calls|
    ensures TB.After(TB.Fresh, calls[..m]) == TB.After(AfterCheck(calls, n), calls[n + 1..m])
  {
    assert calls[..m] == calls[..n + 1] + calls[n + 1..m];
    TB.AfterConcat(TB.Fresh, calls[..n + 1], calls[n + 1..m]);
    TB.AfterNext(TB.Fresh, calls, n);
  }

  lemma {:induction false} BucketResumedReply(calls: seq<TB.Call>, n: nat, m: nat, k: nat)
    requires n < k < m <= |calls|
    ensures TB.ReplyAt(AfterCheck(calls, n), calls[n + 1..m], k - n - 1) == TB.ReplyAt(TB.Fresh, calls, k)
  {
    BucketResumes(calls, n, k);
    assert calls[n + 1..m][..k - n - 1] == calls[n + 1..k];
  }

  lemma {:induction false} BucketContinues(calls: seq<TB.Call>, n: nat, m: nat)
    requires n < m < |calls| && TBR.RuleHolds(calls, n, m)
    requires forall i, j :: 0 <= i <= j < |calls| ==> calls[i].now <= calls[j].now
    ensures calls[n + 1..m] + [calls[m]] == calls[n + 1..m + 1]
    ensures TBP.Continues(AfterCheck(calls, n), calls[n + 1..m + 1], calls[n].capacity, calls[n].rate)
  {
  }

  /** After a deny of a cost the capacity covers, that cost or more is denied to every client until the hinted time,
      whatever runs in between. */
  lemma {:induction false} BucketDeniedBeforeHint(trace: seq<Event>, key: string, n: nat, m: nat)
    requires Legal(trace) && TBP.EditsFit(BucketCalls(trace, key))
    requires n < m < |BucketCalls(trace, key)| && TBR.RuleHolds(BucketCalls(trace, key), n, m)
    requires var calls, reply := BucketCalls(trace, key), BucketReplies(trace, key)[n];
             var c, probe := calls[n], calls[m];
             && !reply.allowed && c.cost as real <= c.capacity
             && probe.cost >= c.cost && probe.now < c.now + reply.retryAfterMs
    ensures !BucketReplies(trace, key)[m].allowed
  {
    hide TB.Step, TB.After, BucketCalls, BucketReplies;
    var calls := BucketCalls(trace, key);
    BucketKeyIsSequential(trace, key);
    BucketCallsInOrder(trace, key);
    BucketContinues(calls, n, m);
    BucketResumes(calls, n, m);
    TBP.DeniedBeforeHint(TB.After(TB.Fresh, calls[..n]), calls[n], calls[n + 1..m], calls[m]);
  }

  /** And from the hinted time on the same cost is admitted, if the replies in between were all denials. */
  lemma {:induction false} BucketAdmittedFromHint(trace: seq<Event>, key: string, n: nat, m: nat)
    requires Legal(trace) && TBP.EditsFit(BucketCalls(trace, key))
    requires n < m < |BucketCalls(trace, key)| && TBR.RuleHolds(BucketCalls(trace, key), n, m)
    requires forall k :: n <= k < m ==> !BucketReplies(trace, key)[k].allowed
    requires var calls, reply := BucketCalls(trace, key), BucketReplies(trace, key)[n];
             var c, probe := calls[n], calls[m];
             && c.cost as real <= c.capacity && probe.cost == c.cost && probe.now >= c.now + reply.retryAfterMs
    ensures BucketReplies(trace, key)[m].allowed
  {
    hide TB.Step, TB.After, BucketCalls, BucketReplies;
    var calls := BucketCalls(trace, key);
    var denied := calls[n + 1..m];
    BucketKeyIsSequential(trace, key);
    BucketCallsInOrder(trace, key);
    BucketContinues(calls, n, m);
    BucketResumes(calls, n, m);
    forall k | 0 <= k < |denied|
      ensures !TB.ReplyAt(AfterCheck(calls, n), denied, k).allowed
    {
      BucketResumedReply(calls, n, m, n + 1 + k);
      assert !BucketReplies(trace, key)[n + 1 + k].allowed;
    }
    TBP.AdmittedFromHint(TB.After(TB.Fresh, calls[..n]), calls[n], denied, calls[m]);
  }

  /** The first checks after a reply, if they are unit checks at its instant, pass exactly as long as its `remaining`
      lasts. */
  lemma {:induction false} BucketRemainingIsExact(trace: seq<Event>, key: string, n: nat, m: nat)
    requires Legal(trace) && TBP.EditsFit(BucketCalls(trace, key)) && n < m < |BucketCalls(trace, key)|
    requires var calls := BucketCalls(trace, key);
             TBP.UnitBurst(calls[n + 1..m + 1], calls[n].capacity, calls[n].rate, calls[n].now)
    ensures BucketReplies(trace, key)[m].allowed <==> m - n - 1 < BucketReplies(trace, key)[n].remaining
  {
    hide TB.ReplyAt, TBP.UnitBurst, TBP.EditsFit, BucketCalls, BucketReplies;
    BucketKeyIsSequential(trace, key);
    RemainingAlongCalls(BucketCalls(trace, key), n, m);
  }

  lemma {:induction false} RemainingAlongCalls(calls: seq<TB.Call>, n: nat, m: nat)
    requires n < m < |calls|
    requires TBP.UnitBurst(calls[n + 1..m + 1], calls[n].capacity, calls[n].rate, calls[n].now)
    ensures TB.ReplyAt(TB.Fresh, calls, m).allowed <==> m - n - 1 < TB.ReplyAt(TB.Fresh, calls, n).remaining
  {
    hide TB.Step, TB.After, TB.Available, TBP.UnitBurst;
    BucketResumedReply(calls, n, m + 1, m);
    TBP.RemainingIsExact(calls[..n], calls[n], calls[n + 1..m + 1], m - n - 1);
  }

  // ----- sliding window -----

  /** The admissions that the replies let through. */
  function AdmittedBy(calls: seq<SW.Call>, replies: seq<Reply>): SW.Log
    requires |replies| == |calls|
  {
    if calls == [] then []
    else
      var n := |calls| - 1;
      var log := AdmittedBy(calls[..n], replies[..n]);
      if replies[n].allowed then log + [calls[n].Entry()] else log
  }

  lemma {:induction false} AdmittedByScript(calls: seq<SW.Call>)
    ensures AdmittedBy(calls, SW.Replies([], calls)) == SWR.Admitted(calls)
    decreases |calls|
  {
    hide SW.Step, SW.After;
    if calls != [] {
      var n := |calls| - 1;
      var pre := calls[..n];
      assert calls == pre + [calls[n]];
      AdmittedByScript(pre);
      SW.AfterNext([], pre, calls[n]);
      assert SW.Replies([], calls)[..n] == SW.Replies([], pre);
      assert SW.Replies([], calls)[n].allowed == SWR.Allowed(calls, n);
    }
  }

  /** The limit in force at the last admission at or before t, by the replies; 0 if there is none. */
  function LastAdmittedLimit(calls: seq<SW.Call>, replies: seq<Reply>, t: int): nat
    requires |replies| == |calls|
  {
    if calls == [] then 0
    else
      var n := |calls| - 1;
      if replies[n].allowed && calls[n].now <= t then calls[n].limit else LastAdmittedLimit(calls[..n], replies[..n], t)
  }

  lemma {:induction false} LastLimitOfScript(calls: seq<SW.Call>, t: int)
    ensures LastAdmittedLimit(calls, SW.Replies([], calls), t) == SWR.LastAdmittedLimit(calls, t)
    decreases |calls|
  {
    hide SW.Step, SW.After;
    if calls != [] {
      var n := |calls| - 1;
      assert calls == calls[..n] + [calls[n]];
      LastLimitOfScript(calls[..n], t);
      SW.AfterNext([], calls[..n], calls[n]);
      assert SW.Replies([], calls)[..n] == SW.Replies([], calls[..n]);
      assert SW.Replies([], calls)[n].allowed == SWR.Allowed(calls, n);
    }
  }

  /** A window key's replies are those of the script running the key's own checks in sequence. */
  lemma {:induction false} WindowKeyIsSequential(trace: seq<Event>, key: string)
    requires Legal(trace) && SWR.Shrinking(WindowCalls(trace, key))
    ensures SWR.Steady(WindowCalls(trace, key))
    ensures WindowReplies(trace, key) == SW.Replies([], WindowCalls(trace, key))
  {
    WindowKeyIsExact(trace, key);
    WindowCallsInOrder(trace, key);
    SWR.PrunedLogRefinesFullHistory(WindowCalls(trace, key));
  }

  /** No window of any key ever holds more admitted cost than the limit in force at its last admission, at any
      instant, whatever happens to other keys and whenever the key expires. */
  lemma {:induction false} WindowNeverOverAdmits(trace: seq<Event>, key: string, windowMs: pos, t: int)
    requires Legal(trace) && SWR.Shrinking(WindowCalls(trace, key))
    requires forall k :: 0 <= k < |WindowCalls(trace, key)| ==> WindowCalls(trace, key)[k].windowMs >= windowMs
    ensures var calls, replies := WindowCalls(trace, key), WindowReplies(trace, key);
            SW.UnitsIn(AdmittedBy(calls, replies), t - windowMs, t) <= LastAdmittedLimit(calls, replies, t)
  {
    hide WindowCalls, WindowReplies, AdmittedBy, LastAdmittedLimit, SW.UnitsIn;
    var calls := WindowCalls(trace, key);
    WindowKeyIsSequential(trace, key);
    AdmittedByScript(calls);
    LastLimitOfScript(calls, t);
    SWR.NoWindowExceedsItsLimit(calls, windowMs, t);
  }

  /** The log that check n leaves when the checks run in sequence. */
  function LogAfterCheck(calls: seq<SW.Call>, n: nat): SW.Log
    requires n < |calls|
  {
    SW.Step(SW.After([], calls[..n]), calls[n]).0
  }

  lemma {:induction false} WindowResumes(calls: seq<SW.Call>, n: nat, m: nat)
    requires n < m <= |calls|
    ensures SW.After([], calls[..m]) == SW.After(LogAfterCheck(calls, n), calls[n + 1..m])
  {
    hide SW.Step;
    assert calls[..m] == calls[..n + 1] + calls[n + 1..m] && calls[..n + 1] == calls[..n] + [calls[n]];
    SW.AfterConcat([], calls[..n + 1], calls[n + 1..m]);
    SW.AfterNext([], calls[..n], calls[n]);
  }

  lemma {:induction false} WindowResumedReply(calls: seq<SW.Call>, n: nat, m: nat, k: nat)
    requires n < k < m <= |calls|
    ensures SW.ReplyAt(LogAfterCheck(calls, n), calls[n + 1..m], k - n - 1) == SW.ReplyAt([], calls, k)
  {
    hide SW.Step;
    WindowResumes(calls, n, k);
    assert calls[n + 1..m][..k - n - 1] == calls[n + 1..k];
  }

  /** After a deny of a cost the limit covers, that cost or more is denied to every client until the hinted time,
      whatever runs in between. */
  lemma {:induction false} WindowDeniedBeforeHint(trace: seq<Event>, key: string, n: nat, m: nat)
    requires Legal(trace) && SWR.Shrinking(WindowCalls(trace, key)) && n < m < |WindowCalls(trace, key)|
    requires var calls, reply := WindowCalls(trace, key), WindowReplies(trace, key)[n];
             var c, probe := calls[n], calls[m];
             && !reply.allowed && c.cost <= c.limit
             && probe.limit == c.limit && probe.windowMs == c.windowMs
             && probe.cost >= c.cost && probe.now < c.now + reply.retryAfterMs
    ensures !WindowReplies(trace, key)[m].allowed
  {
    hide SW.Step, SW.After, WindowCalls, WindowReplies;
    var calls := WindowCalls(trace, key);
    WindowKeyIsSequential(trace, key);
    WindowResumes(calls, n, m);
    SWP.DeniedBeforeHint(SW.After([], calls[..n]), calls[n], calls[n + 1..m], calls[m]);
  }

  /** For unit costs, from the hinted time on a check is admitted, if the replies in between were all denials and no
      check before the deny worked under a larger limit. */
  lemma {:induction false} WindowUnitAdmittedFromHint(trace: seq<Event>, key: string, n: nat, m: nat)
    requires Legal(trace) && SWR.Shrinking(WindowCalls(trace, key)) && n < m < |WindowCalls(trace, key)|
    requires forall k :: n <= k < m ==> !WindowReplies(trace, key)[k].allowed
    requires var calls, reply := WindowCalls(trace, key), WindowReplies(trace, key)[n];
             var c, probe := calls[n], calls[m];
             && c.cost == probe.cost == 1 <= c.limit == probe.limit && probe.windowMs == c.windowMs
             && (forall k :: 0 <= k < n ==> calls[k].limit <= c.limit)
             && probe.now >= c.now + reply.retryAfterMs
    ensures WindowReplies(trace, key)[m].allowed
  {
    hide SW.Step, SW.After, SW.Units, WindowCalls, WindowReplies;
    var calls := WindowCalls(trace, key);
    var denied := calls[n + 1..m];
    WindowKeyIsSequential(trace, key);
    WindowResumes(calls, n, m);
    forall k | 0 <= k < |denied|
      ensures !SW.ReplyAt(LogAfterCheck(calls, n), denied, k).allowed
    {
      WindowResumedReply(calls, n, m, n + 1 + k);
      assert !WindowReplies(trace, key)[n + 1 + k].allowed;
    }
    SWP.StoredUnitsWithinLimit(calls[..n], calls[n].limit);
    SWP.UnitCostAdmittedFromHint(SW.After([], calls[..n]), calls[n], denied, calls[m]);
  }

  /** The first checks after a reply, if they are unit checks at its instant, pass exactly as long as its `remaining`
      lasts. */
  lemma {:induction false} WindowRemainingIsExact(trace: seq<Event>, key: string, n: nat, m: nat)
    requires Legal(trace) && SWR.Shrinking(WindowCalls(trace, key)) && n < m < |WindowCalls(trace, key)|
    requires var calls := WindowCalls(trace, key);
             SWP.UnitBurst(calls[n + 1..m + 1], calls[n].limit, calls[n].windowMs, calls[n].now)
    ensures WindowReplies(trace, key)[m].allowed <==> m - n - 1 < WindowReplies(trace, key)[n].remaining
  {
    hide SW.Step, SW.After, WindowCalls, WindowReplies;
    var calls := WindowCalls(trace, key);
    WindowKeyIsSequential(trace, key);
    WindowResumedReply(calls, n, m + 1, m);
    SWP.RemainingIsExact(SW.After([], calls[..n]), calls[n], calls[n + 1..m + 1], m - n - 1);
  }

  /** Simultaneous unit checks on a key of their own admit exactly min(n, limit). */
  lemma {:induction false} WindowStormIsExact(trace: seq<Event>, key: string, limit: nat, windowMs: pos, now: nat)
    requires Legal(trace) && SWP.UnitBurst(WindowCalls(trace, key), limit, windowMs, now)
    ensures var flags := Flags(WindowReplies(trace, key));
            Count(flags, 0, |flags|) == if |flags| <= limit then |flags| else limit
  {
    var calls := WindowCalls(trace, key);
    WindowKeyIsSequential(trace, key);
    SWP.StormOnFreshKey(calls, |calls|, limit, windowMs, now);
    assert Flags(WindowReplies(trace, key)) == SWR.Admissions(calls);
  }

  // ----- what a caller receives is on record -----

  lemma {:induction false} RecordGrows(trace: seq<Event>, key: string, k: nat)
    requires k <= |trace|
    ensures BucketCalls(trace[..k], key) <= BucketCalls(trace, key)
    ensures BucketReplies(trace[..k], key) <= BucketReplies(trace, key)
    ensures WindowCalls(trace[..k], key) <= WindowCalls(trace, key)
    ensures WindowReplies(trace[..k], key) <= WindowReplies(trace, key)
    decreases |trace|
  {
    hide Replay, Store.Answer;
    if k == |trace| {
      assert trace[..k] == trace;
    } else {
      assert trace[..|trace| - 1][..k] == trace[..k];
      RecordGrows(trace[..|trace| - 1], key, k);
    }
  }

  /** An execution at position k is entry m of its key's checks and replies, where m counts the key's earlier
      checks. */
  lemma {:induction false} ExecutionIsOnRecord(trace: seq<Event>, k: nat, item: ScriptItem, reply: Reply)
    requires RanAt(trace, k, item, reply)
    ensures item.request.BucketRequest? ==>
              var m := |BucketCalls(trace[..k], item.key)|;
              && m < |BucketCalls(trace, item.key)| && BucketReplies(trace, item.key)[m] == reply
              && BucketCalls(trace, item.key)[m] == item.request.At(trace[k].Time()).bucket
    ensures item.request.WindowRequest? ==>
              var m := |WindowCalls(trace[..k], item.key)|;
              && m < |WindowCalls(trace, item.key)| && WindowReplies(trace, item.key)[m] == reply
              && WindowCalls(trace, item.key)[m] == item.request.At(trace[k].Time()).window
  {
    hide Replay, Store.Answer;
    assert trace[..k + 1][..k] == trace[..k];
    RecordGrows(trace, item.key, k + 1);
  }

  /** A decision shows a reply of its key field by field, and is not a fallback. */
  predicate Shows(d: Decision, reply: Reply) {
    && d.allowed == reply.allowed && d.remaining == reply.remaining && !d.degraded
    && d.retryAfterMs == reply.retryAfterMs && d.resetMs == reply.resetMs
  }

  /** So the guarantees above speak about every decision a caller is given: it is the reply to one check of its key,
      made with the caller's own rule and cost, and its limit is the rule's. */
  lemma {:induction false} DecisionIsOnRecord(trace: seq<Event>, from: nat, input: CheckInput, d: Decision)
    returns (m: nat)
    requires DecidedBy(trace, from, input, d)
    ensures input.rule.TokenBucketRule? ==>
              var key := BuildItem(input).key;
              var calls, replies := BucketCalls(trace, key), BucketReplies(trace, key);
              && m < |calls| && Shows(d, replies[m]) && d.limit == input.rule.capacity
              && calls[m].capacity == input.rule.capacity && calls[m].rate == input.rule.refillRate
              && calls[m].cost == CostAsked(input.cost, input.rule)
    ensures input.rule.SlidingWindowRule? ==>
              var key := BuildItem(input).key;
              var calls, replies := WindowCalls(trace, key), WindowReplies(trace, key);
              && m < |calls| && Shows(d, replies[m]) && d.limit == input.rule.limit as real
              && calls[m].limit == input.rule.limit && calls[m].windowMs == input.rule.windowMs
              && calls[m].cost == CostAsked(input.cost, input.rule) && calls[m].id == input.uuid
  {
    hide BucketCalls, BucketReplies, WindowCalls, WindowReplies, ReplyOf, Times;
    var item := BuildItem(input);
    var reply :| d == Shape(input.rule, reply) && Truthful(trace, from, item, Ok(reply));
    var k :| from <= k && RanAt(trace, k, item, reply);
    ExecutionIsOnRecord(trace, k, item, reply);
    CostSent(input);
    m := if input.rule.TokenBucketRule? then |BucketCalls(trace[..k], item.key)|
         else |WindowCalls(trace[..k], item.key)|;
  }

  /** The record of a key, as far as it is kept for one algorithm. */
  function Record(trace: seq<Event>, input: CheckInput): (seq<TB.Call>, seq<SW.Call>, seq<Reply>) {
    var key := BuildItem(input).key;
    if input.rule.TokenBucketRule? then (BucketCalls(trace, key), [], BucketReplies(trace, key))
    else ([], WindowCalls(trace, key), WindowReplies(trace, key))
  }

  /** An execution goes on the caller's record exactly when it is of the caller's tenant, rule, identifier and
      algorithm, for colon-free tenants and rule ids that are not nested: nobody else can use up a caller's limit. */
  lemma {:induction false} RecordIsOwnIff(trace: seq<Event>, k: nat, own: CheckInput, other: CheckInput, reply: Reply)
    requires Free(own.tenantId, ':') && Free(other.tenantId, ':') && !Keys.Nested(own.rule.ruleId, other.rule.ruleId)
    requires RanAt(trace, k, BuildItem(other), reply)
    ensures Record(trace[..k + 1], own) != Record(trace[..k], own) <==> SameIdentity(own, other)
  {
    hide Replay, Store.Answer, Keys.LimitKey, Keys.Nested;
    KeysMeetIff(own, other);
    assert trace[..k + 1][..k] == trace[..k];
  }

  /** For different colon-free tenants nothing more is needed. */
  lemma {:induction false} OtherTenantsAreOffRecord(trace: seq<Event>, k: nat, own: CheckInput, other: CheckInput,
                                                    reply: Reply)
    requires Free(own.tenantId, ':') && Free(other.tenantId, ':') && own.tenantId != other.tenantId
    requires RanAt(trace, k, BuildItem(other), reply)
    ensures Record(trace[..k + 1], own) == Record(trace[..k], own)
  {
    hide Replay, Store.Answer, Keys.LimitKey;
    TenantsNeverMeet(own, other);
    assert trace[..k + 1][..k] == trace[..k];
  }
}
