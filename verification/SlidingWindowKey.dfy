/** The sorted set of one key, updated in place as src/adapters/lua/sliding_window.lua updates it. */
module SlidingWindowKey {
  import opened Numbers
  import opened CoreTypes
  import opened Strings
  import opened SlidingWindow
  import opened SlidingWindowRuns
  import opened SlidingWindowPromises
  import opened ServerClock

  /** A ZSET: member to score. */
  type ZSet = map<string, nat>

  /** Length of a UUID in text form. */
  const UUID_LENGTH := 36

  /** The first number Lua no longer prints as plain digits. */
  const PRINTABLE := 100_000_000_000_000

  /** now .. '-' .. seq .. '-' .. i */
  function Member(now: nat, seqId: string, i: nat): string {
    Digits(now) + ['-'] + (seqId + ['-'] + Digits(i))
  }

  lemma {:induction false} DigitsHaveNoDash(n: nat)
    ensures Free(Digits(n), '-')
  {
  }

  /** Members of one or of two calls never collide unless they are the same unit of the same call. */
  lemma {:induction false} MemberInjective(now: nat, seqId: string, i: nat, now': nat, seqId': string, i': nat)
    requires |seqId| == |seqId'| && Member(now, seqId, i) == Member(now', seqId', i')
    ensures now == now' && seqId == seqId' && i == i'
  {
    DigitsHaveNoDash(now);
    DigitsHaveNoDash(now');
    var x, y := seqId + ['-'] + Digits(i), seqId' + ['-'] + Digits(i');
    SplitAtFirst(Digits(now), x, Digits(now'), y, '-');
    assert x[..|seqId|] == seqId && y[..|seqId'|] == seqId';
    assert x[|seqId| + 1..] == Digits(i) && y[|seqId'| + 1..] == Digits(i');
    DigitsInjective(now, now');
    DigitsInjective(i, i');
  }

  /** What the first k rounds of the ZADD loop add for one admission. */
  function Block(a: Admission, k: nat): ZSet {
    if k == 0 then map[] else Block(a, k - 1)[Member(a.time, a.id, k) := a.time]
  }

  /** The set that holds one member per admitted unit. */
  function Expand(log: Log): ZSet {
    if log == [] then map[] else Expand(log[..|log| - 1]) + Block(log[|log| - 1], log[|log| - 1].cost)
  }

  /** ZREMRANGEBYSCORE key 0 edge */
  function Evict(z: ZSet, edge: int): ZSet {
    map m | m in z && !(0 <= z[m] <= edge) :: z[m]
  }

  /** Ids have one length and never repeat: what randomUUID gives. */
  ghost predicate GoodIds(log: Log) {
    && (forall k :: 0 <= k < |log| ==> |log[k].id| == UUID_LENGTH)
    && (forall j, k :: 0 <= j < k < |log| ==> log[j].id != log[k].id)
  }

  ghost predicate FreshId(log: Log, id: string) {
    |id| == UUID_LENGTH && forall k :: 0 <= k < |log| ==> log[k].id != id
  }

  lemma {:induction false} BlockContents(a: Admission, k: nat)
    requires |a.id| == UUID_LENGTH
    ensures forall m :: m in Block(a, k) ==>
              Block(a, k)[m] == a.time && exists i: nat :: 1 <= i <= k && m == Member(a.time, a.id, i)
    ensures |Block(a, k)| == k
    decreases k
  {
    hide Member;
    if k > 0 {
      BlockContents(a, k - 1);
      var m := Member(a.time, a.id, k);
      if m in Block(a, k - 1) {
        var i: nat :| 1 <= i <= k - 1 && m == Member(a.time, a.id, i);
        MemberInjective(a.time, a.id, k, a.time, a.id, i);
      }
    }
  }

  /** No member of a fresh call is stored yet. */
  lemma {:induction false} FreshBlock(log: Log, a: Admission, k: nat)
    requires GoodIds(log) && FreshId(log, a.id)
    ensures Expand(log).Keys !! Block(a, k).Keys
    decreases |log|
  {
    if log != [] {
      var n := |log| - 1;
      FreshBlock(log[..n], a, k);
      BlockContents(a, k);
      BlockContents(log[n], log[n].cost);
      forall m | m in Block(a, k) && m in Block(log[n], log[n].cost)
        ensures false
      {
        var i: nat :| 1 <= i <= k && m == Member(a.time, a.id, i);
        var j: nat :| 1 <= j <= log[n].cost && m == Member(log[n].time, log[n].id, j);
        MemberInjective(a.time, a.id, i, log[n].time, log[n].id, j);
      }
    }
  }

  lemma {:induction false} DisjointUnionSize(x: ZSet, y: ZSet)
    requires x.Keys !! y.Keys
    ensures |x + y| == |x| + |y|
  {
    assert (x + y).Keys == x.Keys + y.Keys;
    assert |x.Keys + y.Keys| == |x.Keys| + |y.Keys|;
  }

  lemma {:induction false} ExpandAppend(log: Log, a: Admission)
    requires GoodIds(log) && FreshId(log, a.id)
    ensures GoodIds(log + [a])
    ensures Expand(log + [a]) == Expand(log) + Block(a, a.cost)
  {
    assert (log + [a])[..|log|] == log;
  }

  /** One round of the ZADD loop. */
  lemma {:induction false} NextMember(z: ZSet, a: Admission, i: pos)
    ensures (z + Block(a, i - 1))[Member(a.time, a.id, i) := a.time] == z + Block(a, i)
    ensures z + Block(a, 0) == z
  {
  }

  lemma {:induction false} PrefixIds(log: Log)
    requires log != [] && GoodIds(log)
    ensures GoodIds(log[..|log| - 1]) && FreshId(log[..|log| - 1], log[|log| - 1].id)
  {
  }

  /** ZCARD is the number of units in the log. */
  lemma {:induction false} CardIsUnits(log: Log)
    requires GoodIds(log)
    ensures |Expand(log)| == Units(log)
    decreases |log|
  {
    if log != [] {
      var n := |log| - 1;
      PrefixIds(log);
      CardIsUnits(log[..n]);
      FreshBlock(log[..n], log[n], log[n].cost);
      BlockContents(log[n], log[n].cost);
      DisjointUnionSize(Expand(log[..n]), Block(log[n], log[n].cost));
    }
  }

  lemma {:induction false} EvictUnion(x: ZSet, y: ZSet, edge: int)
    requires x.Keys !! y.Keys
    ensures Evict(x + y, edge) == Evict(x, edge) + Evict(y, edge)
  {
  }

  lemma {:induction false} EvictBlock(a: Admission, k: nat, edge: int)
    requires |a.id| == UUID_LENGTH
    ensures Evict(Block(a, k), edge) == if a.time > edge then Block(a, k) else map[]
  {
    BlockContents(a, k);
  }

  lemma {:induction false} LiveIds(log: Log, edge: int)
    requires GoodIds(log)
    ensures GoodIds(Live(log, edge))
    decreases |log|
  {
    if log != [] {
      PrefixIds(log);
      LiveIds(log[..|log| - 1], edge);
      FreshInLive(log[..|log| - 1], edge, log[|log| - 1].id);
    }
  }

  lemma {:induction false} EvictEmpty(edge: int)
    ensures Evict(map[], edge) == map[]
  {
  }

  /** Evicting by score is evicting admissions. */
  lemma {:induction false} EvictIsLive(log: Log, edge: int)
    requires GoodIds(log)
    ensures Evict(Expand(log), edge) == Expand(Live(log, edge))
    decreases |log|
  {
    hide Block, Evict, GoodIds;
    if log == [] {
      EvictEmpty(edge);
    } else {
      var n := |log| - 1;
      var pre, a := log[..n], log[n];
      PrefixIds(log);
      EvictIsLive(pre, edge);
      LiveIds(pre, edge);
      FreshInLive(pre, edge, a.id);
      ExpandAppend(Live(pre, edge), a);
      FreshBlock(pre, a, a.cost);
      EvictUnion(Expand(pre), Block(a, a.cost), edge);
      EvictBlock(a, a.cost, edge);
      assert Expand(Live(pre, edge)) + map[] == Expand(Live(pre, edge));
    }
  }

  lemma {:induction false} FreshInLive(log: Log, edge: int, id: string)
    requires FreshId(log, id)
    ensures FreshId(Live(log, edge), id)
  {
    forall k | 0 <= k < |Live(log, edge)|
      ensures Live(log, edge)[k].id != id
    {
      assert Live(log, edge)[k] in log;
    }
  }

  /** Every score is the time of an admission. */
  lemma {:induction false} ScoreHasAdmission(log: Log, m: string) returns (k: nat)
    requires GoodIds(log) && m in Expand(log)
    ensures k < |log| && Expand(log)[m] == log[k].time
    decreases |log|
  {
    var n := |log| - 1;
    PrefixIds(log);
    BlockContents(log[n], log[n].cost);
    if m in Block(log[n], log[n].cost) {
      k := n;
    } else {
      k := ScoreHasAdmission(log[..n], m);
    }
  }

  /** The last unit of every admission is stored under its time. */
  lemma {:induction false} AdmissionHasScore(log: Log, k: nat)
    requires GoodIds(log) && k < |log|
    ensures var a, z := log[k], Expand(log);
            Member(a.time, a.id, a.cost) in z && z[Member(a.time, a.id, a.cost)] == a.time
    decreases |log|
  {
    var n := |log| - 1;
    PrefixIds(log);
    if k < n {
      AdmissionHasScore(log[..n], k);
      FreshBlock(log[..n], log[n], log[n].cost);
    }
  }

  /** ZRANGE key 0 0 WITHSCORES returns the oldest admission time. */
  lemma {:induction false} LowestScore(log: Log, first: string)
    requires GoodIds(log) && log != []
    requires first in Expand(log) && forall m :: m in Expand(log) ==> Expand(log)[first] <= Expand(log)[m]
    ensures Expand(log)[first] == Oldest(log)
  {
    hide Expand, GoodIds, Member;
    var j := ScoreHasAdmission(log, first);
    var k :| 0 <= k < |log| && Oldest(log) == log[k].time;
    AdmissionHasScore(log, k);
  }

  /** A finite non-empty set has a member of lowest score. */
  lemma {:induction false} LowestExists(z: ZSet) returns (first: string)
    requires |z| > 0
    ensures first in z && forall m :: m in z ==> z[first] <= z[m]
    decreases |z|
  {
    var k :| k in z;
    var rest := map m | m in z && m != k :: z[m];
    assert rest.Keys == z.Keys - {k};
    assert forall m :: m in z ==> m == k || m in rest;
    if |rest| == 0 {
      first := k;
    } else {
      var low := LowestExists(rest);
      first := if z[k] <= z[low] then k else low;
    }
  }

  lemma {:induction false} NothingStored(log: Log)
    requires GoodIds(log)
    ensures Expand(log) == map[] <==> log == []
  {
    if log != [] {
      AdmissionHasScore(log, 0);
    }
  }

  /** What one check does to the set, in terms of the log behind it. */
  lemma {:induction false} StoredAfterStep(log: Log, c: Call)
    requires GoodIds(log) && FreshId(log, c.id)
    ensures GoodIds(Kept(log, c))
    ensures var live := Evict(Expand(log), c.Edge());
            && (Admits(log, c) <==> |live| + c.cost <= c.limit)
            && Expand(Kept(log, c)) == (if Admits(log, c) then live + Block(c.Entry(), c.cost) else live)
            && |Expand(Kept(log, c))| == Units(Kept(log, c)) == |live| + if Admits(log, c) then c.cost else 0
  {
    var live := Live(log, c.Edge());
    LiveIds(log, c.Edge());
    EvictIsLive(log, c.Edge());
    FreshInLive(log, c.Edge(), c.id);
    ExpandAppend(live, c.Entry());
    hide GoodIds, Expand, Evict, Live, Block, Units;
    AppendIf(live, c.Entry(), Admits(log, c), 0, 0);
    CardIsUnits(live);
    CardIsUnits(Kept(log, c));
  }

  /** `z` keeps every member of `live` with its score, and all its other members are scored `now`. */
  ghost predicate Extends(z: ZSet, live: ZSet, now: nat) {
    && (forall m :: m in live ==> m in z && z[m] == live[m])
    && (forall m :: m in z && m !in live ==> z[m] == now)
  }

  /** The members of a check are new to what eviction leaves, and all scored with its time. */
  lemma {:induction false} NewMembers(log: Log, c: Call)
    requires GoodIds(log) && FreshId(log, c.id)
    ensures var live := Evict(Expand(log), c.Edge());
            Extends(live, live, c.now) && Extends(live + Block(c.Entry(), c.cost), live, c.now)
  {
    hide Expand, Evict, Block, GoodIds, Live;
    LiveIds(log, c.Edge());
    EvictIsLive(log, c.Edge());
    FreshInLive(log, c.Edge(), c.id);
    FreshBlock(Live(log, c.Edge()), c.Entry(), c.cost);
    FreshIdLength(log, c.id);
    BlockContents(c.Entry(), c.cost);
  }

  lemma {:induction false} FreshIdLength(log: Log, id: string)
    requires FreshId(log, id)
    ensures |id| == UUID_LENGTH
  {
  }

  /** On a steady history the next check answers like the limiter that keeps everything. */
  lemma {:induction false} AnswersLikeNaive(history: seq<Call>, c: Call)
    ensures Steady(history + [c]) ==>
              Step(After([], history), c).1 == NaiveStep(NaiveAfter(history), c).1
  {
    if Steady(history + [c]) {
      PrunedLogRefinesFullHistory(history + [c]);
      AfterNext([], history, c);
      NaiveNext(history, c);
      assert Replies([], history + [c])[|history|] == NaiveReplies(history + [c])[|history|];
    }
  }

  class WindowKey {
    var zset: ZSet
    var expireAt: nat
    /** The admissions behind the members. */
    ghost var log: Log
    /** The checks since the key was created. */
    ghost var history: seq<Call>

    ghost predicate Valid()
      reads this
    {
      && GoodIds(log)
      && zset == Expand(log)
      && log == After([], history)
      && (history != [] ==> expireAt == history[|history| - 1].now + history[|history| - 1].windowMs)
    }

    constructor ()
      ensures Valid() && history == []
    {
      zset, expireAt, log, history := map[], 0, [], [];
    }

    /** The ZADD loop. */
    method AddMembers(now: nat, seqId: string, cost: pos)
      modifies this`zset
      ensures zset == old(zset) + Block(Admission(now, cost, seqId), cost)
    {
      ghost var entry := Admission(now, cost, seqId);
      NextMember(zset, entry, 1);
      for i := 1 to cost + 1
        invariant zset == old(zset) + Block(entry, i - 1)
      {
        NextMember(old(zset), entry, i);
        zset := zset[Member(now, seqId, i) := now];
      }
    }

    /** Eviction, the count and the decision, with the members an admission adds. */
    method Admit(limit: nat, windowMs: pos, cost: pos, now: nat, seqId: string) returns (allowed: bool, count: nat)
      requires GoodIds(log) && zset == Expand(log) && FreshId(log, seqId)
      modifies this`zset
      ensures var live := Evict(old(zset), now - windowMs);
              && (allowed <==> |live| + cost <= limit)
              && |zset| == |live| + (if allowed then cost else 0)
              && Extends(zset, live, now)
      ensures var c := Call(limit, windowMs, cost, now, seqId);
              && allowed == Admits(log, c) && GoodIds(Kept(log, c))
              && zset == Expand(Kept(log, c)) && count == Units(Kept(log, c))
    {
      hide Expand, Live, Units, Evict, Block, GoodIds, FreshId, Extends, Admits, Kept;
      ghost var c := Call(limit, windowMs, cost, now, seqId);
      StoredAfterStep(log, c);
      NewMembers(log, c);
      assert c.Edge() == now - windowMs && c.Entry() == Admission(now, cost, seqId);
      zset := Evict(zset, now - windowMs);
      count := |zset|;
      allowed := false;
      if count + cost <= limit {
        AddMembers(now, seqId, cost);
        allowed := true;
        count := count + cost;
      }
      assert allowed == Admits(log, c) && zset == Expand(Kept(log, c));
    }

    /** Everything after the decision but the TTL: what the reply reports about the set as it now is. */
    method Report(allowed: bool, count: nat, ghost kept: Log, limit: nat, windowMs: pos, now: nat, ghost c: Call)
      returns (reply: Reply)
      requires GoodIds(kept) && zset == Expand(kept) && count == Units(kept)
      requires c.limit == limit && c.windowMs == windowMs && c.now == now
      ensures reply == Answer(kept, allowed, c)
    {
      hide GoodIds, Units, Oldest, Expand;
      NothingStored(kept);
      var remaining := limit - count;
      if remaining < 0 {
        remaining := 0;
      }
      var resetMs;
      var retryAfterMs := 0;
      if zset != map[] {
        ghost var lowest := LowestExists(zset);
        var first :| first in zset && forall m :: m in zset ==> zset[first] <= zset[m];
        LowestScore(kept, first);
        var oldestScore := zset[first];
        resetMs := oldestScore + windowMs;
        if !allowed {
          retryAfterMs := oldestScore + windowMs - now;
          if retryAfterMs < 1 {
            retryAfterMs := 1;
          }
        }
      } else {
        resetMs := now + windowMs;
        if !allowed {
          retryAfterMs := windowMs;
        }
      }
      reply := Reply(allowed, remaining, retryAfterMs, resetMs);
    }

    /** The script: it admits exactly when the members younger than the window leave room, and then adds exactly
        `cost` members, scored with the time of the check. */
    method Check(limit: nat, windowMs: pos, cost: pos, nowOverride: int, seqId: string, seconds: nat, micros: nat)
      returns (reply: Reply, ghost now: nat)
      requires Valid() && FreshId(log, seqId)
      requires nowOverride < PRINTABLE && 1_000_000 * seconds + micros < 1000 * PRINTABLE && cost < PRINTABLE
      modifies this
      ensures Valid() && Reads(now, nowOverride, seconds, micros) && expireAt == now + windowMs
      ensures history == old(history) + [Call(limit, windowMs, cost, now, seqId)]
      ensures reply == Step(old(log), Call(limit, windowMs, cost, now, seqId)).1
      ensures var live := Evict(old(zset), now - windowMs);
              && (reply.allowed <==> |live| + cost <= limit)
              && |zset| == |live| + (if reply.allowed then cost else 0)
              && Extends(zset, live, now)
      ensures Steady(history) ==>
                reply == NaiveStep(NaiveAfter(old(history)), Call(limit, windowMs, cost, now, seqId)).1
    {
      hide Expand, Live, Units, After, Evict, GoodIds, FreshId, Answer, Extends, Reads, Steady, Kept, Admits;
      hide NaiveStep, NaiveAfter;
      var time := ReadClock(nowOverride, seconds, micros);
      now := time;
      ghost var c := Call(limit, windowMs, cost, time, seqId);
      ghost var run := history + [c];
      AfterNext([], history, c);
      AnswersLikeNaive(history, c);
      var allowed, count := Admit(limit, windowMs, cost, time, seqId);
      reply := Report(allowed, count, Kept(log, c), limit, windowMs, time, c);
      expireAt := time + windowMs;
      assert run[|run| - 1] == c;
      log, history := Kept(log, c), run;
    }

    /** The key expires once its deadline has passed; on a nondecreasing clock no later check that looks back no
        further than the last one did can tell. */
    method Expire(now: nat)
      requires Valid() && now >= expireAt
      modifies this
      ensures Valid() && zset == map[] && history == []
      ensures old(history) != [] && Nondecreasing(old(history)) ==>
                forall c: Call :: c.now >= now && c.windowMs <= old(history)[|old(history)| - 1].windowMs ==>
                  Step(log, c) == Step(old(log), c)
    {
      hide Step;
      forall c: Call | history != [] && Nondecreasing(history)
                       && c.now >= now && c.windowMs <= history[|history| - 1].windowMs
        ensures Step([], c) == Step(log, c)
      {
        EmptyFromTtlOn(history, c);
      }
      zset, log, history := map[], [], [];
    }
  }
}
