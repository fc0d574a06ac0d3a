/** The Redis keyspace both scripts work on: many keys, any interleaving of atomic script calls by any number of
    clients, and keys that expire at or after their deadline. */
module Store {
  import opened Numbers
  import opened CoreTypes
  import TB = TokenBucket
  import TBP = TokenBucketPromises
  import SW = SlidingWindow
  import SWR = SlidingWindowRuns

  datatype Command = BucketCheck(bucket: TB.Call) | WindowCheck(window: SW.Call)
  {
    function Now(): nat {
      if BucketCheck? then bucket.now else window.now
    }
  }

  /** A stored value with the deadline its last PEXPIRE set. */
  datatype Bucket = Bucket(tokens: real, last: nat, deadline: int)
  datatype Window = Window(log: SW.Log, deadline: int)

  /** The two value types live under disjoint keys (Keys.KeyDeterminesIdentity), so they are kept apart. */
  datatype Db = Db(buckets: map<string, Bucket>, windows: map<string, Window>)

  const EMPTY_DB := Db(map[], map[])

  function BucketState(db: Db, key: string): TB.State {
    if key in db.buckets then TB.Stored(db.buckets[key].tokens, db.buckets[key].last) else TB.Fresh
  }

  function WindowLog(db: Db, key: string): SW.Log {
    if key in db.windows then db.windows[key].log else []
  }

  /** One atomic step: a script call, tagged by the request that issued it, or the removal of a key. */
  datatype Event =
    | Check(tag: Option<nat>, key: string, command: Command)
    | Expire(key: string, at: nat)
  {
    function Time(): nat {
      if Check? then command.Now() else at
    }
  }

  function Answer(db: Db, key: string, command: Command): Reply {
    match command
    case BucketCheck(c) => TB.Step(BucketState(db, key), c).1
    case WindowCheck(c) => SW.Step(WindowLog(db, key), c).1
  }

  function Execute(db: Db, key: string, command: Command): Db {
    match command
    case BucketCheck(c) =>
      var s := TB.Step(BucketState(db, key), c).0;
      db.(buckets := db.buckets[key := Bucket(s.tokens, s.last, c.now + TB.Ttl(c.capacity, c.rate))])
    case WindowCheck(c) =>
      var log := SW.Step(WindowLog(db, key), c).0;
      // an empty sorted set is no key, and PEXPIRE on no key does nothing
      if log == [] then db.(windows := db.windows - {key})
      else db.(windows := db.windows[key := Window(log, c.now + c.windowMs)])
  }

  function Apply(db: Db, e: Event): Db {
    match e
    case Check(_, key, command) => Execute(db, key, command)
    case Expire(key, _) => Db(db.buckets - {key}, db.windows - {key})
  }

  function Replay(trace: seq<Event>): Db {
    if trace == [] then EMPTY_DB else Apply(Replay(trace[..|trace| - 1]), trace[|trace| - 1])
  }

  function LastTime(trace: seq<Event>): nat {
    if trace == [] then 0 else trace[|trace| - 1].Time()
  }

  /** What can happen next: the server clock does not go back, and a key goes only once its deadline is reached. */
  ghost predicate Enabled(trace: seq<Event>, e: Event) {
    && e.Time() >= LastTime(trace)
    && (e.Expire? ==>
        var db := Replay(trace);
        && (e.key in db.buckets ==> e.at >= db.buckets[e.key].deadline)
        && (e.key in db.windows ==> e.at >= db.windows[e.key].deadline))
  }

  ghost predicate Legal(trace: seq<Event>) {
    trace == [] || (Legal(trace[..|trace| - 1]) && Enabled(trace[..|trace| - 1], trace[|trace| - 1]))
  }

  // ----- one key's share of a trace -----

  predicate IsBucketCheck(e: Event, key: string) {
    e.Check? && e.key == key && e.command.BucketCheck?
  }

  predicate IsWindowCheck(e: Event, key: string) {
    e.Check? && e.key == key && e.command.WindowCheck?
  }

  function BucketCalls(trace: seq<Event>, key: string): seq<TB.Call> {
    if trace == [] then []
    else
      var n := |trace| - 1;
      var calls := BucketCalls(trace[..n], key);
      if IsBucketCheck(trace[n], key) then calls + [trace[n].command.bucket] else calls
  }

  function BucketReplies(trace: seq<Event>, key: string): (replies: seq<Reply>)
    ensures |replies| == |BucketCalls(trace, key)|
  {
    if trace == [] then []
    else
      var n := |trace| - 1;
      var replies := BucketReplies(trace[..n], key);
      if IsBucketCheck(trace[n], key) then replies + [Answer(Replay(trace[..n]), key, trace[n].command)] else replies
  }

  function WindowCalls(trace: seq<Event>, key: string): seq<SW.Call> {
    if trace == [] then []
    else
      var n := |trace| - 1;
      var calls := WindowCalls(trace[..n], key);
      if IsWindowCheck(trace[n], key) then calls + [trace[n].command.window] else calls
  }

  function WindowReplies(trace: seq<Event>, key: string): (replies: seq<Reply>)
    ensures |replies| == |WindowCalls(trace, key)|
  {
    if trace == [] then []
    else
      var n := |trace| - 1;
      var replies := WindowReplies(trace[..n], key);
      if IsWindowCheck(trace[n], key) then replies + [Answer(Replay(trace[..n]), key, trace[n].command)] else replies
  }

  // ----- the bucket: other keys and the TTL are invisible -----

  /** The deadline that the last of some checks set. */
  function BucketDeadline(calls: seq<TB.Call>): int
    requires calls != []
  {
    var last := calls[|calls| - 1];
    last.now + TB.Ttl(last.capacity, last.rate)
  }

  /** The stored bucket is the sequential one, or it has expired in time. */
  ghost predicate BucketInStep(db: Db, key: string, calls: seq<TB.Call>, from: nat) {
    && (calls != [] ==> calls[|calls| - 1].now <= from)
    && if key in db.buckets
       then
         && calls != [] && BucketState(db, key) == TB.After(TB.Fresh, calls)
         && db.buckets[key].deadline == BucketDeadline(calls)
       else calls == [] || from >= BucketDeadline(calls)
  }

  /** After the deadline a check whose rule fits cannot tell the bucket from a new one. */
  lemma {:induction false} ExpiredUnseen(calls: seq<TB.Call>, c: TB.Call)
    requires calls == [] || c.now >= BucketDeadline(calls)
    requires TBP.EditsFit(calls + [c])
    ensures TB.Step(TB.Fresh, c) == TB.Step(TB.After(TB.Fresh, calls), c)
  {
    if calls != [] {
      var last, s := calls[|calls| - 1], TB.After(TB.Fresh, calls);
      assert (calls + [c])[..|calls|] == calls;
      TB.TokensInRange(calls);
      TBP.EditInvisibleIff(last.capacity, last.rate, c.capacity, c.rate);
      assert TBP.Agree(TB.Fresh, s, c.capacity, c.rate, s.last + TB.Ttl(last.capacity, last.rate));
      assert TB.Available(TB.Fresh, c.capacity, c.rate, c.now) == TB.Available(s, c.capacity, c.rate, c.now);
    }
  }

  lemma {:induction false} BucketAfterCheck(db: Db, key: string, calls: seq<TB.Call>, c: TB.Call, from: nat)
    requires BucketInStep(db, key, calls, from) && from <= c.now && TBP.EditsFit(calls + [c])
    ensures TB.Step(BucketState(db, key), c) == TB.Step(TB.After(TB.Fresh, calls), c)
    ensures BucketInStep(Execute(db, key, BucketCheck(c)), key, calls + [c], c.now)
  {
    if key !in db.buckets {
      ExpiredUnseen(calls, c);
    }
    TBP.RepliesNext(TB.Fresh, calls, c);
  }

  lemma {:induction false} BucketAfterOther(trace: seq<Event>, e: Event, key: string, calls: seq<TB.Call>)
    requires Enabled(trace, e) && !IsBucketCheck(e, key)
    requires BucketInStep(Replay(trace), key, calls, LastTime(trace))
    ensures BucketInStep(Apply(Replay(trace), e), key, calls, e.Time())
  {
  }

  /** On any legal trace a key answers like a single bucket that runs the key's own checks one after the other and
      never expires, if every edit of its rule fits the TTL; under one rule there is nothing to fit. */
  lemma {:induction false} BucketKeyIsSequential(trace: seq<Event>, key: string)
    requires Legal(trace) && TBP.EditsFit(BucketCalls(trace, key))
    ensures BucketReplies(trace, key) == TB.Replies(TB.Fresh, BucketCalls(trace, key))
    ensures BucketInStep(Replay(trace), key, BucketCalls(trace, key), LastTime(trace))
    decreases |trace|
  {
    if trace != [] {
      var n := |trace| - 1;
      var pre, e := trace[..n], trace[n];
      var calls := BucketCalls(pre, key);
      if IsBucketCheck(e, key) {
        var c := e.command.bucket;
        EditsFitPrefix(calls, c);
        BucketKeyIsSequential(pre, key);
        hide TB.Step, TB.Ttl, TB.Available, TBP.EditsFit;
        TBP.RepliesNext(TB.Fresh, calls, c);
        BucketAfterCheck(Replay(pre), key, calls, c, LastTime(pre));
      } else {
        BucketKeyIsSequential(pre, key);
        hide TB.Step, TB.Ttl, TB.Available, TBP.EditsFit;
        BucketAfterOther(pre, e, key, calls);
      }
    }
  }

  lemma {:induction false} EditsFitPrefix(calls: seq<TB.Call>, c: TB.Call)
    requires TBP.EditsFit(calls + [c])
    ensures TBP.EditsFit(calls)
  {
    assert (calls + [c])[..|calls|] == calls;
  }

  /** No key outlives its use: a bucket's deadline is the first moment by which even an empty bucket has refilled, and
      a window's the first moment at which nothing of the check that set it is in reach. */
  lemma {:induction false} DeadlinesAreLeast(db: Db, key: string, command: Command, t: nat)
    requires t >= command.Now()
    ensures command.BucketCheck? ==>
              var c, db' := command.bucket, Execute(db, key, command);
              && key in db'.buckets
              && (t >= db'.buckets[key].deadline
                  <==> TB.Available(TB.Stored(0.0, c.now), c.capacity, c.rate, t) == c.capacity)
    ensures command.WindowCheck? && Answer(db, key, command).allowed ==>
              var c, db' := command.window, Execute(db, key, command);
              && key in db'.windows
              && (t >= db'.windows[key].deadline <==> c.now <= t - c.windowMs)
  {
    match command {
      case BucketCheck(c) =>
        TBP.TtlClampNeverFires(c.capacity, c.rate);
        TBP.FullIff(TB.Stored(0.0, c.now), c.capacity, c.rate, t);
      case WindowCheck(_) =>
    }
  }

  /** An empty sorted set is no key. */
  lemma {:induction false} NoEmptyWindow(trace: seq<Event>, key: string)
    ensures key in Replay(trace).windows ==> WindowLog(Replay(trace), key) != []
    decreases |trace|
  {
    if trace != [] {
      NoEmptyWindow(trace[..|trace| - 1], key);
      hide SW.Step;
    }
  }

  /** Whatever ran before, under whatever rules and clock, no stored bucket is in debt. */
  lemma {:induction false} NoBucketInDebt(trace: seq<Event>, key: string)
    ensures key in Replay(trace).buckets ==> Replay(trace).buckets[key].tokens >= 0.0
    decreases |trace|
  {
    if trace != [] {
      var e := trace[|trace| - 1];
      NoBucketInDebt(trace[..|trace| - 1], key);
      if IsBucketCheck(e, key) {
        var c := e.command.bucket;
        NeverInDebt(BucketState(Replay(trace[..|trace| - 1]), key), c);
      }
    }
  }

  lemma {:induction false} NeverInDebt(s: TB.State, c: TB.Call)
    requires s.Stored? ==> s.tokens >= 0.0
    ensures TB.Available(s, c.capacity, c.rate, c.now) >= 0.0 && TB.Step(s, c).0.tokens >= 0.0
  {
    if s.Stored? {
      TB.RefillNonNegative(c.rate, TB.Forward(s.last, c.now));
    }
  }

  // ----- the window: other keys and the TTL are invisible -----

  lemma {:induction false} ShrinkingPrefix(calls: seq<SW.Call>, c: SW.Call)
    requires SWR.Shrinking(calls + [c])
    ensures SWR.Shrinking(calls) && (calls != [] ==> c.windowMs <= calls[|calls| - 1].windowMs)
  {
    assert forall k :: 0 <= k < |calls| ==> (calls + [c])[k] == calls[k];
    assert (calls + [c])[|calls|] == c;
  }

  /** For every window that can still be asked about, the stored log shows what the full history shows. */
  ghost predicate WindowInStep(db: Db, key: string, calls: seq<SW.Call>, from: nat) {
    if calls == [] then key !in db.windows
    else
      var full, windowMs := SW.NaiveAfter(calls), calls[|calls| - 1].windowMs;
      && (forall edge :: edge >= from - windowMs ==> SW.Live(WindowLog(db, key), edge) == SW.Live(full, edge))
      && (key in db.windows ==> forall a :: a in full ==> a.time + windowMs <= db.windows[key].deadline)
      && (forall a :: a in full ==> a.time <= from)
  }

  lemma {:induction false} LogsStayInStep(log: SW.Log, full: SW.Log, c: SW.Call)
    requires SW.Live(log, c.Edge()) == SW.Live(full, c.Edge())
    requires forall a :: a in full ==> a.time <= c.now
    ensures SW.Step(log, c).1 == SW.NaiveStep(full, c).1
    ensures forall edge :: edge >= c.Edge() ==>
              SW.Live(SW.Step(log, c).0, edge) == SW.Live(SW.NaiveStep(full, c).0, edge)
    ensures forall a :: a in SW.NaiveStep(full, c).0 ==> a.time <= c.now
  {
    SWR.OneStepAgrees(log, full, c);
    forall edge | edge >= c.Edge()
      ensures SW.Live(SW.Step(log, c).0, edge) == SW.Live(SW.NaiveStep(full, c).0, edge)
    {
      SW.LiveTwice(SW.NaiveStep(full, c).0, c.Edge(), edge);
    }
  }

  lemma {:induction false} WindowAfterCheck(db: Db, key: string, calls: seq<SW.Call>, c: SW.Call, from: nat)
    requires WindowInStep(db, key, calls, from) && from <= c.now
    requires calls != [] ==> c.windowMs <= calls[|calls| - 1].windowMs
    ensures SW.Step(WindowLog(db, key), c).1 == SW.NaiveStep(SW.NaiveAfter(calls), c).1
    ensures WindowInStep(Execute(db, key, WindowCheck(c)), key, calls + [c], c.now)
  {
    hide SW.Step, SW.NaiveStep, SW.Live;
    LogsStayInStep(WindowLog(db, key), SW.NaiveAfter(calls), c);
    SW.NaiveNext(calls, c);
    assert WindowLog(Execute(db, key, WindowCheck(c)), key) == SW.Step(WindowLog(db, key), c).0;
  }

  lemma {:induction false} WindowAfterOther(trace: seq<Event>, e: Event, key: string, calls: seq<SW.Call>)
    requires Enabled(trace, e) && !IsWindowCheck(e, key)
    requires WindowInStep(Replay(trace), key, calls, LastTime(trace))
    ensures WindowInStep(Apply(Replay(trace), e), key, calls, e.Time())
  {
    hide SW.NaiveAfter;
    var db := Replay(trace);
    if e.Expire? && e.key == key && key in db.windows {
      var full, windowMs := SW.NaiveAfter(calls), calls[|calls| - 1].windowMs;
      forall edge | edge >= e.at - windowMs
        ensures SW.Live(full, edge) == SW.Live([], edge)
      {
        SW.NoneLive(full, edge);
      }
    }
  }

  /** On any legal trace a key whose window length stays or gets shorter answers like the limiter that keeps every
      admission and expires nothing; the limit may change at will. */
  lemma {:induction false} WindowKeyIsExact(trace: seq<Event>, key: string)
    requires Legal(trace) && SWR.Shrinking(WindowCalls(trace, key))
    ensures WindowReplies(trace, key) == SW.NaiveReplies(WindowCalls(trace, key))
    ensures WindowInStep(Replay(trace), key, WindowCalls(trace, key), LastTime(trace))
    decreases |trace|
  {
    if trace != [] {
      var n := |trace| - 1;
      var pre, e := trace[..n], trace[n];
      var calls := WindowCalls(pre, key);
      if IsWindowCheck(e, key) {
        var c := e.command.window;
        ShrinkingPrefix(calls, c);
        WindowKeyIsExact(pre, key);
        hide SW.Step, SW.NaiveStep, SW.Live, SWR.Shrinking;
        SW.NaiveNext(calls, c);
        WindowAfterCheck(Replay(pre), key, calls, c, LastTime(pre));
      } else {
        WindowKeyIsExact(pre, key);
        hide SW.Step, SW.NaiveStep, SW.Live, SWR.Shrinking;
        WindowAfterOther(pre, e, key, calls);
      }
    }
  }
}
