/** src/adapters/scripts.ts: running scripts by digest, and recovering when the server has forgotten them. */
module Scripts {
  import opened Numbers
  import opened CoreTypes
  import opened Store
  import TB = TokenBucket
  import SW = SlidingWindow

  datatype ScriptName = TokenBucketScript | SlidingWindowScript

  /** The digest of each script's source. */
  function Digest(name: ScriptName): string {
    if name.TokenBucketScript? then "sha1(token_bucket.lua)" else "sha1(sliding_window.lua)"
  }

  /** The script a digest names. */
  function NameOf(sha: string): Option<ScriptName> {
    if sha == Digest(TokenBucketScript) then Some(TokenBucketScript)
    else if sha == Digest(SlidingWindowScript) then Some(SlidingWindowScript)
    else None
  }

  /** One entry of ARGV. */
  datatype Arg = Num(x: real) | Str(s: string)

  /** What a script call asks for; production sends 0 for nowOverride, so the server clock completes it. */
  datatype Request =
    | BucketRequest(capacity: posreal, rate: posreal, cost: pos)
    | WindowRequest(limit: nat, windowMs: pos, cost: pos, id: string)
  {
    function Script(): ScriptName {
      if BucketRequest? then TokenBucketScript else SlidingWindowScript
    }

    /** The arguments buildItem puts on the wire. */
    function Args(): seq<Arg> {
      match this
      case BucketRequest(capacity, rate, cost) => [Num(capacity), Num(rate), Num(cost as real), Num(0.0)]
      case WindowRequest(limit, windowMs, cost, id) =>
        [Num(limit as real), Num(windowMs as real), Num(cost as real), Num(0.0), Str(id)]
    }

    function At(now: nat): Command {
      match this
      case BucketRequest(capacity, rate, cost) => BucketCheck(TB.Call(capacity, rate, cost, now))
      case WindowRequest(limit, windowMs, cost, id) => WindowCheck(SW.Call(limit, windowMs, cost, now, id))
    }
  }

  predicate IsCount(a: Arg) {
    a.Num? && a.x == a.x.Floor as real && a.x >= 1.0
  }

  /** What a script makes of ARGV when the server clock shows `serverMs`; None for arguments it does not expect. */
  function ReadArgs(script: ScriptName, argv: seq<Arg>, serverMs: nat): Option<Command> {
    if |argv| < 4 || !argv[3].Num? then None
    else
      var now: nat := if argv[3].x > 0.0 then argv[3].x.Floor else serverMs;
      match script
      case TokenBucketScript =>
        if argv[0].Num? && argv[0].x > 0.0 && argv[1].Num? && argv[1].x > 0.0 && IsCount(argv[2]) then
          Some(BucketCheck(TB.Call(argv[0].x, argv[1].x, argv[2].x.Floor, now)))
        else None
      case SlidingWindowScript =>
        if |argv| == 5 && argv[0].Num? && argv[0].x >= 0.0 && IsCount(argv[1]) && IsCount(argv[2]) && argv[4].Str? then
          Some(WindowCheck(SW.Call(argv[0].x.Floor, argv[1].x.Floor, argv[2].x.Floor, now, argv[4].s)))
        else None
  }

  /** The script that a request names finds in its arguments, by position, exactly what was asked for. */
  lemma {:induction false} ScriptReadsItsArguments(request: Request, serverMs: nat)
    ensures ReadArgs(request.Script(), request.Args(), serverMs) == Some(request.At(serverMs))
    ensures request.Script() == if request.BucketRequest? then TokenBucketScript else SlidingWindowScript
  {
  }

  /** One item of a pipeline; the tag tells its execution from everybody else's. */
  datatype ScriptItem = ScriptItem(tag: nat, key: string, request: Request)

  /** NoScript is the server's own refusal, so nothing ran; Backend covers lost connections and timeouts. */
  datatype Error = NoScript | Backend

  datatype Result<+T> = Ok(value: T) | Err(error: Error)

  // ----- the outside world -----

  /** What the rest of the system may do to the server between two of our commands. */
  datatype ForeignStep =
    | OtherCheck(key: string, request: Request)
    | ExpireKey(key: string)
    | ScriptFlush
    | OtherLoad(name: ScriptName)
    | Tick(ms: nat)

  /** What becomes of one of our commands: answered, lost before it ran, or run with the answer lost. */
  datatype Fate = Answered | LostBefore | LostAfter

  /** Before each of our commands other clients take some steps; then the command meets its fate. */
  datatype Turn = Turn(steps: seq<ForeignStep>, fate: Fate)

  /** No command is lost and nobody flushes the script cache. */
  ghost predicate Calm(schedule: seq<Turn>) {
    forall k :: 0 <= k < |schedule| ==> schedule[k].fate.Answered? && ScriptFlush !in schedule[k].steps
  }

  // ----- traces -----

  predicate Ours(e: Event, tag: nat) {
    e.Check? && e.tag == Some(tag)
  }

  /** How often the request with this tag ran at or after position `from`. */
  function Times(trace: seq<Event>, from: nat, tag: nat): nat {
    if |trace| <= from then 0
    else Times(trace[..|trace| - 1], from, tag) + if Ours(trace[|trace| - 1], tag) then 1 else 0
  }

  function ReplyOf(trace: seq<Event>, k: nat): Reply
    requires k < |trace| && trace[k].Check?
  {
    Store.Answer(Replay(trace[..k]), trace[k].key, trace[k].command)
  }

  /** Position k is the execution of this item, and this is what it answered. */
  ghost predicate RanAt(trace: seq<Event>, k: nat, item: ScriptItem, reply: Reply) {
    && k < |trace| && Ours(trace[k], item.tag)
    && trace[k].key == item.key
    && trace[k].command == item.request.At(trace[k].command.Now())
    && ReplyOf(trace, k) == reply
  }

  /** A result tells the truth about what ran since `from`: an answer is the answer of the one execution, a
      NOSCRIPT means none, a backend error at most one. */
  ghost predicate Truthful(trace: seq<Event>, from: nat, item: ScriptItem, r: Result<Reply>) {
    match r
    case Ok(reply) => Times(trace, from, item.tag) == 1 && exists k :: from <= k && RanAt(trace, k, item, reply)
    case Err(NoScript) => Times(trace, from, item.tag) == 0
    case Err(Backend) => Times(trace, from, item.tag) <= 1
  }

  /** The trace grew, and of our requests only those with a tag in `tags` ran in the new part. */
  ghost predicate GrewBy(before: seq<Event>, after: seq<Event>, tags: set<nat>) {
    && before <= after
    && forall tag :: tag !in tags ==> Times(after, |before|, tag) == 0
  }

  lemma {:induction false} TimesSplit(before: seq<Event>, after: seq<Event>, from: nat, tag: nat)
    requires from <= |before| && before <= after
    ensures Times(after, from, tag) == Times(before, from, tag) + Times(after, |before|, tag)
    decreases |after|
  {
    if |before| < |after| {
      var n := |after| - 1;
      assert before <= after[..n];
      TimesSplit(before, after[..n], from, tag);
    } else {
      assert before == after;
    }
  }

  lemma {:induction false} GrewFurther(a: seq<Event>, b: seq<Event>, c: seq<Event>,
                                       s: set<nat>, t: set<nat>, all: set<nat>)
    requires GrewBy(a, b, s) && GrewBy(b, c, t) && s <= all && t <= all
    ensures GrewBy(a, c, all)
  {
    forall tag | tag !in all
      ensures Times(c, |a|, tag) == 0
    {
      TimesSplit(b, c, |a|, tag);
    }
  }

  /** What is true of an item stays true while only others run. */
  lemma {:induction false} TruthLasts(before: seq<Event>, after: seq<Event>, from: nat, item: ScriptItem,
                                      r: Result<Reply>)
    requires from <= |before| && before <= after && Times(after, |before|, item.tag) == 0
    requires Truthful(before, from, item, r)
    ensures Truthful(after, from, item, r)
  {
    TimesSplit(before, after, from, item.tag);
    if r.Ok? {
      var k :| from <= k && RanAt(before, k, item, r.value);
      assert after[..k] == before[..k];
      assert RanAt(after, k, item, r.value);
    }
  }

  /** A later attempt on an item that has not run yet decides the whole. */
  lemma {:induction false} LaterAttemptDecides(before: seq<Event>, after: seq<Event>, from: nat, item: ScriptItem,
                                               r: Result<Reply>)
    requires from <= |before| && before <= after && Times(before, from, item.tag) == 0
    requires Truthful(after, |before|, item, r)
    ensures Truthful(after, from, item, r)
  {
    TimesSplit(before, after, from, item.tag);
  }

  lemma {:induction false} OneMoreEvent(trace: seq<Event>, e: Event)
    requires Legal(trace) && Enabled(trace, e)
    ensures Legal(trace + [e]) && Replay(trace + [e]) == Apply(Replay(trace), e)
    ensures LastTime(trace + [e]) == e.Time()
    ensures forall tag :: Times(trace + [e], |trace|, tag) == if Ours(e, tag) then 1 else 0
    ensures GrewBy(trace, trace + [e], if e.Check? && e.tag.Some? then {e.tag.value} else {})
  {
    assert (trace + [e])[..|trace|] == trace;
  }

  // ----- the server -----

  class Redis {
    var db: Db
    var cache: set<ScriptName>
    var clock: nat
    /** What other clients will do and what will become of our commands: arbitrary. */
    var schedule: seq<Turn>
    /** Everything that has touched the keyspace, in the order the server ran it. */
    ghost var trace: seq<Event>

    ghost predicate Valid()
      reads this
    {
      Legal(trace) && db == Replay(trace) && LastTime(trace) <= clock
    }

    constructor (cache: set<ScriptName>, schedule: seq<Turn>)
      ensures Valid() && trace == [] && this.schedule == schedule
    {
      db, this.cache, clock, this.schedule, trace := EMPTY_DB, cache, 0, schedule, [];
    }

    /** One atomic script execution. */
    method Execute(script: ScriptName, tag: Option<nat>, key: string, request: Request) returns (reply: Reply)
      requires Valid() && script == request.Script()
      modifies this`db, this`trace
      ensures Valid()
      ensures trace == old(trace) + [Check(tag, key, request.At(clock))]
      ensures GrewBy(old(trace), trace, if tag.Some? then {tag.value} else {})
      ensures reply == Store.Answer(Replay(old(trace)), key, request.At(clock))
      ensures tag.Some? ==> Truthful(trace, |old(trace)|, ScriptItem(tag.value, key, request), Ok(reply))
    {
      ScriptReadsItsArguments(request, clock);
      var command := ReadArgs(script, request.Args(), clock).value;
      ghost var e := Check(tag, key, command);
      reply := Store.Answer(db, key, command);
      db := Store.Execute(db, key, command);
      OneMoreEvent(trace, e);
      ghost var grown := trace + [e];
      assert grown[..|trace|] == trace;
      trace := grown;
      if tag.Some? {
        assert RanAt(trace, |old(trace)|, ScriptItem(tag.value, key, request), reply);
      }
    }

    /** One step of another client; a key whose deadline has not passed stays. */
    method Foreign(step: ForeignStep)
      requires Valid()
      modifies this`db, this`cache, this`clock, this`trace
      ensures Valid() && GrewBy(old(trace), trace, {})
      ensures step != ScriptFlush ==> old(cache) <= cache
    {
      match step {
        case OtherCheck(key, request) =>
          var _ := Execute(request.Script(), None, key, request);
        case ExpireKey(key) =>
          if && (key in db.buckets ==> db.buckets[key].deadline <= clock)
             && (key in db.windows ==> db.windows[key].deadline <= clock) {
            var e := Expire(key, clock);
            OneMoreEvent(trace, e);
            db := Apply(db, e);
            trace := trace + [e];
          }
        case ScriptFlush =>
          cache := {};
        case OtherLoad(name) =>
          cache := cache + {name};
        case Tick(ms) =>
          clock := clock + ms;
      }
    }

    /** Everything that happens while one of our commands is on its way. */
    method Await() returns (fate: Fate)
      requires Valid()
      modifies this
      ensures Valid() && GrewBy(old(trace), trace, {})
      ensures Calm(old(schedule)) ==> Calm(schedule) && fate == Answered && old(cache) <= cache
    {
      if schedule == [] {
        return Answered;
      }
      var turn := schedule[0];
      schedule := schedule[1..];
      for i := 0 to |turn.steps|
        invariant Valid() && GrewBy(old(trace), trace, {})
        invariant schedule == old(schedule)[1..]
        invariant Calm(old(schedule)) ==> old(cache) <= cache
      {
        ghost var before := trace;
        Foreign(turn.steps[i]);
        GrewFurther(old(trace), before, trace, {}, {}, {});
        assert Calm(old(schedule)) ==> turn.steps[i] in old(schedule)[0].steps;
      }
      fate := turn.fate;
    }

    /** EVALSHA */
    method EvalSha(sha: string, item: ScriptItem) returns (r: Result<Reply>)
      requires Valid() && sha == Digest(item.request.Script())
      modifies this
      ensures Valid() && GrewBy(old(trace), trace, {item.tag})
      ensures Truthful(trace, |old(trace)|, item, r)
      ensures Calm(old(schedule)) ==>
                && Calm(schedule) && old(cache) <= cache && r != Err(Backend)
                && (item.request.Script() in old(cache) ==> r.Ok?)
    {
      var fate := Await();
      ghost var before := trace;
      assert Times(before, |old(trace)|, item.tag) == 0;
      if fate == LostBefore {
        r := Err(Backend);
      } else if NameOf(sha) == None || NameOf(sha).value !in cache {
        r := Err(if fate == Answered then NoScript else Backend);
      } else {
        var reply := Execute(NameOf(sha).value, Some(item.tag), item.key, item.request);
        GrewFurther(old(trace), before, trace, {}, {item.tag}, {item.tag});
        LaterAttemptDecides(before, trace, |old(trace)|, item, Ok(reply));
        r := if fate == Answered then Ok(reply) else Err(Backend);
      }
    }

    /** SCRIPT LOAD: stores the source and answers with its digest. */
    method ScriptLoad(name: ScriptName) returns (r: Result<string>)
      requires Valid()
      modifies this
      ensures Valid() && GrewBy(old(trace), trace, {})
      ensures r.Ok? ==> r.value == Digest(name)
      ensures r.Err? ==> r.error == Backend
      ensures Calm(old(schedule)) ==> Calm(schedule) && r.Ok? && old(cache) + {name} <= cache
    {
      var fate := Await();
      if fate == LostBefore {
        return Err(Backend);
      }
      cache := cache + {name};
      r := if fate == Answered then Ok(Digest(name)) else Err(Backend);
    }
  }

  // ----- the registry -----

  /** Results that tell the truth about the first items, and nothing ran for the others. */
  ghost predicate AllTruthful(trace: seq<Event>, from: nat, items: seq<ScriptItem>, results: seq<Result<Reply>>)
    requires |results| <= |items|
  {
    forall j :: 0 <= j < |results| ==> Truthful(trace, from, items[j], results[j])
  }

  /** A step that concerns item i alone leaves the truth about all others alone. */
  lemma {:induction false} OthersLast(before: seq<Event>, after: seq<Event>, from: nat, items: seq<ScriptItem>,
                                      results: seq<Result<Reply>>, i: nat)
    requires from <= |before| && |results| <= |items| && i < |items| && DistinctTags(items)
    requires GrewBy(before, after, {items[i].tag})
    requires AllTruthful(before, from, items, results)
    ensures forall j :: 0 <= j < |results| && j != i ==> Truthful(after, from, items[j], results[j])
  {
    forall j | 0 <= j < |results| && j != i
      ensures Truthful(after, from, items[j], results[j])
    {
      TruthLasts(before, after, from, items[j], results[j]);
    }
  }

  /** Every item ran exactly once, and its answer is the one at its own position. */
  ghost predicate AllAnswered(trace: seq<Event>, from: nat, items: seq<ScriptItem>, out: seq<Reply>) {
    |out| == |items| && forall j :: 0 <= j < |items| ==> Truthful(trace, from, items[j], Ok(out[j]))
  }

  lemma {:induction false} GrewNothing(trace: seq<Event>, tags: set<nat>)
    ensures GrewBy(trace, trace, tags)
  {
  }

  lemma {:induction false} TruthMeansAtMostOnce(trace: seq<Event>, from: nat, items: seq<ScriptItem>,
                                                results: seq<Result<Reply>>)
    requires |results| == |items| && AllTruthful(trace, from, items, results)
    ensures AtMostOnce(trace, from, items)
  {
    forall j | 0 <= j < |items|
      ensures Times(trace, from, items[j].tag) <= 1
    {
      assert Truthful(trace, from, items[j], results[j]);
    }
  }

  /** A refused item has been run again: its new result replaces the refusal. */
  lemma {:induction false} Settle(start: seq<Event>, before: seq<Event>, after: seq<Event>, from: nat,
                                  items: seq<ScriptItem>, results: seq<Result<Reply>>, i: nat, again: Result<Reply>)
    returns (settled: seq<Result<Reply>>)
    requires from <= |before| && |results| == |items| && i < |items| && DistinctTags(items)
    requires GrewBy(start, before, Tags(items)) && GrewBy(before, after, {items[i].tag})
    requires AllTruthful(before, from, items, results) && results[i] == Err(NoScript)
    requires Truthful(after, |before|, items[i], again)
    ensures settled == results[i := again]
    ensures AllTruthful(after, from, items, settled) && GrewBy(start, after, Tags(items)) && from <= |after|
  {
    settled := results[i := again];
    OthersLast(before, after, from, items, results, i);
    assert Truthful(before, from, items[i], results[i]);
    LaterAttemptDecides(before, after, from, items[i], again);
    assert items[i] in items;
    GrewFurther(start, before, after, Tags(items), {items[i].tag}, Tags(items));
  }

  /** If none of the items ran before the pipeline started, its results are the truth about the whole batch. */
  lemma {:induction false} ReachBack(start: seq<Event>, t1: seq<Event>, t2: seq<Event>, items: seq<ScriptItem>,
                                     res: seq<Result<Reply>>)
    requires |res| == |items| && GrewBy(start, t1, {}) && GrewBy(t1, t2, Tags(items))
    requires AllTruthful(t2, |t1|, items, res)
    ensures GrewBy(start, t2, Tags(items)) && AllTruthful(t2, |start|, items, res)
  {
    GrewFurther(start, t1, t2, {}, Tags(items), Tags(items));
    forall j | 0 <= j < |items|
      ensures Truthful(t2, |start|, items[j], res[j])
    {
      LaterAttemptDecides(t1, t2, |start|, items[j], res[j]);
    }
  }

  /** Whatever a truthful result says, its item ran at most once. */
  ghost predicate AtMostOnce(trace: seq<Event>, from: nat, items: seq<ScriptItem>) {
    forall j :: 0 <= j < |items| ==> Times(trace, from, items[j].tag) <= 1
  }

  ghost predicate DistinctTags(items: seq<ScriptItem>) {
    forall i, j :: 0 <= i < j < |items| ==> items[i].tag != items[j].tag
  }

  function Tags(items: seq<ScriptItem>): set<nat> {
    set item | item in items :: item.tag
  }

  lemma {:induction false} TagsNext(items: seq<ScriptItem>, i: nat)
    requires i < |items|
    ensures Tags(items[..i + 1]) == Tags(items[..i]) + {items[i].tag}
  {
    assert items[..i + 1] == items[..i] + [items[i]];
  }

  lemma {:induction false} NotYet(items: seq<ScriptItem>, i: nat)
    requires i < |items| && DistinctTags(items)
    ensures items[i].tag !in Tags(items[..i])
  {
  }

  class LuaScripts {
    const redis: Redis
    var shas: map<ScriptName, string>

    ghost predicate Valid()
      reads this, redis
    {
      redis.Valid() && forall name :: name in shas ==> shas[name] == Digest(name)
    }

    constructor (redis: Redis)
      requires redis.Valid()
      ensures Valid() && this.redis == redis && shas == map[]
    {
      this.redis := redis;
      shas := map[];
    }

    /** sha: the registered digest, loading the script on demand. */
    method Sha(name: ScriptName) returns (r: Result<string>)
      requires Valid()
      modifies this, redis
      ensures Valid() && GrewBy(old(redis.trace), redis.trace, {})
      ensures r.Ok? ==> r.value == Digest(name) && name in shas
      ensures name in old(shas) ==> r.Ok? && redis.trace == old(redis.trace) && redis.schedule == old(redis.schedule)
      ensures Calm(old(redis.schedule)) ==> Calm(redis.schedule) && r.Ok? && old(redis.cache) <= redis.cache
    {
      if name in shas {
        r := Ok(shas[name]);
      } else {
        r := redis.ScriptLoad(name);
        if r.Ok? {
          shas := shas[name := r.value];
        }
      }
    }

    /** run: one check, with one reload and one retry after NOSCRIPT. An answer means the check ran exactly once;
        a calm server always answers, whatever its script cache held. */
    method Run(item: ScriptItem) returns (r: Result<Reply>)
      requires Valid()
      modifies this, redis
      ensures Valid() && GrewBy(old(redis.trace), redis.trace, {item.tag})
      ensures Truthful(redis.trace, |old(redis.trace)|, item, r)
      ensures r.Ok? ==> item.request.Script() in shas
      ensures Calm(old(redis.schedule)) ==> Calm(redis.schedule) && r.Ok?
    {
      hide Legal, Replay, LastTime, RanAt, ReplyOf, Calm, Digest;
      ghost var start := redis.trace;
      var name := item.request.Script();
      var sha := Sha(name);
      if sha.Err? {
        return Err(Backend);
      }
      ghost var t1 := redis.trace;
      r := redis.EvalSha(sha.value, item);
      ghost var t2 := redis.trace;
      GrewFurther(start, t1, t2, {}, {item.tag}, {item.tag});
      LaterAttemptDecides(t1, t2, |start|, item, r);
      if r == Err(NoScript) {
        var reloaded := redis.ScriptLoad(name);
        ghost var t3 := redis.trace;
        GrewFurther(start, t2, t3, {item.tag}, {}, {item.tag});
        TimesSplit(t2, t3, |start|, item.tag);
        if reloaded.Err? {
          return Err(Backend);
        }
        shas := shas[name := reloaded.value];
        r := redis.EvalSha(reloaded.value, item);
        GrewFurther(start, t3, redis.trace, {item.tag}, {item.tag}, {item.tag});
        LaterAttemptDecides(t3, redis.trace, |start|, item, r);
      }
    }

    /** load: registers both scripts at startup. */
    method Load() returns (r: Result<()>)
      requires Valid()
      modifies this, redis
      ensures Valid() && GrewBy(old(redis.trace), redis.trace, {})
      ensures r.Ok? ==> TokenBucketScript in shas && SlidingWindowScript in shas
      ensures Calm(old(redis.schedule)) ==>
                Calm(redis.schedule) && r.Ok? && {TokenBucketScript, SlidingWindowScript} <= redis.cache
    {
      ghost var start := redis.trace;
      var first := redis.ScriptLoad(TokenBucketScript);
      if first.Err? {
        return Err(first.error);
      }
      shas := shas[TokenBucketScript := first.value];
      ghost var t1 := redis.trace;
      var second := redis.ScriptLoad(SlidingWindowScript);
      GrewFurther(start, t1, redis.trace, {}, {}, {});
      if second.Err? {
        return Err(second.error);
      }
      shas := shas[SlidingWindowScript := second.value];
      r := Ok(());
    }

    /** The digests of all items: those registered when the batch starts, the others loaded. */
    method ShasFor(items: seq<ScriptItem>) returns (r: Result<seq<string>>)
      requires Valid()
      modifies this, redis
      ensures Valid() && GrewBy(old(redis.trace), redis.trace, {})
      ensures r.Ok? ==>
                && |r.value| == |items|
                && forall i :: 0 <= i < |items| ==> r.value[i] == Digest(items[i].request.Script())
      ensures Calm(old(redis.schedule)) ==> Calm(redis.schedule) && r.Ok? && old(redis.cache) <= redis.cache
    {
      hide GrewBy, Legal, Replay, LastTime, Calm, Digest;
      GrewNothing(redis.trace, {});
      var registered := shas;
      var digests: seq<string> := [];
      for i := 0 to |items|
        invariant Valid() && GrewBy(old(redis.trace), redis.trace, {})
        invariant |digests| == i && forall j :: 0 <= j < i ==> digests[j] == Digest(items[j].request.Script())
        invariant Calm(old(redis.schedule)) ==> Calm(redis.schedule) && old(redis.cache) <= redis.cache
      {
        var name := items[i].request.Script();
        if name in registered {
          digests := digests + [registered[name]];
        } else {
          ghost var before := redis.trace;
          var loaded := redis.ScriptLoad(name);
          GrewFurther(old(redis.trace), before, redis.trace, {}, {}, {});
          if loaded.Err? {
            return Err(loaded.error);
          }
          shas := shas[name := loaded.value];
          digests := digests + [loaded.value];
        }
      }
      r := Ok(digests);
    }

    /** One pipelined round trip: every item gets its own answer or its own error. */
    method Pipeline(items: seq<ScriptItem>, digests: seq<string>) returns (res: seq<Result<Reply>>)
      requires Valid() && DistinctTags(items) && |digests| == |items|
      requires forall i :: 0 <= i < |items| ==> digests[i] == Digest(items[i].request.Script())
      modifies redis
      ensures Valid() && GrewBy(old(redis.trace), redis.trace, Tags(items))
      ensures |res| == |items| && AllTruthful(redis.trace, |old(redis.trace)|, items, res)
      ensures Calm(old(redis.schedule)) ==> Calm(redis.schedule) && Err(Backend) !in res
    {
      ghost var from := |redis.trace|;
      res := [];
      for i := 0 to |items|
        invariant Valid() && GrewBy(old(redis.trace), redis.trace, Tags(items[..i]))
        invariant |res| == i && AllTruthful(redis.trace, from, items, res)
        invariant Calm(old(redis.schedule)) ==> Calm(redis.schedule) && Err(Backend) !in res
      {
        ghost var before := redis.trace;
        NotYet(items, i);
        var r := redis.EvalSha(digests[i], items[i]);
        OthersLast(before, redis.trace, from, items, res, i);
        LaterAttemptDecides(before, redis.trace, from, items[i], r);
        TagsNext(items, i);
        GrewFurther(old(redis.trace), before, redis.trace, Tags(items[..i]), {items[i].tag}, Tags(items[..i + 1]));
        res := res + [r];
      }
      assert items[..|items|] == items;
    }

    /** The loop over the pipeline's results: answers are passed on, an item refused with NOSCRIPT is run again on
        its own, any other error is thrown. */
    method Collect(items: seq<ScriptItem>, res: seq<Result<Reply>>, ghost from: nat) returns (r: Result<seq<Reply>>)
      requires Valid() && DistinctTags(items) && |res| == |items| && from <= |redis.trace|
      requires AllTruthful(redis.trace, from, items, res)
      modifies this, redis
      ensures Valid() && GrewBy(old(redis.trace), redis.trace, Tags(items))
      ensures r.Ok? ==> AllAnswered(redis.trace, from, items, r.value)
      ensures r.Err? ==> AtMostOnce(redis.trace, from, items)
      ensures Calm(old(redis.schedule)) && Err(Backend) !in res ==> Calm(redis.schedule) && r.Ok?
    {
      hide Truthful, GrewBy, Times;
      GrewNothing(redis.trace, Tags(items));
      var out: seq<Reply> := [];
      ghost var settled := res;
      for i := 0 to |items|
        invariant Valid() && GrewBy(old(redis.trace), redis.trace, Tags(items)) && from <= |redis.trace|
        invariant |out| == i && |settled| == |items| && settled[i..] == res[i..]
        invariant AllTruthful(redis.trace, from, items, settled)
        invariant forall j :: 0 <= j < i ==> settled[j] == Ok(out[j])
        invariant Calm(old(redis.schedule)) ==> Calm(redis.schedule)
      {
        assert settled[i] == settled[i..][0] == res[i];
        if res[i] == Err(NoScript) {
          ghost var before := redis.trace;
          var again := Run(items[i]);
          settled := Settle(old(redis.trace), before, redis.trace, from, items, settled, i, again);
          if again.Err? {
            TruthMeansAtMostOnce(redis.trace, from, items, settled);
            return Err(again.error);
          }
          out := out + [again.value];
        } else if res[i].Err? {
          assert res[i].error.NoScript? || res[i].error.Backend?;
          assert res[i] in res;
          TruthMeansAtMostOnce(redis.trace, from, items, settled);
          return Err(res[i].error);
        } else {
          out := out + [res[i].value];
        }
      }
      r := Ok(out);
    }

    /** runMany: if it returns, every item ran exactly once and out[i] is the answer of item i's own execution; if
        it throws, no item ran more than once. Nothing else runs in its name. A calm server always answers. */
    method RunMany(items: seq<ScriptItem>) returns (r: Result<seq<Reply>>)
      requires Valid() && DistinctTags(items)
      modifies this, redis
      ensures Valid() && GrewBy(old(redis.trace), redis.trace, Tags(items))
      ensures r.Ok? ==> AllAnswered(redis.trace, |old(redis.trace)|, items, r.value)
      ensures r.Err? ==> AtMostOnce(redis.trace, |old(redis.trace)|, items)
      ensures Calm(old(redis.schedule)) ==> Calm(redis.schedule) && r.Ok?
    {
      ghost var start := redis.trace;
      if items == [] {
        return Ok([]);
      }
      var digests := ShasFor(items);
      if digests.Err? {
        return Err(digests.error);
      }
      ghost var t1 := redis.trace;
      var res := Pipeline(items, digests.value);
      ghost var t2 := redis.trace;
      ReachBack(start, t1, t2, items, res);
      r := Collect(items, res, |start|);
      GrewFurther(start, t2, redis.trace, Tags(items), Tags(items), Tags(items));
    }
  }
}
