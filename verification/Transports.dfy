/** src/transports: the numbers of a decision as REST and gRPC clients see them. */
module Transports {
  import opened Numbers
  import opened CoreTypes
  import opened Store
  import opened Scripts
  import opened Limiter
  import opened Service
  import Validation
  import TB = TokenBucket
  import TBP = TokenBucketPromises
  import SW = SlidingWindow
  import SWP = SlidingWindowPromises

  // ----- REST -----

  function CeilSeconds(ms: int): int {
    Ceil(ms as real / 1000.0)
  }

  datatype Body =
    | AllowedBody(remaining: int, limit: real, resetMs: int)
    | DeniedBody(remaining: int, retryAfterMs: int)

  function CheckBody(d: Decision): Body {
    if d.allowed then AllowedBody(d.remaining, d.limit, d.resetMs) else DeniedBody(0, d.retryAfterMs)
  }

  /** `x` is the least whole number of seconds that reaches `ms` milliseconds. */
  ghost predicate LeastSeconds(x: real, ms: int) {
    x == x.Floor as real && forall seconds: int :: x.Floor <= seconds <==> ms <= 1000 * seconds
  }

  lemma {:induction false} CeilSecondsIsLeast(ms: int)
    ensures LeastSeconds(CeilSeconds(ms) as real, ms)
  {
    forall seconds: int
      ensures CeilSeconds(ms) <= seconds <==> ms <= 1000 * seconds
    {
      CeilIsLeast(ms as real / 1000.0, seconds);
    }
  }

  function HeadersOf(d: Decision): set<string> {
    {"X-RateLimit-Limit", "X-RateLimit-Remaining", "X-RateLimit-Reset"} + if d.allowed then {} else {"Retry-After"}
  }

  /** What a client may read off the headers of a reply to a decision. */
  ghost predicate Tells(headers: map<string, real>, d: Decision) {
    && HeadersOf(d) <= headers.Keys
    && headers["X-RateLimit-Limit"] == d.limit
    && headers["X-RateLimit-Remaining"] == Max(0, d.remaining) as real
    && LeastSeconds(headers["X-RateLimit-Reset"], d.resetMs)
    && (!d.allowed ==> LeastSeconds(headers["Retry-After"], d.retryAfterMs))
  }

  class RestReply {
    var headers: map<string, real>

    constructor ()
      ensures headers == map[]
    {
      headers := map[];
    }

    /** Afterwards the headers tell this decision, and every other header is as it was; in particular an
        admission sets no Retry-After. */
    method ApplyRateLimitHeaders(d: Decision)
      modifies this
      ensures Tells(headers, d)
      ensures headers.Keys == old(headers).Keys + HeadersOf(d)
      ensures forall h :: h in old(headers) && h !in HeadersOf(d) ==> headers[h] == old(headers)[h]
    {
      headers := headers["X-RateLimit-Limit" := d.limit];
      headers := headers["X-RateLimit-Remaining" := Max(0, d.remaining) as real];
      headers := headers["X-RateLimit-Reset" := CeilSeconds(d.resetMs) as real];
      if !d.allowed {
        headers := headers["Retry-After" := CeilSeconds(d.retryAfterMs) as real];
      }
      CeilSecondsIsLeast(d.resetMs);
      CeilSecondsIsLeast(d.retryAfterMs);
    }
  }

  /** One batch entry as REST flattens it and as gRPC sends it. */
  datatype WireDecision = WireDecision(allowed: bool, remaining: int, limit: real, retryAfterMs: int, resetMs: int)
  datatype WireEntry = WireOk(decision: WireDecision) | WireError(error: ServiceError)

  function FormatBatchEntry(entry: BatchEntry): WireEntry
    requires !entry.Unset?
  {
    match entry
    case Failed(error) => WireError(error)
    case Decided(d) => WireOk(WireDecision(d.allowed, Max(0, d.remaining), d.limit, d.retryAfterMs, d.resetMs))
  }

  // ----- gRPC -----

  /** A proto uint32 defaults to 0, which means the rule's own cost. */
  function CostOf(cost: nat): Option<pos> {
    if cost > 0 then Some(cost) else None
  }

  /** A cost reads the same on both transports: absent in JSON is 0 in proto, a positive count is itself. */
  lemma {:induction false} CostsReadAlike(cost: nat)
    ensures Validation.ParseCost(if cost == 0 then Validation.Undefined else Validation.Number(cost as real))
            == Validation.Good(CostOf(cost))
  {
  }

  function ToResponse(d: Decision): WireDecision {
    WireDecision(d.allowed, Max(0, d.remaining), d.limit, if d.allowed then 0 else d.retryAfterMs, d.resetMs)
  }

  function ToBatchEntry(entry: BatchEntry): WireEntry
    requires !entry.Unset?
  {
    match entry
    case Failed(error) => WireError(error)
    case Decided(d) => WireOk(ToResponse(d))
  }

  // ----- the service bounds what the scripts are sent -----

  /** The cost `resolve` checks is the cost `buildItem` sends: the request's own, else the rule's, else 1; and it
      fits the rule. */
  lemma {:induction false} SentCostFitsRule(tag: nat, uuid: string, tenantId: string, item: BatchItem,
                                            lookup: Lookup<Rule>)
    requires Resolve(tag, uuid, tenantId, item, lookup).Ready?
    ensures var input := Resolve(tag, uuid, tenantId, item, lookup).input;
            && lookup == Found(input.rule)
            && BuildItem(input).request.cost == CostAsked(item.cost, input.rule)
            && BuildItem(input).request.cost as real <= input.rule.Ceiling()
  {
  }

  /** The ceiling turns away exactly the costs no state of the key could admit: a request is let through to the
      script if and only if a fresh key would admit it. */
  lemma {:induction false} CeilingRejectsTheHopeless(input: CheckInput, rule: Rule, db: Db, now: nat)
    requires input.identifier != "" && input.rule == rule
    ensures var item, call := BuildItem(input), BuildItem(input).request.At(now);
            var asked := BatchItem(rule.ruleId, input.identifier, input.cost);
            var own := Resolve(input.tag, input.uuid, input.tenantId, asked, Found(rule));
            && (own == Ready(input) <==> Store.Answer(EMPTY_DB, item.key, call).allowed)
            && (own != Ready(input) ==> own == Rejected(InvalidRequest) && !Store.Answer(db, item.key, call).allowed)
  {
    match BuildItem(input).request.At(now) {
      case BucketCheck(_) =>
      case WindowCheck(c) =>
        SWP.StepCounts(WindowLog(db, BuildItem(input).key), c);
        SWP.StepCounts([], c);
    }
  }

  /** So the empty-set branch of the window script never runs for the service, in any state of the key. */
  lemma {:induction false} ServiceNeverEmptiesWindow(tag: nat, uuid: string, tenantId: string, item: BatchItem,
                                                     lookup: Lookup<Rule>, log: SW.Log, now: nat)
    requires Resolve(tag, uuid, tenantId, item, lookup).Ready?
    requires BuildItem(Resolve(tag, uuid, tenantId, item, lookup).input).request.WindowRequest?
    ensures SW.Step(log, BuildItem(Resolve(tag, uuid, tenantId, item, lookup).input).request.At(now).window).0 != []
  {
    SentCostFitsRule(tag, uuid, tenantId, item, lookup);
    SWP.NeverEmptyWithinLimit(log, BuildItem(Resolve(tag, uuid, tenantId, item, lookup).input).request.At(now).window);
  }

  // ----- REST and gRPC agree -----

  /** The decision a service check returns when the server runs it after `trace`. */
  function DecisionAfter(trace: seq<Event>, input: CheckInput, now: nat): Decision {
    Shape(input.rule, Store.Answer(Replay(trace), BuildItem(input).key, BuildItem(input).request.At(now)))
  }

  /** No script ever reports a negative `remaining` or a wait with an admission. */
  lemma {:induction false} ScriptRepliesAreSane(trace: seq<Event>, input: CheckInput, now: nat)
    ensures DecisionAfter(trace, input, now).remaining >= 0
    ensures DecisionAfter(trace, input, now).allowed ==> DecisionAfter(trace, input, now).retryAfterMs == 0
  {
    var db, item := Replay(trace), BuildItem(input);
    match item.request.At(now) {
      case BucketCheck(c) =>
        NoBucketInDebt(trace, item.key);
        NeverInDebt(BucketState(db, item.key), c);
      case WindowCheck(_) =>
    }
  }

  /** The two bodies agree on everything they both show, except that they show the same `remaining` exactly when the
      check was admitted or nothing remains: REST prints 0 on every denial. The limit is the rule's. */
  lemma {:induction false} BodiesAgreeIff(trace: seq<Event>, input: CheckInput, now: nat)
    ensures var d := DecisionAfter(trace, input, now);
            && (CheckBody(d).AllowedBody? <==> d.allowed) && ToResponse(d).allowed == d.allowed
            && (input.rule.TokenBucketRule? ==> ToResponse(d).limit == input.rule.capacity)
            && (input.rule.SlidingWindowRule? ==> ToResponse(d).limit == input.rule.limit as real)
            && (d.allowed ==>
                  CheckBody(d).limit == ToResponse(d).limit && CheckBody(d).resetMs == ToResponse(d).resetMs)
            && (!d.allowed ==> CheckBody(d).retryAfterMs == ToResponse(d).retryAfterMs)
            && (CheckBody(d).remaining == ToResponse(d).remaining <==> d.allowed || d.remaining == 0)
  {
    ScriptRepliesAreSane(trace, input, now);
  }

  /** For an effective cost of 1 they always agree, for every rule and in every reachable state of the store. */
  lemma {:induction false} UnitCostBodiesAgree(trace: seq<Event>, input: CheckInput, now: nat)
    requires CostAsked(input.cost, input.rule) == 1
    ensures var d := DecisionAfter(trace, input, now);
            CheckBody(d).AllowedBody? == ToResponse(d).allowed && CheckBody(d).remaining == ToResponse(d).remaining
  {
    var item := BuildItem(input);
    BodiesAgreeIff(trace, input, now);
    match item.request.At(now) {
      case BucketCheck(c) =>
        NoBucketInDebt(trace, item.key);
        NeverInDebt(BucketState(Replay(trace), item.key), c);
      case WindowCheck(c) =>
        if !SW.Step(WindowLog(Replay(trace), item.key), c).1.allowed {
          SWP.DeniedCounts(WindowLog(Replay(trace), item.key), c);
        }
    }
  }

  /** Batch entries look the same on both transports, whatever the cost, and an item's error is passed on. */
  lemma {:induction false} BatchEntriesAgree(trace: seq<Event>, input: CheckInput, now: nat, error: ServiceError)
    ensures var d := DecisionAfter(trace, input, now);
            FormatBatchEntry(Decided(d)) == ToBatchEntry(Decided(d)) == WireOk(ToResponse(d))
    ensures FormatBatchEntry(Failed(error)) == ToBatchEntry(Failed(error)) == WireError(error)
  {
    ScriptRepliesAreSane(trace, input, now);
  }

  // ----- the bodies keep the scripts' promises -----

  /** A denied REST body, or gRPC response, of a bucket: the same cost is admitted after its retryAfterMs, and not
      before, while nothing else is admitted. */
  lemma {:induction false} BodyRetryIsExact(rule: Rule, s: TB.State, c: TB.Call, denied: seq<TB.Call>, probe: TB.Call)
    requires !TB.Step(s, c).1.allowed && c.cost as real <= c.capacity && probe.cost == c.cost
    requires TBP.Continues(TB.Step(s, c).0, denied + [probe], c.capacity, c.rate)
    requires TBP.AllDenied(TB.Step(s, c).0, denied)
    ensures var d := Shape(rule, TB.Step(s, c).1);
            var passes := TB.Step(TB.After(TB.Step(s, c).0, denied), probe).1.allowed;
            && CheckBody(d).DeniedBody? && !ToResponse(d).allowed
            && (passes <==> probe.now >= c.now + CheckBody(d).retryAfterMs)
            && (passes <==> probe.now >= c.now + ToResponse(d).retryAfterMs)
  {
    hide TB.After, TB.Available, TB.WaitFor, TB.Refill;
    if probe.now >= c.now + TB.Step(s, c).1.retryAfterMs {
      TBP.AdmittedFromHint(s, c, denied, probe);
    } else {
      TBP.DeniedBeforeHint(s, c, denied, probe);
    }
  }

  /** The same for a unit-cost check of a window under one limit. */
  lemma {:induction false} WindowBodyRetryIsExact(rule: Rule, log: SW.Log, c: SW.Call, denied: seq<SW.Call>,
                                                  probe: SW.Call)
    requires c.cost == 1 <= c.limit && SW.Units(log) <= c.limit && SWP.FollowsDeny(log, c, denied, probe)
    ensures var d := Shape(rule, SW.Step(log, c).1);
            var passes := SW.Step(SW.After(SW.Step(log, c).0, denied), probe).1.allowed;
            && CheckBody(d).DeniedBody? && !ToResponse(d).allowed
            && (passes <==> probe.now >= c.now + CheckBody(d).retryAfterMs)
            && (passes <==> probe.now >= c.now + ToResponse(d).retryAfterMs)
  {
    hide SW.After, SW.Step, SW.Units;
    if probe.now >= c.now + SW.Step(log, c).1.retryAfterMs {
      SWP.UnitCostAdmittedFromHint(log, c, denied, probe);
    } else {
      SWP.DeniedBeforeHint(log, c, denied, probe);
    }
  }

  /** An admitted body, or response, of a bucket: with no later admission the bucket is full exactly from its resetMs
      on, and `remaining` is how many more unit checks pass at that instant. */
  lemma {:induction false} AdmittedBodyIsExact(rule: Rule, pre: seq<TB.Call>, c: TB.Call, denied: seq<TB.Call>, t: nat,
                                               burst: seq<TB.Call>, k: nat)
    requires TB.Step(TB.After(TB.Fresh, pre), c).1.allowed
    requires TBP.Continues(TB.Step(TB.After(TB.Fresh, pre), c).0, denied, c.capacity, c.rate)
    requires TBP.AllDenied(TB.Step(TB.After(TB.Fresh, pre), c).0, denied)
    requires t >= c.now && t >= TBP.Latest(TB.Step(TB.After(TB.Fresh, pre), c).0, denied)
    requires k < |burst| && TBP.UnitBurst(burst, c.capacity, c.rate, c.now)
    ensures var s := TB.Step(TB.After(TB.Fresh, pre), c).0;
            var body := CheckBody(Shape(rule, TB.Step(TB.After(TB.Fresh, pre), c).1));
            && body.AllowedBody?
            && (TB.Available(TB.After(s, denied), c.capacity, c.rate, t) == c.capacity <==> t >= body.resetMs)
            && (TB.ReplyAt(s, burst, k).allowed <==> k < body.remaining)
  {
    hide TB.After, TB.Available, TB.Step;
    TBP.ResetIsLeastFullTime(TB.After(TB.Fresh, pre), c, denied, t);
    TBP.RemainingIsExact(pre, c, burst, k);
  }

  // ----- the headers keep the scripts' promises -----

  /** Section 10.2.3 of RFC 9110: a bucket client that waits the seconds in Retry-After after a deny, while nothing
      else is admitted, is admitted; and the header is at least 1. */
  lemma {:induction false} RetryAfterSuffices(headers: map<string, real>, rule: Rule, s: TB.State, c: TB.Call,
                                              denied: seq<TB.Call>, probe: TB.Call)
    requires !TB.Step(s, c).1.allowed && c.cost as real <= c.capacity
    requires Tells(headers, Shape(rule, TB.Step(s, c).1))
    requires TBP.Continues(TB.Step(s, c).0, denied + [probe], c.capacity, c.rate)
    requires TBP.AllDenied(TB.Step(s, c).0, denied)
    requires probe.cost == c.cost && (probe.now - c.now) as real >= 1000.0 * headers["Retry-After"]
    ensures headers["Retry-After"] >= 1.0
    ensures TB.Step(TB.After(TB.Step(s, c).0, denied), probe).1.allowed
  {
    hide TB.After, TB.Refill, TB.WaitFor;
    TBP.RetryHintIsPositive(s, c);
    SecondsReach(headers["Retry-After"], TB.Step(s, c).1.retryAfterMs, probe.now - c.now);
    TBP.AdmittedFromHint(s, c, denied, probe);
  }

  /** Waiting the announced seconds is waiting the announced milliseconds, and a wait is never announced as 0. */
  lemma {:induction false} SecondsReach(x: real, ms: int, waited: int)
    requires LeastSeconds(x, ms)
    ensures waited as real >= 1000.0 * x ==> waited >= ms
    ensures waited as real <= 1000.0 * (x - 1.0) ==> waited < ms
    ensures ms >= 1 ==> x >= 1.0
  {
    var seconds := x.Floor;
    assert x == seconds as real;
    assert seconds <= seconds <==> ms <= 1000 * seconds;
    assert seconds <= seconds - 1 <==> ms <= 1000 * (seconds - 1);
    assert seconds <= 0 <==> ms <= 1000 * 0;
  }

  /** The same for a unit-cost check of a window under one limit. */
  lemma {:induction false} WindowRetryAfterSuffices(headers: map<string, real>, rule: Rule, log: SW.Log, c: SW.Call,
                                                    denied: seq<SW.Call>, probe: SW.Call)
    requires c.cost == 1 <= c.limit && SW.Units(log) <= c.limit && SWP.FollowsDeny(log, c, denied, probe)
    requires Tells(headers, Shape(rule, SW.Step(log, c).1))
    requires (probe.now - c.now) as real >= 1000.0 * headers["Retry-After"]
    ensures headers["Retry-After"] >= 1.0
    ensures SW.Step(SW.After(SW.Step(log, c).0, denied), probe).1.allowed
  {
    SWP.NeverEmptyWithinLimit(log, c);
    SWP.RetryClampNeverFires(log, c);
    hide SW.Step;
    SecondsReach(headers["Retry-After"], SW.Step(log, c).1.retryAfterMs, probe.now - c.now);
    SWP.UnitCostAdmittedFromHint(log, c, denied, probe);
  }

  /** At the second named by X-RateLimit-Reset the bucket is full, if nothing has been admitted since; a second
      before that it is not. */
  lemma {:induction false} FullAtResetHeader(headers: map<string, real>, rule: Rule, s: TB.State, c: TB.Call,
                                             denied: seq<TB.Call>, t: nat)
    requires Tells(headers, Shape(rule, TB.Step(s, c).1))
    requires TBP.Continues(TB.Step(s, c).0, denied, c.capacity, c.rate) && TBP.AllDenied(TB.Step(s, c).0, denied)
    requires t >= c.now && t >= TBP.Latest(TB.Step(s, c).0, denied)
    ensures t as real >= 1000.0 * headers["X-RateLimit-Reset"] ==>
              TB.Available(TB.After(TB.Step(s, c).0, denied), c.capacity, c.rate, t) == c.capacity
    ensures t as real <= 1000.0 * (headers["X-RateLimit-Reset"] - 1.0) ==>
              TB.Available(TB.After(TB.Step(s, c).0, denied), c.capacity, c.rate, t) < c.capacity
  {
    SecondsReach(headers["X-RateLimit-Reset"], TB.Step(s, c).1.resetMs, t);
    TBP.ResetIsLeastFullTime(s, c, denied, t);
  }

  /** X-RateLimit-Remaining is the exact number of further unit checks that pass at that instant. */
  lemma {:induction false} RemainingHeaderIsExact(headers: map<string, real>, rule: Rule, pre: seq<TB.Call>, c: TB.Call,
                                                  run: seq<TB.Call>, k: nat)
    requires Tells(headers, Shape(rule, TB.Step(TB.After(TB.Fresh, pre), c).1))
    requires k < |run| && TBP.UnitBurst(run, c.capacity, c.rate, c.now)
    ensures TB.ReplyAt(TB.Step(TB.After(TB.Fresh, pre), c).0, run, k).allowed
            <==> k as real < headers["X-RateLimit-Remaining"]
  {
    TBP.RemainingIsExact(pre, c, run, k);
  }

  /** The same for a window, in any state of the key. */
  lemma {:induction false} WindowRemainingHeaderIsExact(headers: map<string, real>, rule: Rule, log: SW.Log, c: SW.Call,
                                                        run: seq<SW.Call>, k: nat)
    requires Tells(headers, Shape(rule, SW.Step(log, c).1))
    requires k < |run| && SWP.UnitBurst(run, c.limit, c.windowMs, c.now)
    ensures SW.ReplyAt(SW.Step(log, c).0, run, k).allowed <==> k as real < headers["X-RateLimit-Remaining"]
  {
    SWP.RemainingIsExact(log, c, run, k);
  }
}
