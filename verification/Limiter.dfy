/** src/core/limiter.ts: from a rule to its script call, and from the script's reply to a decision. */
module Limiter {
  import opened Numbers
  import opened CoreTypes
  import opened Scripts
  import opened Store
  import opened Strings
  import Keys

  /** `tag` names the request in the server's trace and `uuid` is what randomUUID() will return for it. */
  datatype CheckInput =
    CheckInput(tag: nat, uuid: string, tenantId: string, rule: Rule, identifier: string, cost: Option<pos>)

  /** cost ?? rule.cost ?? DEFAULT_COST */
  function EffectiveCost(cost: Option<pos>, rule: Rule): pos {
    if cost.Some? then cost.value else if rule.cost.Some? then rule.cost.value else DEFAULT_COST
  }

  function BuildItem(input: CheckInput): ScriptItem {
    var rule, cost := input.rule, EffectiveCost(input.cost, input.rule);
    var key := Keys.LimitKey(input.tenantId, rule.ruleId, input.identifier, rule.Algorithm());
    ScriptItem(input.tag, key,
               if rule.TokenBucketRule? then BucketRequest(rule.capacity, rule.refillRate, cost)
               else WindowRequest(rule.limit, rule.windowMs, cost, input.uuid))
  }

  /** The request's own cost, else the rule's, else 1. */
  ghost function CostAsked(cost: Option<pos>, rule: Rule): pos {
    match (cost, rule.cost)
    case (Some(own), _) => own
    case (None, Some(usual)) => usual
    case (None, None) => 1
  }

  /** The cost a script is sent: the request's own, else the rule's, else 1. */
  lemma {:induction false} CostSent(input: CheckInput)
    ensures input.cost.Some? ==> BuildItem(input).request.cost == input.cost.value
    ensures input.cost.None? && input.rule.cost.Some? ==> BuildItem(input).request.cost == input.rule.cost.value
    ensures input.cost.None? && input.rule.cost.None? ==> BuildItem(input).request.cost == 1
    ensures BuildItem(input).request.cost == CostAsked(input.cost, input.rule)
  {
  }

  /** One tenant, rule id, identifier and algorithm. */
  predicate SameIdentity(a: CheckInput, b: CheckInput) {
    && a.tenantId == b.tenantId && a.rule.ruleId == b.rule.ruleId && a.identifier == b.identifier
    && (a.rule.TokenBucketRule? <==> b.rule.TokenBucketRule?)
  }

  /** Checks meet on one key exactly when they are of one identity, for colon-free tenants and rule ids of which
      neither opens the other up to a colon. */
  lemma {:induction false} KeysMeetIff(a: CheckInput, b: CheckInput)
    requires Free(a.tenantId, ':') && Free(b.tenantId, ':') && !Keys.Nested(a.rule.ruleId, b.rule.ruleId)
    ensures BuildItem(a).key == BuildItem(b).key <==> SameIdentity(a, b)
  {
    hide Keys.LimitKey, Keys.Nested;
    if BuildItem(a).key == BuildItem(b).key {
      Keys.KeyIsInjective(a.tenantId, a.rule.ruleId, a.identifier, a.rule.Algorithm(),
                          b.tenantId, b.rule.ruleId, b.identifier, b.rule.Algorithm());
    }
  }

  /** Checks of different tenants never meet, whatever their rules and identifiers. */
  lemma {:induction false} TenantsNeverMeet(a: CheckInput, b: CheckInput)
    requires Free(a.tenantId, ':') && Free(b.tenantId, ':') && a.tenantId != b.tenantId
    ensures BuildItem(a).key != BuildItem(b).key
  {
    Keys.TenantsNeverShareKeys(a.tenantId, a.rule.ruleId, a.identifier, a.rule.Algorithm(),
                               b.tenantId, b.rule.ruleId, b.identifier, b.rule.Algorithm());
  }

  /** The documented layout of the key a check is sent to. */
  lemma {:induction false} KeySent(input: CheckInput)
    ensures BuildItem(input).key
            == "throttle:{" + input.tenantId + ":" + input.rule.ruleId + ":" + input.identifier
               + if input.rule.TokenBucketRule? then "}:tb" else "}:sw"
  {
  }

  function Shape(rule: Rule, reply: Reply): Decision {
    Decision(reply.allowed, reply.remaining, rule.Ceiling(), reply.retryAfterMs, reply.resetMs, false)
  }

  /** The decision is the one execution of the input's own script call, shaped by the input's own rule. */
  ghost predicate DecidedBy(trace: seq<Event>, from: nat, input: CheckInput, d: Decision) {
    exists reply :: d == Shape(input.rule, reply) && Truthful(trace, from, BuildItem(input), Ok(reply))
  }

  function Items(inputs: seq<CheckInput>): (items: seq<ScriptItem>)
    ensures |items| == |inputs|
    ensures forall i :: 0 <= i < |inputs| ==> items[i] == BuildItem(inputs[i])
  {
    seq(|inputs|, i requires 0 <= i < |inputs| => BuildItem(inputs[i]))
  }

  class RateLimiter {
    const scripts: LuaScripts

    constructor (scripts: LuaScripts)
      ensures this.scripts == scripts
    {
      this.scripts := scripts;
    }

    method Check(input: CheckInput) returns (r: Result<Decision>)
      requires scripts.Valid()
      modifies scripts, scripts.redis
      ensures scripts.Valid() && GrewBy(old(scripts.redis.trace), scripts.redis.trace, {input.tag})
      ensures r.Ok? ==> DecidedBy(scripts.redis.trace, |old(scripts.redis.trace)|, input, r.value)
      ensures r.Err? ==> Times(scripts.redis.trace, |old(scripts.redis.trace)|, input.tag) <= 1
      ensures Calm(old(scripts.redis.schedule)) ==> Calm(scripts.redis.schedule) && r.Ok?
    {
      var reply := scripts.Run(BuildItem(input));
      r := if reply.Ok? then Ok(Shape(input.rule, reply.value)) else Err(reply.error);
    }

    /** Many checks in one pipelined round trip; decision i belongs to input i. */
    method CheckBatch(inputs: seq<CheckInput>) returns (r: Result<seq<Decision>>)
      requires scripts.Valid() && DistinctTags(Items(inputs))
      modifies scripts, scripts.redis
      ensures scripts.Valid() && GrewBy(old(scripts.redis.trace), scripts.redis.trace, Tags(Items(inputs)))
      ensures r.Ok? ==>
                && |r.value| == |inputs|
                && forall i :: 0 <= i < |inputs| ==>
                     DecidedBy(scripts.redis.trace, |old(scripts.redis.trace)|, inputs[i], r.value[i])
      ensures r.Err? ==> AtMostOnce(scripts.redis.trace, |old(scripts.redis.trace)|, Items(inputs))
      ensures Calm(old(scripts.redis.schedule)) ==> Calm(scripts.redis.schedule) && r.Ok?
    {
      hide Truthful, GrewBy, Times, BuildItem;
      var replies := scripts.RunMany(Items(inputs));
      if replies.Err? {
        return Err(replies.error);
      }
      var decisions := seq(|inputs|, i requires 0 <= i < |inputs| => Shape(inputs[i].rule, replies.value[i]));
      forall i | 0 <= i < |inputs|
        ensures DecidedBy(scripts.redis.trace, |old(scripts.redis.trace)|, inputs[i], decisions[i])
      {
        assert Truthful(scripts.redis.trace, |old(scripts.redis.trace)|, Items(inputs)[i], Ok(replies.value[i]));
      }
      r := Ok(decisions);
    }
  }
}
