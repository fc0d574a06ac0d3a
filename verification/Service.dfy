/** src/service/rateLimitService.ts: authentication, rule lookup, the cost ceiling, batches and the fail policy. */
module Service {
  import opened Numbers
  import opened CoreTypes
  import opened Scripts
  import opened Store
  import opened Limiter

  datatype ServiceError = UnknownApiKey | UnknownRule | InvalidRequest | BackendUnavailable

  /** A read from the tenant store or the rule cache; Down is a backend failure. */
  datatype Lookup<+T> = Found(value: T) | Missing | Down

  datatype BatchItem = BatchItem(rule: string, identifier: string, cost: Option<pos>)

  /** One slot of the result array; Unset is the hole `new Array(n)` starts with. */
  datatype BatchEntry = Unset | Decided(decision: Decision) | Failed(error: ServiceError)

  datatype Outcome<+T> = Returned(value: T) | Threw(error: ServiceError)

  const MAX_BATCH := 50

  datatype Resolution = Ready(input: CheckInput) | Rejected(error: ServiceError) | Aborted

  function Resolve(tag: nat, uuid: string, tenantId: string, item: BatchItem, lookup: Lookup<Rule>): Resolution {
    if item.identifier == "" then Rejected(InvalidRequest)
    else
      match lookup
      case Down => Aborted
      case Missing => Rejected(UnknownRule)
      case Found(rule) =>
        if EffectiveCost(item.cost, rule) as real > rule.Ceiling() then Rejected(InvalidRequest)
        else Ready(CheckInput(tag, uuid, tenantId, rule, item.identifier, item.cost))
  }

  function Degraded(nowMs: int): Decision {
    Decision(true, 0, 0.0, 0, nowMs, true)
  }

  /** What one checkBatch call works on: the items, and what the rule lookups and randomUUID() answer for each. */
  datatype Batch = Batch(tenantId: string, items: seq<BatchItem>, lookups: seq<Lookup<Rule>>, uuids: seq<string>)
  {
    ghost predicate Valid() {
      |lookups| == |items| && |uuids| == |items|
    }

    function At(i: nat): Resolution
      requires Valid() && i < |items|
    {
      Resolve(i, uuids[i], tenantId, items[i], lookups[i])
    }
  }

  /** The tasks finish in some order, each exactly once. */
  ghost predicate CompletionOrder(order: seq<nat>, n: nat) {
    && |order| == n
    && (forall k :: 0 <= k < n ==> order[k] < n)
    && (forall i, j :: 0 <= i < j < n ==> order[i] != order[j])
  }

  /** `runnable` after the tasks in `order` have finished: the resolved inputs in completion order. An input's
      tag is its index in the batch. */
  function RunnableOf(b: Batch, order: seq<nat>): seq<CheckInput>
    requires b.Valid() && forall k :: 0 <= k < |order| ==> order[k] < |b.items|
  {
    if order == [] then []
    else
      var n := |order| - 1;
      var runnable := RunnableOf(b, order[..n]);
      if b.At(order[n]).Ready? then runnable + [b.At(order[n]).input] else runnable
  }

  lemma {:induction false} AtKeepsIndex(b: Batch, i: nat)
    requires b.Valid() && i < |b.items|
    ensures b.At(i).Ready? ==> b.At(i).input.tag == i
  {
  }

  /** Every input is the resolution of the item its index names, and no index occurs twice. */
  ghost predicate Resolved(b: Batch, order: seq<nat>, inputs: seq<CheckInput>)
    requires b.Valid()
  {
    && (forall k :: 0 <= k < |inputs| ==>
          inputs[k].tag < |b.items| && inputs[k].tag in order && b.At(inputs[k].tag) == Ready(inputs[k]))
    && (forall i, j :: 0 <= i < j < |inputs| ==> inputs[i].tag != inputs[j].tag)
  }

  lemma {:induction false} RunnableIsResolved(b: Batch, order: seq<nat>)
    requires b.Valid() && forall k :: 0 <= k < |order| ==> order[k] < |b.items|
    requires forall i, j :: 0 <= i < j < |order| ==> order[i] != order[j]
    ensures Resolved(b, order, RunnableOf(b, order))
    decreases |order|
  {
    if order != [] {
      var n := |order| - 1;
      RunnableIsResolved(b, order[..n]);
      AtKeepsIndex(b, order[n]);
      assert order[n] !in order[..n];
      assert forall i :: i in order[..n] ==> i in order;
      hide Resolve;
    }
  }

  /** Every finished item that resolved is runnable, at a position of its own. */
  lemma {:induction false} ResolvedIsRunnable(b: Batch, order: seq<nat>, m: nat) returns (k: nat)
    requires b.Valid() && (forall k :: 0 <= k < |order| ==> order[k] < |b.items|)
    requires m < |order| && b.At(order[m]).Ready?
    ensures k < |RunnableOf(b, order)| && RunnableOf(b, order)[k] == b.At(order[m]).input
    decreases |order|
  {
    var n := |order| - 1;
    if m == n {
      k := |RunnableOf(b, order[..n])|;
    } else {
      k := ResolvedIsRunnable(b, order[..n], m);
    }
  }

  function Below(n: nat): (s: set<nat>)
    ensures |s| == n && forall j: nat :: j in s <==> j < n
  {
    if n == 0 then {} else Below(n - 1) + {n - 1}
  }

  function Seen(order: seq<nat>, k: nat): (s: set<nat>)
    requires k <= |order|
    ensures forall i :: i in s <==> i in order[..k]
  {
    if k == 0 then {}
    else
      assert order[..k] == order[..k - 1] + [order[k - 1]];
      Seen(order, k - 1) + {order[k - 1]}
  }

  lemma {:induction false} SeenCount(order: seq<nat>, k: nat)
    requires k <= |order| && forall i, j :: 0 <= i < j < |order| ==> order[i] != order[j]
    ensures |Seen(order, k)| == k
    decreases k
  {
    if k > 0 {
      SeenCount(order, k - 1);
      assert order[k - 1] !in order[..k - 1];
    }
  }

  /** A completion order reaches every index: n distinct indexes below n miss none. */
  lemma {:induction false} OrderReaches(order: seq<nat>, n: nat, i: nat)
    requires CompletionOrder(order, n) && i < n
    ensures i in order
  {
    hide Seen, Below;
    SeenCount(order, n);
    assert order[..n] == order;
    SubsetIsWhole(Seen(order, n), Below(n));
  }

  lemma {:induction false} SubsetIsWhole(a: set<nat>, b: set<nat>)
    requires a <= b && |a| == |b|
    ensures a == b
  {
    assert b == a + (b - a);
    assert |b - a| == 0;
  }

  /** The client error a request earns by itself: no identifier, an unknown rule, or a cost above the ceiling of its
      rule; the store is not asked about a request without an identifier. */
  ghost predicate Earns(item: BatchItem, lookup: Lookup<Rule>, error: ServiceError) {
    if item.identifier == "" then error == InvalidRequest
    else
      || (lookup.Missing? && error == UnknownRule)
      || (lookup.Found? && error == InvalidRequest
          && CostAsked(item.cost, lookup.value) as real > lookup.value.Ceiling())
  }

  /** The request can be sent: it earns no error and its rule was found. */
  ghost predicate Sendable(item: BatchItem, lookup: Lookup<Rule>) {
    && item.identifier != "" && lookup.Found?
    && CostAsked(item.cost, lookup.value) as real <= lookup.value.Ceiling()
  }

  /** Its rule could not be read. */
  ghost predicate Unreadable(item: BatchItem, lookup: Lookup<Rule>) {
    item.identifier != "" && lookup.Down?
  }

  /** Every request is one of the three, and resolve tells which. */
  lemma {:induction false} ResolveTells(tag: nat, uuid: string, tenantId: string, item: BatchItem, lookup: Lookup<Rule>)
    ensures var r := Resolve(tag, uuid, tenantId, item, lookup);
            && (forall error :: r == Rejected(error) <==> Earns(item, lookup, error))
            && (r.Aborted? <==> Unreadable(item, lookup))
            && (r.Ready? <==> Sendable(item, lookup))
            && (r.Ready? ==> r.input == CheckInput(tag, uuid, tenantId, lookup.value, item.identifier, item.cost))
  {
  }

  /** Entry i answers item i: the error it earns, or the decision of its own script call, run exactly once. */
  ghost predicate EntryAnswers(b: Batch, i: nat, entry: BatchEntry, trace: seq<Event>, from: nat)
    requires b.Valid() && i < |b.items|
  {
    var item, lookup := b.items[i], b.lookups[i];
    if Sendable(item, lookup) then
      var input := CheckInput(i, b.uuids[i], b.tenantId, lookup.value, item.identifier, item.cost);
      entry.Decided? && DecidedBy(trace, from, input, entry.decision)
    else
      entry.Failed? && Earns(item, lookup, entry.error) && Times(trace, from, i) == 0
  }

  /** After the tasks item i's slot holds the error it earns, and is still a hole otherwise. */
  ghost predicate OwnSlot(b: Batch, i: nat, entry: BatchEntry)
    requires b.Valid() && i < |b.items|
  {
    match entry
    case Unset => forall error :: !Earns(b.items[i], b.lookups[i], error)
    case Failed(error) => Earns(b.items[i], b.lookups[i], error)
    case Decided(_) => false
  }

  ghost predicate Positional(b: Batch, entries: seq<BatchEntry>, trace: seq<Event>, from: nat)
    requires b.Valid()
  {
    |entries| == |b.items| && forall i :: 0 <= i < |b.items| ==> EntryAnswers(b, i, entries[i], trace, from)
  }

  /** Fail-open: every item is let through, and none of their checks ran more than once. */
  ghost predicate AllDegraded(entries: seq<BatchEntry>, n: nat, nowMs: int, trace: seq<Event>, from: nat) {
    && |entries| == n
    && (forall i :: 0 <= i < n ==> entries[i] == Decided(Decision(true, 0, 0.0, 0, nowMs, true)))
    && forall tag :: Times(trace, from, tag) <= 1
  }

  ghost predicate Settled(b: Batch, i: nat, entry: BatchEntry)
    requires b.Valid() && i < |b.items|
  {
    !Unreadable(b.items[i], b.lookups[i]) && OwnSlot(b, i, entry)
  }

  /** requireTenant finds nobody: no key was sent, or the key is not known. */
  predicate NoTenant(apiKey: string, tenant: Lookup<string>) {
    apiKey == "" || tenant.Missing? || (tenant.Found? && tenant.value == "")
  }

  ghost predicate AllReadable(b: Batch)
    requires b.Valid()
  {
    forall i :: 0 <= i < |b.items| ==> !Unreadable(b.items[i], b.lookups[i])
  }

  lemma {:induction false} RunnableHasDistinctTags(b: Batch, order: seq<nat>)
    requires b.Valid() && CompletionOrder(order, |b.items|)
    ensures Resolved(b, order, RunnableOf(b, order))
    ensures DistinctTags(Items(RunnableOf(b, order)))
  {
    RunnableIsResolved(b, order);
    var r := RunnableOf(b, order);
    forall i, j | 0 <= i < j < |r|
      ensures Items(r)[i].tag != Items(r)[j].tag
    {
      assert r[i].tag != r[j].tag;
    }
  }

  lemma {:induction false} NothingRanTwice(before: seq<Event>, after: seq<Event>, inputs: seq<CheckInput>)
    requires GrewBy(before, after, Tags(Items(inputs))) && AtMostOnce(after, |before|, Items(inputs))
    ensures forall tag :: Times(after, |before|, tag) <= 1
  {
    forall tag | tag in Tags(Items(inputs))
      ensures Times(after, |before|, tag) <= 1
    {
      var item :| item in Items(inputs) && item.tag == tag;
      var i :| 0 <= i < |inputs| && Items(inputs)[i] == item;
    }
  }

  /** The tasks leave a hole for every input they resolve, and for no other item. */
  lemma {:induction false} ResolvedSlotsAreHoles(b: Batch, inputs: seq<CheckInput>, entries: seq<BatchEntry>)
    requires b.Valid() && |entries| == |b.items| && AllReadable(b)
    requires forall k :: 0 <= k < |inputs| ==> inputs[k].tag < |b.items| && b.At(inputs[k].tag) == Ready(inputs[k])
    requires forall i :: 0 <= i < |b.items| ==> OwnSlot(b, i, entries[i])
    ensures forall k :: 0 <= k < |inputs| ==> entries[inputs[k].tag] == Unset
    ensures forall i :: 0 <= i < |b.items| && !Sendable(b.items[i], b.lookups[i]) ==> entries[i] != Unset
  {
    hide Resolve, Earns, Sendable, Unreadable;
    forall i | 0 <= i < |b.items| && !Sendable(b.items[i], b.lookups[i])
      ensures entries[i] != Unset
    {
      ResolveTells(i, b.uuids[i], b.tenantId, b.items[i], b.lookups[i]);
      assert OwnSlot(b, i, entries[i]) && !Unreadable(b.items[i], b.lookups[i]);
      assert b.At(i) == Rejected(b.At(i).error);
    }
    forall k | 0 <= k < |inputs|
      ensures entries[inputs[k].tag] == Unset
    {
      var i := inputs[k].tag;
      ResolveTells(i, b.uuids[i], b.tenantId, b.items[i], b.lookups[i]);
      assert OwnSlot(b, i, entries[i]);
    }
  }

  /** The three index maps compose: item to runnable position, position to pipeline slot, slot back to item. */
  lemma {:induction false} EntriesArePositional(b: Batch, order: seq<nat>, entries: seq<BatchEntry>,
                                                decisions: seq<Decision>, before: seq<Event>, after: seq<Event>)
    requires b.Valid() && CompletionOrder(order, |b.items|) && AllReadable(b) && |entries| == |b.items|
    requires var r := RunnableOf(b, order);
             && Resolved(b, order, r) && |decisions| == |r| && GrewBy(before, after, Tags(Items(r)))
             && (forall k :: 0 <= k < |r| ==> DecidedBy(after, |before|, r[k], decisions[k]))
             && (forall k :: 0 <= k < |r| ==> entries[r[k].tag] == Decided(decisions[k]))
    requires forall i :: 0 <= i < |b.items| && !Sendable(b.items[i], b.lookups[i]) ==> OwnSlot(b, i, entries[i])
    ensures Positional(b, entries, after, |before|)
  {
    var r := RunnableOf(b, order);
    hide Resolve, Truthful, Earns, Sendable;
    forall i | 0 <= i < |b.items|
      ensures EntryAnswers(b, i, entries[i], after, |before|)
    {
      ResolveTells(i, b.uuids[i], b.tenantId, b.items[i], b.lookups[i]);
      if b.At(i).Ready? {
        OrderReaches(order, |b.items|, i);
        var m :| 0 <= m < |order| && order[m] == i;
        var k := ResolvedIsRunnable(b, order, m);
        AtKeepsIndex(b, i);
        assert r[k].tag == i && DecidedBy(after, |before|, r[k], decisions[k]);
      } else {
        assert b.At(i) == Rejected(b.At(i).error);
        assert Times(after, |before|, i) == 0;
      }
    }
  }

  class RateLimitService {
    const limiter: RateLimiter
    const failOpen: bool

    constructor (limiter: RateLimiter, failOpen: bool)
      ensures this.limiter == limiter && this.failOpen == failOpen
    {
      this.limiter := limiter;
      this.failOpen := failOpen;
    }

    ghost predicate Valid()
      reads limiter.scripts, limiter.scripts.redis
    {
      limiter.scripts.Valid()
    }

    ghost function Trace(): seq<Event>
      reads limiter.scripts.redis
    {
      limiter.scripts.redis.trace
    }

    /** The resolve tasks: each writes its own error slot or pushes its input, in completion order. A backend
        failure in any of them ends the batch. */
    method ResolveAll(b: Batch, order: seq<nat>, entries: array<BatchEntry>) returns (r: Option<seq<CheckInput>>)
      requires b.Valid() && CompletionOrder(order, |b.items|) && entries.Length == |b.items|
      requires forall i :: 0 <= i < entries.Length ==> entries[i] == Unset
      modifies entries
      ensures r.Some? <==> AllReadable(b)
      ensures r.Some? ==> r.value == RunnableOf(b, order)
      ensures r.Some? ==> forall i :: 0 <= i < |b.items| ==> OwnSlot(b, i, entries[i])
    {
      hide Resolve, Earns, Sendable, Unreadable;
      var runnable: seq<CheckInput> := [];
      for k := 0 to |order|
        invariant runnable == RunnableOf(b, order[..k])
        invariant forall j :: 0 <= j < k ==> Settled(b, order[j], entries[order[j]])
        invariant forall j :: k <= j < |order| ==> entries[order[j]] == Unset
      {
        var i := order[k];
        assert order[..k + 1][..k] == order[..k];
        ResolveTells(i, b.uuids[i], b.tenantId, b.items[i], b.lookups[i]);
        match b.At(i) {
          case Aborted =>
            assert Unreadable(b.items[i], b.lookups[i]);
            return None;
          case Rejected(error) =>
            entries[i] := Failed(error);
          case Ready(input) =>
            runnable := runnable + [input];
        }
      }
      assert order[..|order|] == order;
      forall i | 0 <= i < |b.items|
        ensures Settled(b, i, entries[i]) && !Unreadable(b.items[i], b.lookups[i])
      {
        OrderReaches(order, |b.items|, i);
      }
      r := Some(runnable);
    }

    /** Each decision goes to the slot its input came from; no slot is written twice. */
    method Fill(entries: array<BatchEntry>, runnable: seq<CheckInput>, decisions: seq<Decision>)
      requires |decisions| == |runnable|
      requires forall k :: 0 <= k < |runnable| ==> runnable[k].tag < entries.Length && entries[runnable[k].tag] == Unset
      requires forall j, k :: 0 <= j < k < |runnable| ==> runnable[j].tag != runnable[k].tag
      modifies entries
      ensures forall k :: 0 <= k < |runnable| ==> entries[runnable[k].tag] == Decided(decisions[k])
      ensures forall i :: 0 <= i < entries.Length && old(entries[i]) != Unset ==> entries[i] == old(entries[i])
    {
      for k := 0 to |runnable|
        invariant forall j :: 0 <= j < k ==> entries[runnable[j].tag] == Decided(decisions[j])
        invariant forall j :: k <= j < |runnable| ==> entries[runnable[j].tag] == Unset
        invariant forall i :: 0 <= i < entries.Length && old(entries[i]) != Unset ==> entries[i] == old(entries[i])
      {
        entries[runnable[k].tag] := Decided(decisions[k]);
      }
    }

    /** A backend failure lets the request through when failing open, marked as degraded, and is reported when
        failing closed. */
    ghost predicate FailPolicy(r: Outcome<Decision>, nowMs: int) {
      if failOpen then
        && r.Returned? && r.value.allowed && r.value.degraded && r.value.resetMs == nowMs
        && r.value.remaining == 0 && r.value.limit == 0.0 && r.value.retryAfterMs == 0
      else r == Threw(BackendUnavailable)
    }

    /** What the catch block makes of a backend failure. */
    method OnBatchFailure(n: nat, nowMs: int) returns (r: Outcome<seq<BatchEntry>>)
      ensures failOpen ==>
                r.Returned? && |r.value| == n && forall i :: 0 <= i < n ==> r.value[i] == Decided(Degraded(nowMs))
      ensures !failOpen ==> r == Threw(BackendUnavailable)
    {
      if !failOpen {
        return Threw(BackendUnavailable);
      }
      r := Returned(seq(n, _ => Decided(Degraded(nowMs))));
    }

    /** checkBatch. A normal return is positional, for every completion order of the resolve tasks and every mix of
        good and failing items; otherwise the fail policy speaks for the whole batch, and nothing ran twice. */
    method CheckBatch(apiKey: string, tenant: Lookup<string>, items: seq<BatchItem>, lookups: seq<Lookup<Rule>>,
                      uuids: seq<string>, order: seq<nat>, nowMs: int)
      returns (r: Outcome<seq<BatchEntry>>)
      requires Valid() && |lookups| == |items| && |uuids| == |items| && CompletionOrder(order, |items|)
      modifies limiter.scripts, limiter.scripts.redis
      ensures Valid() && old(Trace()) <= Trace()
      ensures !(1 <= |items| <= 50) ==> r == Threw(InvalidRequest) && Trace() == old(Trace())
      ensures 1 <= |items| <= 50 && (apiKey == "" || tenant == Missing || tenant == Found("")) ==>
                r == Threw(UnknownApiKey) && Trace() == old(Trace())
      ensures r.Returned? ==>
                || (tenant.Found?
                    && Positional(Batch(tenant.value, items, lookups, uuids), r.value, Trace(), |old(Trace())|))
                || (failOpen && AllDegraded(r.value, |items|, nowMs, Trace(), |old(Trace())|))
      ensures r.Threw? ==> forall tag :: Times(Trace(), |old(Trace())|, tag) <= 1
      ensures 1 <= |items| <= 50 && apiKey != "" && tenant != Missing && tenant != Found("") ==>
                r.Returned? || (r == Threw(BackendUnavailable) && !failOpen)
      ensures 1 <= |items| <= 50 && apiKey != "" && tenant.Found? && tenant.value != ""
              && AllReadable(Batch(tenant.value, items, lookups, uuids))
              && Calm(old(limiter.scripts.redis.schedule)) ==>
                r.Returned? && Positional(Batch(tenant.value, items, lookups, uuids), r.value, Trace(), |old(Trace())|)
    {
      hide Resolve, Truthful, CompletionOrder;
      if |items| == 0 || |items| > MAX_BATCH {
        return Threw(InvalidRequest);
      }
      if NoTenant(apiKey, tenant) {
        return Threw(UnknownApiKey);
      }
      if tenant.Down? {
        r := OnBatchFailure(|items|, nowMs);
        return;
      }
      var b := Batch(tenant.value, items, lookups, uuids);
      var entries := new BatchEntry[|items|](_ => Unset);
      var runnable := ResolveAll(b, order, entries);
      if runnable == None {
        r := OnBatchFailure(|items|, nowMs);
        return;
      }
      var inputs := runnable.value;
      RunnableHasDistinctTags(b, order);
      var decisions := limiter.CheckBatch(inputs);
      if decisions.Err? {
        NothingRanTwice(old(Trace()), Trace(), inputs);
        r := OnBatchFailure(|items|, nowMs);
        return;
      }
      ResolvedSlotsAreHoles(b, inputs, entries[..]);
      Fill(entries, inputs, decisions.value);
      EntriesArePositional(b, order, entries[..], decisions.value, old(Trace()), Trace());
      r := Returned(entries[..]);
    }

    /** check: client errors pass through, a backend failure meets the fail policy, and a decision that is not
        degraded is the answer of the one execution of the caller's own check. */
    method Check(apiKey: string, tenant: Lookup<string>, item: BatchItem, lookup: Lookup<Rule>, tag: nat, uuid: string,
                 nowMs: int)
      returns (r: Outcome<Decision>)
      requires Valid()
      modifies limiter.scripts, limiter.scripts.redis
      ensures Valid() && GrewBy(old(Trace()), Trace(), {tag})
      ensures Times(Trace(), |old(Trace())|, tag) <= 1
      ensures apiKey == "" || tenant == Missing || tenant == Found("") ==> r == Threw(UnknownApiKey)
      ensures apiKey != "" && tenant.Found? && tenant.value != "" ==>
                && (forall error :: Earns(item, lookup, error) ==> r == Threw(error))
                && (Unreadable(item, lookup) ==> FailPolicy(r, nowMs))
                && (Sendable(item, lookup) ==>
                      var input := CheckInput(tag, uuid, tenant.value, lookup.value, item.identifier, item.cost);
                      || FailPolicy(r, nowMs)
                      || (r.Returned? && DecidedBy(Trace(), |old(Trace())|, input, r.value)))
                && (Sendable(item, lookup) && Calm(old(limiter.scripts.redis.schedule)) ==>
                      var input := CheckInput(tag, uuid, tenant.value, lookup.value, item.identifier, item.cost);
                      r.Returned? && DecidedBy(Trace(), |old(Trace())|, input, r.value))
      ensures apiKey != "" && tenant.Down? ==> FailPolicy(r, nowMs)
    {
      if tenant.Found? {
        ResolveTells(tag, uuid, tenant.value, item, lookup);
      }
      hide Resolve, Earns, Sendable, Unreadable, DecidedBy;
      if NoTenant(apiKey, tenant) {
        return Threw(UnknownApiKey);
      }
      if tenant.Found? {
        match Resolve(tag, uuid, tenant.value, item, lookup) {
          case Rejected(error) =>
            return Threw(error);
          case Aborted =>
          case Ready(input) =>
            var d := limiter.Check(input);
            if d.Ok? {
              return Returned(d.value);
            }
        }
      }
      r := if failOpen then Returned(Degraded(nowMs)) else Threw(BackendUnavailable);
    }
  }
}
