# Throttle: verified model of the rate limiter

Throttle decides every request with one of two atomic Lua scripts, a token bucket and a sliding-window log, run by
digest on a shared Redis server. This project models both scripts, the keyspace they share, the digest protocol with
its recovery, the batch path of the service, the key layout and the numbers the two transports print, and proves what
callers rely on. `dafny verify dfyconfig.toml` checks all of it.

## How it is organised

| file | contents |
|---|---|
| Numbers, CoreTypes, Schedules, Strings | rounding, domain types, the stay-ahead argument, string splitting |
| TokenBucket | the bucket script as a function of the stored hash |
| TokenBucketRuns | closed form, envelopes, optimality, the clock |
| TokenBucketPromises | retry, reset, remaining, TTL, denied checks |
| TokenBucketKey | the stored hash as a class that the script updates in place |
| SlidingWindow | the window script on the log of admissions, and the limiter that forgets nothing |
| SlidingWindowRuns | refinement, exactness, conservation, optimality, denied checks |
| SlidingWindowPromises | retry, reset, remaining, TTL |
| SlidingWindowKey | the sorted set as a class: eviction, the ZADD loop, member names |
| Store, Guarantees | many keys, any interleaving, expiry; end-to-end statements |
| Scripts | the server, EVALSHA, NOSCRIPT recovery, the pipeline |
| Limiter, Service, Validation, Keys, Transports | the TypeScript layers around the scripts |

A run is a sequence of script calls on one key; the rule (capacity, rate, limit, window) travels with every call, so
instances that cache different versions of a rule are covered wherever a statement does not ask for one rule. A trace
is a sequence of atomic steps on the whole keyspace: script calls of any client and removals of keys whose deadline has
passed. Other clients, lost commands and lost answers enter the protocol model through a schedule that is an arbitrary
parameter; so do the completion order of the resolve tasks, rule lookups and UUIDs.

## Assumptions

- Tokens, capacity and rate are exact reals; double rounding and the decimal string in which `tokens` is stored are not
  modelled. Milliseconds are integers, as both scripts compute them.
- Rules and costs have the ranges `parseRule` and `parseCost` enforce (`posreal`, `pos`).
- `randomUUID()` yields 36 characters and never repeats among live entries; the clock stays below 10^14 ms, where Lua
  prints whole numbers as plain digits.
- A backend error never contains the text NOSCRIPT; the server answers NOSCRIPT only for a script it did not run.
- Statements about the shared store assume that the server clock does not step back. Single-key statements say what
  they need; those that hold for any clock say so.

## Where code and documentation differ

- The bucket script guards a backwards clock by clamping elapsed time (src/adapters/lua/token_bucket.lua:69-71) but still
  stores the earlier time, so a clock that steps back and forward mints the same interval twice
  (`TokenBucketRuns.BackwardClockRefillsTwice`). Exactly the clocks that keep their direction between two checks hold
  every rule and all costs to capacity + rate * elapsed between them (`TokenBucketRuns.IntervalBoundIff`).
- The sliding window is called exact. It is for a nondecreasing clock. On any clock the count of a check is the true
  count of (now - windowMs, now] less the admissions an earlier check swept past, plus those of later times that are
  still there, and it is right exactly when the two amount to the same (`SlidingWindowRuns.CountIsRightIff`). Windows
  can be overfilled (`SlidingWindowRuns.BackwardClockOverfillsWindow`) exactly on clocks that leave an instant a whole
  window behind and later come back to within a window of it (`SlidingWindowRuns.NeverOverfillsIff`).
- retryAfterMs is documented as the time until a retry could succeed (src/core/types.ts:57). For a window it is computed
  from the oldest entry alone: a sharp bound for cost 1, in general only a lower bound, sharp exactly when the oldest
  instant frees enough units (`SlidingWindowPromises.AdmittedAtHintIff`, `SlidingWindowPromises.HintCanBeEarly`).
- An expired bucket is called indistinguishable from a new one. Across an edit of the rule that holds for a given bucket
  exactly when its missing tokens would have accrued, under the new rule, within the TTL of the old one
  (`TokenBucketPromises.ExpiryInvisibleIff`), and for every bucket exactly when the new rule fills an empty bucket within
  that TTL (`TokenBucketPromises.EditInvisibleIff`; `TokenBucketPromises.EditCanShow` is an edit that does not). For a
  window the edit must not make the window longer (`SlidingWindowPromises.ExpiryInvisibleIff`).
- A key is said to pin one identity to one slot. Two rules of one tenant can share a key exactly when one rule id
  followed by a colon opens the other (`Keys.RulesCollideIff`, `Keys.ColonInRuleIdCollides`), and the keys of the two
  algorithms of one identity have the same hash tag exactly when the tenant id does not open with a closing brace
  (`Keys.BothAlgorithmsShareTagIff`).

## Model

| member | source | states |
|---|---|---|
| TokenBucketKey.BucketKey.Check | src/adapters/lua/token_bucket.lua:46-99 | the check happens at the whole milliseconds of TIME or at the override; the tokens found are those stored plus rate * elapsed, capped; it is admitted if and only if, for every earlier check of the key, the cost admitted since then stays within that check's burst plus the refill since; both hints and the deadline are the least waits that bring what is missing; tokens stay in [0, capacity] |
| TokenBucketKey.BucketKey.Expire | src/adapters/lua/token_bucket.lua:93-97 | the deadline is late enough: from then on a key that is gone answers every check like the hash it held, under the last rule and under every rule that fits its TTL |
| ServerClock.ReadClock | src/adapters/lua/token_bucket.lua:52-58 | the override if it is above zero, else the milliseconds of TIME with nothing but the last fraction dropped |
| ServerClock.ReadingsInOrder | src/adapters/lua/sliding_window.lua:41-47 | later readings of TIME never give an earlier time, and differ by the elapsed time up to one millisecond |
| TokenBucket.RefillIsBrought | src/adapters/lua/token_bucket.lua:72 | a refill is rate * elapsed milliseconds / 1000 |
| TokenBucket.WaitForIsLeast | src/adapters/lua/token_bucket.lua:79-87 | a wait is the least number of milliseconds in which the rate brings the amount |
| TokenBucketRuns.ClosedForm | src/adapters/lua/token_bucket.lua:60-72 | for any run, any clock and any sequence of rules, the tokens a check finds are the minimum over all earlier checks of capacity plus refill over forward clock moves minus cost admitted since: two fields summarise the whole history |
| TokenBucketRuns.AdmittedIffWithinEveryEnvelope | src/adapters/lua/token_bucket.lua:74-83 | a check passes exactly when no envelope anchored at an earlier check breaks |
| TokenBucketRuns.StretchBound | src/adapters/lua/token_bucket.lua:69-78 | over any stretch of any run, admitted cost is at most one burst plus the refill of that stretch |
| TokenBucketRuns.GainIsElapsedPlusBackward | src/adapters/lua/token_bucket.lua:69-72 | minted tokens are those of elapsed time plus those of every backward clock move, exactly |
| TokenBucketRuns.IntervalBound | src/adapters/lua/token_bucket.lua:69-78 | nondecreasing clock: any interval through which one rule holds admits at most capacity + rate * elapsed, whatever rules came before |
| TokenBucketRuns.IntervalBoundIff | src/adapters/lua/token_bucket.lua:69-91 | for a given clock: no rule and no costs admit more than capacity + rate * elapsed between two checks if and only if the clock keeps its direction between them; on any other clock a run that admits more is constructed |
| TokenBucketRuns.BackwardClockRefillsTwice | src/adapters/lua/token_bucket.lua:70-91 | a concrete run in which stepping the clock back and forward admits two units through a bucket of one at one instant |
| TokenBucketRuns.GreedyIsOptimal | src/adapters/lua/token_bucket.lua:69-83 | unit costs, any clock and rules: the script's schedule is feasible, and after every prefix it has admitted at least as many requests as any feasible schedule |
| TokenBucketPromises.CappedRefillsCompose | src/adapters/lua/token_bucket.lua:72 | refilling in two capped steps equals refilling once |
| TokenBucketPromises.DeniedChecksLeaveNoTrace | src/adapters/lua/token_bucket.lua:69-91 | deleting any set of denied checks from a run leaves every other reply, and the final state as later checks see it, unchanged |
| TokenBucketPromises.TrafficOnlyLowers | src/adapters/lua/token_bucket.lua:72-78 | no traffic ever makes more tokens available at a later time than silence would |
| TokenBucketPromises.RetryHintIsLeast | src/adapters/lua/token_bucket.lua:79-83 | after a deny with cost within capacity, the cost is covered exactly from now + retryAfterMs on |
| TokenBucketPromises.RetryHintIsPositive | src/adapters/lua/token_bucket.lua:79-83 | a deny never hints at an immediate retry |
| TokenBucketPromises.DeniedBeforeHint | src/adapters/lua/token_bucket.lua:79-83 | before the hinted time that cost or more is denied whatever traffic follows |
| TokenBucketPromises.AdmittedFromHint | src/adapters/lua/token_bucket.lua:79-83 | from the hinted time on it is admitted after any number of denied checks in between |
| TokenBucketPromises.ResetIsLeastFullTime | src/adapters/lua/token_bucket.lua:85-87 | with no later admission, after any denied checks, the bucket is full exactly from resetMs on |
| TokenBucketPromises.RetryNoLaterThanReset | src/adapters/lua/token_bucket.lua:79-87 | the retry hint never points past resetMs |
| TokenBucketPromises.BurstAdmitsFloor | src/adapters/lua/token_bucket.lua:74-78 | of unit checks at one instant exactly the first floor(available) pass |
| TokenBucketPromises.RemainingIsExact | src/adapters/lua/token_bucket.lua:99 | after a reply with remaining m exactly m more unit checks pass at that instant |
| TokenBucketPromises.StormOnFreshKey | test/concurrency.atomicity.test.ts:28-36 | n simultaneous unit checks on a fresh bucket admit min(n, floor(capacity)) |
| TokenBucketPromises.FullFromTtlOn | src/adapters/lua/token_bucket.lua:93-97 | from the TTL on the bucket equals a missing key, and for a drained bucket no earlier: the TTL is safe and least |
| TokenBucketPromises.TtlClampNeverFires | src/adapters/lua/token_bucket.lua:95-96 | the lower clamp on the TTL changes no value |
| TokenBucketPromises.ExpiryInvisibleIff | src/adapters/lua/token_bucket.lua:93-97 | a bucket last checked under one rule and next checked under another: expiry at any permitted moment is invisible if and only if the tokens missing to the new capacity accrue at the new rate within the old TTL |
| TokenBucketPromises.EditInvisibleIff | src/adapters/lua/token_bucket.lua:93-97 | over all buckets: an edit never lets an expired key show if and only if the new rule fills an empty bucket within the TTL of the old rule |
| TokenBucketPromises.EditCanShow | src/adapters/lua/token_bucket.lua:93-97 | an edit that does not fit, after which an expired key differs from the stored bucket |
| SlidingWindowKey.MemberInjective | src/adapters/lua/sliding_window.lua:55-59 | printed members of any two calls collide only if time, id and index all agree |
| SlidingWindowKey.CardIsUnits | src/adapters/lua/sliding_window.lua:52-61 | ZCARD is the number of admitted units stored |
| SlidingWindowKey.EvictIsLive | src/adapters/lua/sliding_window.lua:49-50 | evicting by score removes exactly the admissions at or before the edge |
| SlidingWindowKey.LowestScore | src/adapters/lua/sliding_window.lua:72-73 | the first element of the range query carries the oldest admission time |
| SlidingWindowKey.WindowKey.AddMembers | src/adapters/lua/sliding_window.lua:57-59 | the ZADD loop adds one member per unit, all scored with now, and touches nothing else |
| SlidingWindowKey.WindowKey.Admit | src/adapters/lua/sliding_window.lua:49-63 | eviction and the count decide; what was live stays with its scores and an admission adds cost members of the check's time |
| SlidingWindowKey.WindowKey.Report | src/adapters/lua/sliding_window.lua:65-84 | what is read off the set is what the specification reads off the log |
| SlidingWindowKey.WindowKey.Check | src/adapters/lua/sliding_window.lua:34-90 | at the whole milliseconds of TIME or at the override the in-place script admits exactly when the members younger than the window leave room, then holds exactly cost more members, scored with that time; on a nondecreasing clock with a window that never grows its reply is that of the limiter that keeps everything |
| SlidingWindowKey.WindowKey.Expire | src/adapters/lua/sliding_window.lua:86-88 | the deadline is late enough: on a nondecreasing clock every later check that looks back no further than the last one answers and leaves the same with the key gone |
| SlidingWindowRuns.UnitsAreConserved | src/adapters/lua/sliding_window.lua:50-63 | any clock, any rules: units admitted after an edge are those still stored after it plus those evicted after it |
| SlidingWindowRuns.CountIsRightIff | src/adapters/lua/sliding_window.lua:49-54 | any clock, any rules: the count of a check is the true count of (now - windowMs, now] less what earlier checks swept past plus what lies after now and was not swept past; both terms are given by times, windows, costs and replies, with an if-and-only-if for each to be zero |
| SlidingWindowRuns.StoredIsUnswept | src/adapters/lua/sliding_window.lua:49-63 | any clock, any rules: the set holds exactly the units admitted and not swept past by the edge of a later check |
| SlidingWindowRuns.AdmittedIffUnsweptRoom | src/adapters/lua/sliding_window.lua:49-63 | any clock, any rules: a check passes if and only if the earlier admissions in its reach that were not swept past leave room |
| SlidingWindowRuns.NeverOverfillsIff | src/adapters/lua/sliding_window.lua:49-63 | for given times and one window length: no limit and no costs can put more than the limit into a window if and only if the clock never leaves an instant a whole window behind and comes back near it; on any other clock a run that overfills a window is constructed |
| SlidingWindowRuns.BackwardClockOverfillsWindow | src/adapters/lua/sliding_window.lua:50-63 | a concrete run with a backward clock step that puts three units into a window of two |
| SlidingWindowRuns.OneStepAgrees | src/adapters/lua/sliding_window.lua:50-84 | one check on the pruned log and on the full history give the same reply and the same visible log |
| SlidingWindowRuns.PrunedLogRefinesFullHistory | src/adapters/lua/sliding_window.lua:50-84 | nondecreasing clock, a window length that never grows: every reply of a run equals that of a limiter that keeps every admission for ever and has no clamp |
| SlidingWindowRuns.AdmittedIffRoom | src/adapters/lua/sliding_window.lua:52-63 | a check passes exactly when the cost truly admitted in its window leaves room |
| SlidingWindowRuns.NoWindowExceedsItsLimit | src/adapters/lua/sliding_window.lua:49-63 | for every instant t and every window no longer than those in use, the cost ever admitted in (t - window, t] is at most the limit in force at its last admission |
| SlidingWindowRuns.DeniedChecksLeaveNoTrace | src/adapters/lua/sliding_window.lua:50-63 | deleting any set of denied checks from a run leaves every other reply unchanged |
| SlidingWindowRuns.GreedyIsOptimal | src/adapters/lua/sliding_window.lua:50-63 | unit costs: the script's schedule is feasible, and no feasible schedule is ever ahead of it |
| SlidingWindowPromises.TrafficKeepsUnits | src/adapters/lua/sliding_window.lua:50 | no traffic evicts what a later window still covers |
| SlidingWindowPromises.NeverEmptyWithinLimit | src/adapters/lua/sliding_window.lua:80-83 | the empty-set branch is dead for costs within the limit |
| SlidingWindowPromises.HopelessWaitsAWindow | src/adapters/lua/sliding_window.lua:80-84 | the set is left empty exactly when a cost above the limit finds nothing live; the reply then asks for one whole window |
| SlidingWindowPromises.ResetIsFirstRelease | src/adapters/lua/sliding_window.lua:68-74 | with no later admission, after any denied checks, resetMs is the first instant at which the window holds fewer units |
| SlidingWindowPromises.RetryClampNeverFires | src/adapters/lua/sliding_window.lua:75-78 | the lower clamp on the retry hint changes no value, in any state and under any clock, and the hint ends at resetMs |
| SlidingWindowPromises.DeniedBeforeHint | src/adapters/lua/sliding_window.lua:75-79 | before the hinted time the cost is denied whatever other traffic arrives |
| SlidingWindowPromises.AdmittedAtHintIff | src/adapters/lua/sliding_window.lua:75-79 | at the hinted time the cost passes if and only if the units of the oldest instant make room for it |
| SlidingWindowPromises.UnitCostAdmittedFromHint | src/adapters/lua/sliding_window.lua:75-79 | for cost 1 the hint is exact from then on, after any denied checks in between |
| SlidingWindowPromises.HintCanBeEarly | src/adapters/lua/sliding_window.lua:75-79 | a state in which a cost of 2 is still denied at its hinted time |
| SlidingWindowPromises.StoredUnitsWithinLimit | src/adapters/lua/sliding_window.lua:54-62 | a key never stores more units than the largest limit in use |
| SlidingWindowPromises.BurstFillsRoom | src/adapters/lua/sliding_window.lua:52-63 | of unit checks at one instant exactly as many pass as the window has room for |
| SlidingWindowPromises.RemainingIsExact | src/adapters/lua/sliding_window.lua:65-66 | after a reply with remaining m exactly m more unit checks pass at that instant, in any state |
| SlidingWindowPromises.StormOnFreshKey | test/concurrency.atomicity.test.ts:38-46 | n simultaneous unit checks on a fresh window admit min(n, limit) |
| SlidingWindowPromises.EmptyFromTtlOn | src/adapters/lua/sliding_window.lua:86-88 | from the deadline on the key behaves like a missing one to every check that looks back no further than the last |
| SlidingWindowPromises.LiveBeforeTtl | src/adapters/lua/sliding_window.lua:86-88 | before that an admitted entry still counts for every check whose window reaches it, so the TTL is least |
| SlidingWindowPromises.ExpiryInvisibleIff | src/adapters/lua/sliding_window.lua:86-88 | after an edit of the window length, expiry from the deadline of an admitted check on is invisible to every later reply if and only if the new window is not longer than the old one |
| Store.BucketKeyIsSequential | src/adapters/lua/token_bucket.lua:18-23 | in any interleaving over many keys, with expiry at any moment from the deadline on, a key answers like a never-expiring bucket running its own checks in sequence, for every sequence of rule edits that fit the TTL |
| TokenBucketPromises.OneRuleFits | src/adapters/lua/token_bucket.lua:93-97 | under one rule there is nothing to fit: the TTL is always long enough |
| Store.WindowKeyIsExact | src/adapters/lua/sliding_window.lua:16-20 | the same for a window, against the limiter that keeps everything: the limit may change at will and the window may be shortened |
| Store.NoBucketInDebt | src/adapters/lua/token_bucket.lua:74-91 | no reachable bucket holds negative tokens |
| Store.DeadlinesAreLeast | src/adapters/lua/token_bucket.lua:93-97 | no key outlives its use: its deadline is the first moment by which an empty bucket is full, or an admission is out of reach |
| Store.NoEmptyWindow | src/adapters/lua/sliding_window.lua:80-88 | no reachable window key holds an empty set |
| Guarantees.BucketNeverOverAdmits | README.md:95-105 | between any two checks of a key through which one rule holds, the replies of all clients together admit at most capacity + rate * elapsed, whatever fitting edits came before |
| Guarantees.BucketAdmitsIffWithinEveryEnvelope | src/adapters/lua/token_bucket.lua:69-83 | with expiry and fitting rule edits, a reply of the shared store is an admission if and only if every envelope over the replies of the key leaves room |
| Guarantees.BucketDeniedBeforeHint | src/adapters/lua/token_bucket.lua:79-83 | after a deny every client is denied that cost or more until the hinted time, whatever runs in between and whenever the key expires |
| Guarantees.BucketAdmittedFromHint | src/adapters/lua/token_bucket.lua:79-83 | from the hinted time on the same cost of any client is admitted if all replies in between were denials |
| Guarantees.BucketRemainingIsExact | src/adapters/lua/token_bucket.lua:99 | after a reply with remaining m, of the unit checks of all clients at that instant exactly the next m pass |
| Guarantees.BucketStormIsExact | README.md:91-93 | simultaneous unit checks on one key, whatever runs in between, admit exactly min(n, floor(capacity)) |
| Guarantees.WindowNeverOverAdmits | README.md:95-105 | no window of any key ever holds more admitted cost than the limit in force at its last admission, read off the replies of all clients, for every window no longer than those in use |
| Guarantees.WindowDeniedBeforeHint | src/adapters/lua/sliding_window.lua:75-79 | after a deny every client is denied that cost or more until the hinted time, whatever runs in between and whenever the key expires |
| Guarantees.WindowUnitAdmittedFromHint | src/adapters/lua/sliding_window.lua:75-79 | from the hinted time on a unit check of any client is admitted if all replies in between were denials |
| Guarantees.WindowRemainingIsExact | src/adapters/lua/sliding_window.lua:65-66 | after a reply with remaining m, of the unit checks of all clients at that instant exactly the next m pass |
| Guarantees.WindowStormIsExact | README.md:91-93 | simultaneous unit checks on one key admit exactly min(n, limit) |
| Guarantees.ExecutionIsOnRecord | src/adapters/scripts.ts:92-105 | an execution that answered a request is an entry of the replies of its key, at the position given by the earlier checks of that key |
| Guarantees.DecisionIsOnRecord | src/core/limiter.ts:34-43 | every decision a caller is given shows, field by field, the reply to one check on the record of its key, made with the rule and cost of the caller; its limit is the capacity or limit of the rule |
| Guarantees.RecordIsOwnIff | src/core/keys.ts:16-24 | an execution goes on a caller's record if and only if it is of the same tenant, rule, identifier and algorithm, for colon-free tenants and rule ids that are not nested |
| Guarantees.OtherTenantsAreOffRecord | src/core/keys.ts:16-24 | executions of another colon-free tenant never go on a caller's record |
| Scripts.ScriptReadsItsArguments | src/core/limiter.ts:46-65 | every request names the script of its own algorithm, and that script finds in its arguments, by position, exactly the rule, cost and id that were asked for, at the server's time |
| Scripts.LuaScripts.Sha | src/adapters/scripts.ts:48-55 | a digest that is handed out is the digest of that script and stays registered; a registered one costs no round trip; getting it runs no check |
| Scripts.LuaScripts.Load | src/adapters/scripts.ts:36-41 | startup registers both scripts or reports failure |
| Scripts.LuaScripts.Run | src/adapters/scripts.ts:61-73 | an answer means the check ran exactly once and is that execution's reply; an error means at most once; a server that loses nothing always answers, whatever its script cache held |
| Scripts.LuaScripts.ShasFor | src/adapters/scripts.ts:85 | all digests are right before anything is sent, and no check has run by then |
| Scripts.LuaScripts.Pipeline | src/adapters/scripts.ts:86-90 | every slot of the result tells the truth about its own item |
| Scripts.LuaScripts.Collect | src/adapters/scripts.ts:92-105 | only items refused with NOSCRIPT run again; answers stay at their positions |
| Scripts.LuaScripts.RunMany | src/adapters/scripts.ts:80-106 | for every interleaving: a normal return means every item ran exactly once and out[i] is item i's own reply; an exception means none ran twice; the store is the replay of the server's order |
| Scripts.LaterAttemptDecides | src/adapters/scripts.ts:65-71 | a retry after a refusal keeps the exactly-once account |
| Limiter.RateLimiter.Check | src/core/limiter.ts:34-37 | the decision is the single execution of the input's script call, shaped by its rule (unfolded in Guarantees.DecisionIsOnRecord) |
| Limiter.RateLimiter.CheckBatch | src/core/limiter.ts:40-43 | decision i belongs to input i |
| Limiter.KeysMeetIff | src/core/limiter.ts:46-60 | two checks are sent to one key if and only if tenant, rule id, identifier and algorithm agree, for colon-free tenants and rule ids that are not nested |
| Limiter.TenantsNeverMeet | src/core/limiter.ts:50 | checks of different colon-free tenants are never sent to one key |
| Limiter.KeySent | src/core/keys.ts:4-24 | the key on the wire has the documented layout |
| Limiter.CostSent | src/core/limiter.ts:48 | the cost on the wire is the request's own, else the rule's, else 1 |
| Service.RateLimitService.ResolveAll | src/service/rateLimitService.ts:94-109 | in every completion order each failing item keeps the error it earns, and the runnable list holds the others; the batch aborts exactly when the rule of an item with an identifier could not be read |
| Service.ResolveTells | src/service/rateLimitService.ts:134-152 | an empty identifier and a cost above the ceiling are invalid requests, a missing rule is an unknown rule, an unreadable one aborts, and everything else is sent as asked; the four cases exclude each other |
| Service.RateLimitService.Fill | src/service/rateLimitService.ts:111-116 | each decision lands in the slot of its own item and overwrites none |
| Service.EntriesArePositional | src/service/rateLimitService.ts:94-117 | the runnable, pipeline and reply index maps compose to the identity on items |
| Service.RateLimitService.CheckBatch | src/service/rateLimitService.ts:88-126 | more than 50 items or none, and unknown tenants, are turned away; a normal return gives entry i the error item i earns or the decision of its own call, run once; otherwise the fail policy covers the whole batch and nothing ran twice: a valid batch of a known tenant returns, or throws BackendUnavailable when fail-closed; with no backend failure the positional return is guaranteed |
| Service.RateLimitService.Check | src/service/rateLimitService.ts:63-86 | an unknown tenant, an empty identifier, an unknown rule and a cost above the ceiling pass as their own errors, never masked; an unreadable rule or tenant meets the fail policy, which lets the request through as degraded or throws; anything else is the caller's own single execution or the fail policy |
| Validation.RuleRoundTrip | src/service/validation.ts:9-29 | every valid rule survives being written as JSON and parsed again |
| Validation.ParsesIff | src/service/validation.ts:9-54 | a body parses to a rule exactly when it agrees with that rule's JSON on every field of the algorithm |
| Validation.RejectsTheFirstOffence | src/service/validation.ts:9-48 | a body is rejected exactly when it is no object, its algorithm is unknown or a field is not acceptable, and the error names the first offence in the order of the fields |
| Validation.ParsesCostIff | src/service/validation.ts:50-54 | a cost is absent, a positive whole number, or rejected |
| Keys.KeyDeterminesIdentity | src/core/keys.ts:16-24 | two keys are equal exactly when identity strings and algorithms are equal |
| Keys.TenantsNeverShareKeys | src/core/keys.ts:16-24 | different colon-free tenants never share a key, for any rules and identifiers |
| Keys.KeyIsInjective | src/core/keys.ts:16-24 | with rule ids of which neither opens the other up to a colon, a key determines tenant, rule, identifier and algorithm |
| Keys.ColonFreeNeverNested | src/core/keys.ts:16-24 | colon-free rule ids always qualify |
| Keys.RulesCollideIff | src/core/keys.ts:16-24 | two rules of one tenant can share a key for some non-empty identifiers if and only if one rule id and a colon open the other |
| Keys.NestedCollide | src/core/keys.ts:16-24 | then every identifier of the longer rule shares its key with one of the shorter |
| Keys.ColonInRuleIdCollides | src/core/keys.ts:16-24 | two rules of one tenant that share a key |
| Keys.BothAlgorithmsShareTagIff | src/core/keys.ts:3-15 | both algorithms of an identity share a hash tag exactly when the tenant id does not open with a closing brace |
| Keys.WholeIdentityIsTagIff | src/core/keys.ts:8-15 | the whole identity selects the slot exactly when it contains no closing brace |
| Keys.TagNamesTenant | src/core/keys.ts:8-15 | a brace-free tenant id opens the hash tag |
| Transports.RestReply.ApplyRateLimitHeaders | src/transports/rest/headers.ts:12-19 | the headers afterwards tell the decision: Reset, and on a deny Retry-After, are the least whole seconds that reach resetMs and retryAfterMs; an admission leaves Retry-After alone and no other header changes |
| Transports.SentCostFitsRule | src/service/rateLimitService.ts:144-150 | the cost the service bounds is the cost the script is sent: the request's own, else the rule's, else 1 |
| Transports.CeilingRejectsTheHopeless | src/service/rateLimitService.ts:144-150 | a request passes the ceiling if and only if a fresh key would admit it; a rejected one would be denied in every state |
| Transports.ServiceNeverEmptiesWindow | src/adapters/lua/sliding_window.lua:80-84 | the empty-set branch is unreachable through the service |
| Transports.CostsReadAlike | src/transports/grpc/handlers.ts:31-34 | a cost means the same on both transports |
| Transports.BodiesAgreeIff | src/transports/rest/headers.ts:22-26 | REST and gRPC agree on allowed, on limit and resetMs of an admission and on retryAfterMs of a denial, and on remaining exactly on admissions and on denials with nothing left; the limit is the rule's |
| Transports.UnitCostBodiesAgree | src/transports/grpc/handlers.ts:36-44 | for an effective cost of 1 they agree in every reachable state |
| Transports.BatchEntriesAgree | src/transports/grpc/handlers.ts:114-116 | batch entries are equal on both transports for every cost, and errors are passed on |
| Transports.BodyRetryIsExact | src/transports/rest/headers.ts:22-26 | read off either body: after a denial by a bucket the same cost passes from retryAfterMs on and not before, with only denials in between |
| Transports.WindowBodyRetryIsExact | src/transports/rest/headers.ts:22-26 | the same for a unit-cost window check |
| Transports.AdmittedBodyIsExact | src/transports/rest/headers.ts:22-26 | read off an admitted body: the bucket is full exactly from resetMs on, and remaining more unit checks pass at once |
| Transports.RetryAfterSuffices | src/transports/rest/headers.ts:16-18 | read off the headers: a bucket client that waits Retry-After seconds is admitted, and the header is at least 1 |
| Transports.WindowRetryAfterSuffices | src/transports/rest/headers.ts:16-18 | the same for a unit-cost window check |
| Transports.FullAtResetHeader | src/transports/rest/headers.ts:15 | with no later admission, after any denied checks, the bucket is full at the second in X-RateLimit-Reset and not a second before it |
| Transports.RemainingHeaderIsExact | src/transports/rest/headers.ts:14 | X-RateLimit-Remaining is the exact number of further unit checks that pass at that instant |
| Transports.WindowRemainingHeaderIsExact | src/transports/rest/headers.ts:14 | the same for a window, in any state of the key |

## Left out

- Redis connections, timeouts, reconnects and the client library's own resends: a backend failure is an arbitrary outcome after which a command ran at most once.
- A pipeline result that is null instead of a list, which only an aborted transaction produces.
- The concurrent SCRIPT LOADs at the start of a batch are issued one after the other; they are idempotent and touch no key. Other requests of the same process that register digests meanwhile are not modelled; they could only save a load.
- Scripts.Redis.Execute runs a script as one step of the specification; TokenBucketKey and SlidingWindowKey show that the scripts' in-place updates compute that step.
- The test-only clock override exists in the two key classes; the protocol model always sends 0.
- Eviction under memory pressure, FLUSHALL and manual deletion of keys: a key goes only at or after its deadline.
- Rule cache internals: staleness appears only as rules that differ from call to call.
- Tenant store, admin operations, API-key digests and JSON storage beyond the rule round trip.
- Metrics, logs, events, the dashboard, configuration, process start and shutdown, HTTP and gRPC plumbing, and the table of error codes.
- Double rounding, the stored decimal string of tokens, and the truncation of a fractional limit to int64 on gRPC.
