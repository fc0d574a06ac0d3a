/** The domain types of src/core/types.ts and the reply both scripts return. */
module CoreTypes {
  import opened Numbers

  datatype Option<+T> = None | Some(value: T)

  /** { allowed, remaining, retryAfterMs, resetMs }, with allowed == 1 read as true. */
  datatype Reply = Reply(allowed: bool, remaining: int, retryAfterMs: int, resetMs: int)

  datatype Algorithm = TokenBucketAlgorithm | SlidingWindowAlgorithm

  /** Rules as parseRule lets them through; `ruleId` names the rule inside its tenant. */
  datatype Rule =
    | TokenBucketRule(ruleId: string, capacity: posreal, refillRate: posreal, cost: Option<pos>)
    | SlidingWindowRule(ruleId: string, limit: pos, windowMs: pos, cost: Option<pos>)
  {
    function Algorithm(): Algorithm {
      if TokenBucketRule? then TokenBucketAlgorithm else SlidingWindowAlgorithm
    }

    /** ruleLimit: the ceiling that costs are checked against and replies report. */
    function Ceiling(): real {
      if TokenBucketRule? then capacity else limit as real
    }
  }

  const DEFAULT_COST: pos := 1

  datatype Decision =
    Decision(allowed: bool, remaining: int, limit: real, retryAfterMs: int, resetMs: int, degraded: bool)
}
