/** Admission schedules as sequences of booleans, and the exchange argument behind both optimality results. */
module Schedules {

  /** How many of the requests with index in [i, j) a schedule admits. */
  function Count(s: seq<bool>, i: nat, j: nat): nat
    requires j <= |s|
    decreases j
  {
    if j <= i then 0 else Count(s, i, j - 1) + if s[j - 1] then 1 else 0
  }

  lemma {:induction false} CountSplit(s: seq<bool>, i: nat, j: nat)
    requires i <= j <= |s|
    ensures Count(s, 0, j) == Count(s, 0, i) + Count(s, i, j)
    decreases j
  {
    if i < j {
      CountSplit(s, i, j - 1);
    }
  }

  /** `g` turns request n down only where some stretch ending at n is already full. */
  ghost predicate DeniesOnlyWhenFull(g: seq<bool>, b: seq<bool>)
    requires |g| == |b|
  {
    forall n :: 0 <= n < |g| && !g[n] && b[n] ==> exists i :: 0 <= i <= n && Count(b, i, n + 1) <= Count(g, i, n)
  }

  /** A schedule that denies only where the rival is full too never falls behind the rival. */
  lemma {:induction false} StayAhead(g: seq<bool>, b: seq<bool>, n: nat)
    requires |g| == |b| && n <= |g|
    requires DeniesOnlyWhenFull(g, b)
    ensures Count(b, 0, n) <= Count(g, 0, n)
    decreases n
  {
    if n > 0 {
      StayAhead(g, b, n - 1);
      if !g[n - 1] && b[n - 1] {
        var i :| 0 <= i <= n - 1 && Count(b, i, n) <= Count(g, i, n - 1);
        StayAhead(g, b, i);
        CountSplit(b, i, n);
        CountSplit(g, i, n - 1);
      }
    }
  }

  // ----- the items a schedule keeps -----

  function Select<T>(items: seq<T>, keep: seq<bool>): seq<T>
    requires |items| == |keep|
  {
    if items == [] then []
    else
      var n := |items| - 1;
      var kept := Select(items[..n], keep[..n]);
      if keep[n] then kept + [items[n]] else kept
  }

  lemma {:induction false} SelectNext<T>(items: seq<T>, keep: seq<bool>, item: T, kept: bool)
    requires |items| == |keep|
    ensures Select(items + [item], keep + [kept]) == if kept then Select(items, keep) + [item] else Select(items, keep)
  {
    assert (items + [item])[..|items|] == items && (keep + [kept])[..|items|] == keep;
  }

  lemma {:induction false} SelectNone<T>(items: seq<T>, keep: seq<bool>)
    requires |items| == |keep| && forall n :: 0 <= n < |keep| ==> !keep[n]
    ensures Select(items, keep) == []
    decreases |items|
  {
    if items != [] {
      SelectNone(items[..|items| - 1], keep[..|items| - 1]);
    }
  }
}
