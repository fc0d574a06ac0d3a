/** src/core/keys.ts: the Redis key of one limit, who can share it, and the hash tag that selects its Cluster slot. */
module Keys {
  import opened CoreTypes
  import opened Strings

  /** tenantId:ruleId:identifier */
  function Identity(tenantId: string, ruleId: string, identifier: string): string {
    tenantId + [':'] + (ruleId + [':'] + identifier)
  }

  function Suffix(algorithm: Algorithm): string {
    if algorithm.TokenBucketAlgorithm? then "tb" else "sw"
  }

  const PREFIX := "throttle:"

  function LimitKey(tenantId: string, ruleId: string, identifier: string, algorithm: Algorithm): string {
    PREFIX + ['{'] + (Identity(tenantId, ruleId, identifier) + "}:" + Suffix(algorithm))
  }

  /** Keys agree exactly when the identities agree as strings and the algorithms agree. */
  lemma {:induction false} KeyDeterminesIdentity(t: string, r: string, i: string, a: Algorithm,
                                                 t': string, r': string, i': string, a': Algorithm)
    ensures LimitKey(t, r, i, a) == LimitKey(t', r', i', a') <==> Identity(t, r, i) == Identity(t', r', i') && a == a'
  {
    if LimitKey(t, r, i, a) == LimitKey(t', r', i', a') {
      var x, y := Identity(t, r, i) + "}:" + Suffix(a), Identity(t', r', i') + "}:" + Suffix(a');
      SplitAtFirst(PREFIX, x, PREFIX, y, '{');
      assert x[|x| - 2..] == Suffix(a) && y[|y| - 2..] == Suffix(a');
      assert Suffix(a)[0] == Suffix(a')[0];
      assert x[..|x| - 4] == Identity(t, r, i) && y[..|y| - 4] == Identity(t', r', i');
    }
  }

  /** Two different tenants never share a key, whatever rules and identifiers they use. */
  lemma {:induction false} TenantsNeverShareKeys(t: string, r: string, i: string, a: Algorithm,
                                                 t': string, r': string, i': string, a': Algorithm)
    requires Free(t, ':') && Free(t', ':') && t != t'
    ensures LimitKey(t, r, i, a) != LimitKey(t', r', i', a')
  {
    KeyDeterminesIdentity(t, r, i, a, t', r', i', a');
    if Identity(t, r, i) == Identity(t', r', i') {
      SplitAtFirst(t, r + [':'] + i, t', r' + [':'] + i', ':');
    }
  }

  /** One rule id opens with the whole of the other and a colon: what an administrator can check when naming a
      rule. */
  predicate Nested(r: string, r': string) {
    r + [':'] <= r' || r' + [':'] <= r
  }

  /** Identities that agree under one tenant split at the shorter rule id. */
  lemma {:induction false} SameIdentityNests(r: string, i: string, r': string, i': string)
    requires r + [':'] + i == r' + [':'] + i' && r != r'
    ensures Nested(r, r')
  {
    var s := r + [':'] + i;
    assert s[..|r|] == r && s[|r|] == ':' && s[..|r'|] == r' && s[|r'|] == ':';
    if |r| < |r'| {
      assert r'[..|r| + 1] == s[..|r| + 1] == r + [':'];
    } else if |r'| < |r| {
      assert r[..|r'| + 1] == s[..|r'| + 1] == r' + [':'];
    }
  }

  /** Two rules of one tenant can count two identifiers against one key exactly when their ids are nested. */
  lemma {:induction false} RulesCollideIff(t: string, r: string, r': string, a: Algorithm)
    requires r != r'
    ensures (exists i, i' :: i != "" && i' != "" && LimitKey(t, r, i, a) == LimitKey(t, r', i', a)) <==> Nested(r, r')
  {
    hide LimitKey;
    if i, i' :| i != "" && i' != "" && LimitKey(t, r, i, a) == LimitKey(t, r', i', a) {
      KeyDeterminesIdentity(t, r, i, a, t, r', i', a);
      RestOfIdentity(t, r, i);
      RestOfIdentity(t, r', i');
      SameIdentityNests(r, i, r', i');
    }
    if r + [':'] <= r' {
      NestedCollide(t, r, r', "x", a);
    } else if r' + [':'] <= r {
      NestedCollide(t, r', r, "x", a);
    }
  }

  lemma {:induction false} RestOfIdentity(t: string, r: string, i: string)
    ensures Identity(t, r, i)[|t| + 1..] == r + [':'] + i
  {
  }

  /** Then every identifier of the longer rule shares its key with one of the shorter. */
  lemma {:induction false} NestedCollide(t: string, r: string, r': string, i: string, a: Algorithm)
    requires r + [':'] <= r'
    ensures LimitKey(t, r, r'[|r| + 1..] + [':'] + i, a) == LimitKey(t, r', i, a)
  {
    assert r + [':'] + r'[|r| + 1..] == r';
    assert r + [':'] + (r'[|r| + 1..] + [':'] + i) == r' + [':'] + i;
  }

  /** With rule ids that are not nested a key determines tenant, rule, identifier and algorithm. */
  lemma {:induction false} KeyIsInjective(t: string, r: string, i: string, a: Algorithm,
                                          t': string, r': string, i': string, a': Algorithm)
    requires Free(t, ':') && Free(t', ':') && !Nested(r, r')
    requires LimitKey(t, r, i, a) == LimitKey(t', r', i', a')
    ensures t == t' && r == r' && i == i' && a == a'
  {
    KeyDeterminesIdentity(t, r, i, a, t', r', i', a');
    SplitAtFirst(t, r + [':'] + i, t', r' + [':'] + i', ':');
    if r != r' {
      SameIdentityNests(r, i, r', i');
    }
    assert (r + [':'] + i)[|r| + 1..] == i && (r' + [':'] + i')[|r'| + 1..] == i';
  }

  /** Colon-free rule ids are never nested. */
  lemma {:induction false} ColonFreeNeverNested(r: string, r': string)
    requires Free(r, ':') && Free(r', ':')
    ensures !Nested(r, r')
  {
    assert (r + [':'])[|r|] == ':' && (r' + [':'])[|r'|] == ':';
  }

  /** The smallest case: rules "a" and "a:b". */
  lemma {:induction false} ColonInRuleIdCollides(t: string, a: Algorithm)
    ensures LimitKey(t, "a:b", "c", a) == LimitKey(t, "a", "b:c", a)
  {
    assert "a:b" + [':'] + "c" == "a" + [':'] + "b:c";
  }

  // ----- Redis Cluster hash tags -----

  function FirstIndex(s: string, c: char): (k: nat)
    ensures k <= |s| && forall j :: 0 <= j < k ==> s[j] != c
    ensures k < |s| ==> s[k] == c
  {
    if s == "" || s[0] == c then 0 else 1 + FirstIndex(s[1..], c)
  }

  /** The part of a key that selects its slot (Redis Cluster specification, section "Hash tags"). */
  function HashTag(key: string): string {
    var open := FirstIndex(key, '{');
    if open == |key| then key
    else
      var rest := key[open + 1..];
      var close := FirstIndex(rest, '}');
      if close == 0 || close == |rest| then key else rest[..close]
  }

  lemma {:induction false} FirstIndexIs(s: string, c: char, k: nat)
    requires k < |s| && s[k] == c && forall j :: 0 <= j < k ==> s[j] != c
    ensures FirstIndex(s, c) == k
  {
    assert FirstIndex(s, c) <= k;
  }

  /** Up to the first closing brace of the identity, if there is one. */
  lemma {:induction false} TagOfLimitKey(t: string, r: string, i: string, a: Algorithm)
    ensures var id := Identity(t, r, i);
            HashTag(LimitKey(t, r, i, a))
            == if id[0] == '}' then LimitKey(t, r, i, a) else id[..FirstIndex(id, '}')]
  {
    var id := Identity(t, r, i);
    var key, rest := LimitKey(t, r, i, a), id + "}:" + Suffix(a);
    assert key[|PREFIX|] == '{' && key[|PREFIX| + 1..] == rest;
    assert forall j :: 0 <= j < |PREFIX| ==> key[j] == PREFIX[j];
    FirstIndexIs(key, '{', |PREFIX|);
    var k := FirstIndex(id, '}');
    assert forall j :: 0 <= j < |id| ==> rest[j] == id[j];
    assert rest[|id|] == '}';
    FirstIndexIs(rest, '}', k);
    assert rest[..k] == id[..k];
  }

  /** The keys of both algorithms of one limit have one hash tag exactly when the tenant id does not open with a
      closing brace. */
  lemma {:induction false} BothAlgorithmsShareTagIff(t: string, r: string, i: string)
    ensures HashTag(LimitKey(t, r, i, TokenBucketAlgorithm)) == HashTag(LimitKey(t, r, i, SlidingWindowAlgorithm))
            <==> t == "" || t[0] != '}'
  {
    TagOfLimitKey(t, r, i, TokenBucketAlgorithm);
    TagOfLimitKey(t, r, i, SlidingWindowAlgorithm);
    KeyDeterminesIdentity(t, r, i, TokenBucketAlgorithm, t, r, i, SlidingWindowAlgorithm);
    assert Identity(t, r, i)[0] == if t == "" then ':' else t[0];
  }

  /** The whole identity selects the slot exactly when no closing brace occurs in it. */
  lemma {:induction false} WholeIdentityIsTagIff(t: string, r: string, i: string, a: Algorithm)
    ensures HashTag(LimitKey(t, r, i, a)) == Identity(t, r, i) <==> Free(Identity(t, r, i), '}')
  {
    TagOfLimitKey(t, r, i, a);
    var id := Identity(t, r, i);
    var k := FirstIndex(id, '}');
    if k == |id| {
      assert id[..k] == id;
    }
    assert |LimitKey(t, r, i, a)| > |id|;
  }

  /** With a brace-free tenant id the tag opens with the tenant. */
  lemma {:induction false} TagNamesTenant(t: string, r: string, i: string, a: Algorithm)
    requires t != "" && Free(t, '}')
    ensures t + [':'] <= HashTag(LimitKey(t, r, i, a))
  {
    TagOfLimitKey(t, r, i, a);
    var id := Identity(t, r, i);
    var k := FirstIndex(id, '}');
    assert id[|t|] == ':' && forall j :: 0 <= j < |t| ==> id[j] == t[j];
    assert k > |t|;
    assert id[..k][..|t| + 1] == t + [':'];
  }
}
