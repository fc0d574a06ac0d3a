/** String facts shared by the ZSET member names and the Redis keys. */
module Strings {

  ghost predicate Free(s: string, sep: char) {
    sep !in s
  }

  /** A string splits at the first separator in one way only. */
  lemma {:induction false} SplitAtFirst(a: string, x: string, b: string, y: string, sep: char)
    requires Free(a, sep) && Free(b, sep)
    requires a + [sep] + x == b + [sep] + y
    ensures a == b && x == y
  {
    var s, t := a + [sep] + x, b + [sep] + y;
    assert s[|a|] == sep && t[|b|] == sep;
    assert forall k :: 0 <= k < |a| ==> s[k] == a[k] && s[k] != sep;
    assert forall k :: 0 <= k < |b| ==> t[k] == b[k] && t[k] != sep;
    assert |a| == |b|;
    assert s[..|a|] == a && t[..|b|] == b;
    assert s[|a| + 1..] == x && t[|b| + 1..] == y;
  }

  function Digit(d: nat): char
    requires d < 10
  {
    "0123456789"[d]
  }

  /** Decimal digits, as Lua prints a whole number below 10^14 ("%.14g"). */
  function Digits(n: nat): (s: string)
    ensures s != [] && (n >= 10 ==> |s| >= 2)
    ensures forall k :: 0 <= k < |s| ==> s[k] in "0123456789"
  {
    if n < 10 then [Digit(n)] else Digits(n / 10) + [Digit(n % 10)]
  }

  lemma {:induction false} DigitsInjective(n: nat, m: nat)
    requires Digits(n) == Digits(m)
    ensures n == m
    decreases n
  {
    var s, t := Digits(n), Digits(m);
    assert s[|s| - 1] == Digit(n % 10) && t[|t| - 1] == Digit(m % 10);
    if n >= 10 && m >= 10 {
      assert s[..|s| - 1] == Digits(n / 10) && t[..|t| - 1] == Digits(m / 10);
      DigitsInjective(n / 10, m / 10);
    }
  }
}
