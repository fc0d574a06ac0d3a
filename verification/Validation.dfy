/** src/service/validation.ts: what the parsers let through to the limiter. */
module Validation {
  import opened Numbers
  import opened CoreTypes

  /** An untrusted JSON value; NotFinite stands for NaN and the infinities. */
  datatype Json =
    | Undefined
    | Null
    | Flag(b: bool)
    | Text(s: string)
    | Number(x: real)
    | NotFinite
    | List(items: seq<Json>)
    | Record(fields: map<string, Json>)
  {
    /** typeof v === "object" && v !== null; an array has none of the fields a rule needs. */
    function AsObject(): Option<map<string, Json>> {
      match this
      case Record(fields) => Some(fields)
      case List(_) => Some(map[])
      case _ => None
    }
  }

  function Field(o: map<string, Json>, name: string): Json {
    if name in o then o[name] else Undefined
  }

  /** The parsed value, or the name of the offending field. */
  datatype Parsed<+T> = Good(value: T) | Bad(field: string)

  function PositiveNumber(v: Json, name: string): Parsed<posreal> {
    if !v.Number? || v.x <= 0.0 then Bad(name) else Good(v.x)
  }

  function PositiveInt(v: Json, name: string): Parsed<pos> {
    if !v.Number? || v.x.Floor as real != v.x || v.x.Floor <= 0 then Bad(name) else Good(v.x.Floor)
  }

  function OptionalPositiveInt(v: Json, name: string): Parsed<Option<pos>> {
    if v.Undefined? then Good(None)
    else
      match PositiveInt(v, name)
      case Good(n) => Good(Some(n))
      case Bad(field) => Bad(field)
  }

  function ParseCost(v: Json): Parsed<Option<pos>> {
    OptionalPositiveInt(v, "cost")
  }

  const TOKEN_BUCKET := "token_bucket"
  const SLIDING_WINDOW := "sliding_window"

  function ParseRule(ruleId: string, body: Json): Parsed<Rule> {
    match body.AsObject()
    case None => Bad("body")
    case Some(o) =>
      var algorithm := Field(o, "algorithm");
      if algorithm != Text(TOKEN_BUCKET) && algorithm != Text(SLIDING_WINDOW) then Bad("algorithm")
      else
        match OptionalPositiveInt(Field(o, "cost"), "cost")
        case Bad(field) => Bad(field)
        case Good(cost) =>
          if algorithm == Text(TOKEN_BUCKET) then
            match PositiveNumber(Field(o, "capacity"), "capacity")
            case Bad(field) => Bad(field)
            case Good(capacity) =>
              match PositiveNumber(Field(o, "refillRate"), "refillRate")
              case Bad(field) => Bad(field)
              case Good(rate) => Good(TokenBucketRule(ruleId, capacity, rate, cost))
          else
            match PositiveInt(Field(o, "limit"), "limit")
            case Bad(field) => Bad(field)
            case Good(limit) =>
              match PositiveInt(Field(o, "windowMs"), "windowMs")
              case Bad(field) => Bad(field)
              case Good(windowMs) => Good(SlidingWindowRule(ruleId, limit, windowMs, cost))
  }

  /** A rule as it is written in JSON. */
  function Render(rule: Rule): Json {
    var cost := if rule.cost.Some? then map["cost" := Number(rule.cost.value as real)] else map[];
    match rule
    case TokenBucketRule(_, capacity, rate, _) =>
      Record(map["algorithm" := Text(TOKEN_BUCKET),
                 "capacity" := Number(capacity), "refillRate" := Number(rate)] + cost)
    case SlidingWindowRule(_, limit, windowMs, _) =>
      Record(map["algorithm" := Text(SLIDING_WINDOW),
                 "limit" := Number(limit as real), "windowMs" := Number(windowMs as real)] + cost)
  }

  /** Every valid rule survives being written and parsed again. */
  lemma {:induction false} RuleRoundTrip(rule: Rule)
    ensures ParseRule(rule.ruleId, Render(rule)) == Good(rule)
  {
    var o := Render(rule).fields;
    assert Field(o, "cost") == if rule.cost.Some? then Number(rule.cost.value as real) else Undefined;
    if rule.TokenBucketRule? {
      assert Field(o, "algorithm") == Text(TOKEN_BUCKET);
    } else {
      assert Field(o, "algorithm") == Text(SLIDING_WINDOW);
    }
  }

  /** A body parses to a rule exactly when it is an object that agrees with the rule's own rendering on every
      field a rule of that algorithm has. */
  lemma {:induction false} ParsesIff(ruleId: string, body: Json, rule: Rule)
    requires rule.ruleId == ruleId
    ensures ParseRule(ruleId, body) == Good(rule)
            <==> body.AsObject().Some? &&
                 var o, want := body.AsObject().value, Render(rule).fields;
                 && (forall name :: name in want ==> Field(o, name) == want[name])
                 && (rule.cost.None? ==> Field(o, "cost") == Undefined)
  {
    hide Render;
    if body.AsObject().Some? {
      var o := body.AsObject().value;
      RenderedFields(rule, o);
    }
  }

  /** Agreement with a rendering, field by field. */
  lemma {:induction false} RenderedFields(rule: Rule, o: map<string, Json>)
    ensures var want := Render(rule).fields;
            (forall name :: name in want ==> Field(o, name) == want[name])
            <==> (rule.cost.Some? ==> Field(o, "cost") == Number(rule.cost.value as real))
                 && match rule
                    case TokenBucketRule(_, capacity, rate, _) =>
                      && Field(o, "algorithm") == Text(TOKEN_BUCKET)
                      && Field(o, "capacity") == Number(capacity) && Field(o, "refillRate") == Number(rate)
                    case SlidingWindowRule(_, limit, windowMs, _) =>
                      && Field(o, "algorithm") == Text(SLIDING_WINDOW)
                      && Field(o, "limit") == Number(limit as real) && Field(o, "windowMs") == Number(windowMs as real)
  {
    hide Field;
    var want := Render(rule).fields;
    assert rule.cost.Some? ==> "cost" in want && want["cost"] == Number(rule.cost.value as real);
    match rule {
      case TokenBucketRule(_, capacity, rate, _) =>
        assert want["algorithm"] == Text(TOKEN_BUCKET);
        assert want["capacity"] == Number(capacity) && want["refillRate"] == Number(rate);
        assert want.Keys == {"algorithm", "capacity", "refillRate"} + if rule.cost.Some? then {"cost"} else {};
      case SlidingWindowRule(_, limit, windowMs, _) =>
        assert want["algorithm"] == Text(SLIDING_WINDOW);
        assert want["limit"] == Number(limit as real) && want["windowMs"] == Number(windowMs as real);
        assert want.Keys == {"algorithm", "limit", "windowMs"} + if rule.cost.Some? then {"cost"} else {};
    }
  }

  // ----- what is turned away -----

  predicate Positive(v: Json) {
    v.Number? && v.x > 0.0
  }

  predicate Counts(v: Json) {
    v.Number? && v.x >= 1.0 && v.x == v.x.Floor as real
  }

  /** The fields a rule of an algorithm is read from, in the order they are looked at. */
  function FieldOrder(tokenBucket: bool): seq<string> {
    if tokenBucket then ["cost", "capacity", "refillRate"] else ["cost", "limit", "windowMs"]
  }

  /** A count field holds a positive whole number, a rate field any positive number; only the cost may be absent. */
  predicate Acceptable(o: map<string, Json>, name: string) {
    if name == "cost" then Field(o, name) == Undefined || Counts(Field(o, name))
    else if name == "capacity" || name == "refillRate" then Positive(Field(o, name))
    else Counts(Field(o, name))
  }

  function FirstOffence(o: map<string, Json>, order: seq<string>): Option<string> {
    if order == [] then None
    else if !Acceptable(o, order[0]) then Some(order[0])
    else FirstOffence(o, order[1..])
  }

  /** A body is rejected exactly when it is no object, its algorithm is not one of the two, or one of that
      algorithm's fields is not acceptable; the error names the first offence. */
  lemma {:induction false} RejectsTheFirstOffence(ruleId: string, body: Json, field: string)
    ensures body.AsObject().None? ==> (ParseRule(ruleId, body) == Bad(field) <==> field == "body")
    ensures body.AsObject().Some? ==>
              var o := body.AsObject().value;
              var algorithm := Field(o, "algorithm");
              if algorithm == Text("token_bucket") || algorithm == Text("sliding_window") then
                var order := FieldOrder(algorithm == Text("token_bucket"));
                ParseRule(ruleId, body) == Bad(field) <==> FirstOffence(o, order) == Some(field)
              else ParseRule(ruleId, body) == Bad(field) <==> field == "algorithm"
  {
    if body.AsObject().Some? {
      var o := body.AsObject().value;
      FirstOfThree(o, "cost", "capacity", "refillRate");
      FirstOfThree(o, "cost", "limit", "windowMs");
      hide FirstOffence;
    }
  }

  lemma {:induction false} FirstOfThree(o: map<string, Json>, a: string, b: string, c: string)
    ensures FirstOffence(o, [a, b, c])
            == if !Acceptable(o, a) then Some(a)
               else if !Acceptable(o, b) then Some(b)
               else if !Acceptable(o, c) then Some(c)
               else None
  {
    hide Acceptable;
    assert [a, b, c][1..] == [b, c] && [b, c][1..] == [c];
    assert FirstOffence(o, [c]) == if !Acceptable(o, c) then Some(c) else None;
  }

  /** A cost is absent, a positive whole number, or turned away under its own name. */
  lemma {:induction false} ParsesCostIff(v: Json, n: pos)
    ensures ParseCost(v) == Good(None) <==> v == Undefined
    ensures ParseCost(v) == Good(Some(n)) <==> v == Number(n as real)
    ensures ParseCost(v) == Bad("cost") <==> v != Undefined && !Counts(v)
  {
  }
}
