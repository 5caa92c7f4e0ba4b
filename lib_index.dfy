/** The canonical revision, lib/index.js: the constraint predicates of
    `Method`, the default messages of `Tips`, the rule-list evaluation
    `valid`, and the decorator that registers a validated field. */
module LibIndex {
  import opened Js
  import Registry

  /** A constraint key of a rule with its parameter: one case per `Method`
      entry that `valid` can reach. */
  datatype Check =
    | Required(flag: bool)
    | Max(bound: int)
    | Min(bound: int)
    | Pattern(matcher: Matcher)
    | Lengths(range: seq<int>)
    | Type(tag: string)

  /** A rule: its `message` ("" when absent), `custom`, `beforeValidate`,
      and its remaining keys in the rule's own key order. */
  datatype Rule = Rule(
    message: string,
    custom: Option<Custom>,
    beforeValidate: Option<Value -> Value>,
    checks: seq<Check>)

  /** `isNullOrUndefined`: `undefined`, `null` and `''` count as empty. */
  predicate IsNullOrUndefined(v: Value)
  {
    v == Undefined || v == Null || v == Str("")
  }

  // ---------------------------------------------------------------------
  // Method: each predicate holds when its constraint is violated

  /** `Method.compare`, with the source passed in: violated when the value
      is non-empty, the sibling field is truthy, and the two are `===`. */
  predicate CompareViolated(targetValue: Value, other: string, source: Source)
  {
    !IsNullOrUndefined(targetValue) && other != "" && Truthy(Get(source, other)) &&
    StrictEquals(targetValue, Get(source, other))
  }

  predicate LengthsViolated(targetValue: Value, range: seq<int>)
  {
    |range| == 2 && !IsNullOrUndefined(targetValue) && LengthOf(targetValue).Some? &&
    var n := LengthOf(targetValue).value;
    n != 0 && (n < range[0] || n > range[1])
  }

  predicate MaxViolated(targetValue: Value, bound: int)
  {
    GreaterThan(targetValue, bound)
  }

  predicate MinViolated(targetValue: Value, bound: int)
  {
    LessThan(targetValue, bound)
  }

  predicate PatternViolated(targetValue: Value, matcher: Matcher)
  {
    !IsNullOrUndefined(targetValue) && matcher.Regex? && !matcher.test(ToStr(targetValue))
  }

  predicate RequiredViolated(targetValue: Value, flag: bool)
  {
    IsNullOrUndefined(targetValue) && flag
  }

  /** `Method.type`: the predicate is looked up as `validator['is' + tag]`. */
  predicate TypeViolated(targetValue: Value, tag: string, preds: Predicates)
  {
    !IsNullOrUndefined(targetValue) && ("is" + tag) in preds && !preds["is" + tag](targetValue)
  }

  /** `Method[reg](value, rule[reg])`. */
  predicate Violated(targetValue: Value, c: Check, preds: Predicates)
  {
    match c
    case Required(flag) => RequiredViolated(targetValue, flag)
    case Max(bound) => MaxViolated(targetValue, bound)
    case Min(bound) => MinViolated(targetValue, bound)
    case Pattern(matcher) => PatternViolated(targetValue, matcher)
    case Lengths(range) => LengthsViolated(targetValue, range)
    case Type(tag) => TypeViolated(targetValue, tag, preds)
  }

  // ---------------------------------------------------------------------
  // Tips

  /** `${value[k]}` for the bounds of a `lengths` parameter. */
  function BoundText(range: seq<int>, k: nat): string
  {
    if k < |range| then IntToString(range[k]) else "undefined"
  }

  /** `Tips[key](field, param)`: every default message starts with the field name. */
  function Tip(field: string, c: Check): (tip: string)
    ensures |tip| > |field| && tip[..|field|] == field
  {
    match c
    case Required(_) => field + " is required"
    case Max(bound) => field + " maxValue is " + IntToString(bound) + " "
    case Min(bound) => field + " minValue is " + IntToString(bound) + " "
    case Pattern(matcher) => field + " must match " + matcher.shown + " "
    case Lengths(range) => field + ".length must in [" + BoundText(range, 0) + "," + BoundText(range, 1) + "] "
    case Type(tag) => field + " is typeof " + tag
  }

  /** `Tips.compare`, for the key `valid` cannot evaluate. */
  function CompareTip(field: string, other: string): (tip: string)
    ensures |tip| > |field| && tip[..|field|] == field
  {
    field + " is not equal to " + other
  }

  /** `message || Tips[key](field, param) || `${field} has error``: the last
      alternative is never reached, since no default message is empty. */
  function Message(message: string, field: string, c: Check): (m: string)
    ensures m == (if message != "" then message else Tip(field, c))
    ensures m != ""
  {
    if message != "" then message
    else if Tip(field, c) != "" then Tip(field, c)
    else field + " has error"
  }

  // ---------------------------------------------------------------------
  // valid

  /** The value the constraints see: `beforeValidate(v) || v`. */
  function Effective(before: Option<Value -> Value>, v: Value): (r: Value)
    ensures before.None? ==> r == v
    ensures before.Some? && Truthy(before.value(v)) ==> r == before.value(v)
    ensures !Truthy(r) ==> r == v
    ensures Truthy(v) ==> Truthy(r)
  {
    var transformed := if before.Some? then before.value(v) else Undefined;
    if Truthy(transformed) then transformed else v
  }

  /** The first of `checks` (in key order) that `value` violates. */
  function FirstViolated(value: Value, checks: seq<Check>, preds: Predicates): (r: Option<nat>)
    ensures r.None? <==> forall i :: 0 <= i < |checks| ==> !Violated(value, checks[i], preds)
    ensures r.Some? ==>
      r.value < |checks| && Violated(value, checks[r.value], preds) &&
      forall j :: 0 <= j < r.value ==> !Violated(value, checks[j], preds)
  {
    if |checks| == 0 then None
    else if Violated(value, checks[0], preds) then Some(0)
    else
      match FirstViolated(value, checks[1..], preds)
      case None => None
      case Some(k) => Some(k + 1)
  }

  /** What one rule decides: `Some` ends the evaluation with that result,
      `None` passes on to the next rule. */
  function Decide(field: string, v: Value, source: Source, rule: Rule, preds: Predicates): Option<Value>
  {
    if rule.custom.Some? then Some(rule.custom.value(field, v, source))
    else
      match FirstViolated(Effective(rule.beforeValidate, v), rule.checks, preds)
      case None => None
      case Some(k) => Some(Str(Message(rule.message, field, rule.checks[k])))
  }

  /** `valid(field, v, source, rules)`: the result of the first rule that decides. */
  function Evaluate(field: string, v: Value, source: Source, rules: seq<Rule>, preds: Predicates): Value
    decreases |rules|
  {
    if |rules| == 0 then Undefined
    else
      match Decide(field, v, source, rules[0], preds)
      case Some(r) => r
      case None => Evaluate(field, v, source, rules[1..], preds)
  }

  /** `valid` as the source runs it: a loop over the rules and, within a
      rule, over its keys, returning at the first decision. */
  method Valid(field: string, targetValue: Value, source: Source, rules: seq<Rule>, preds: Predicates)
    returns (r: Value)
    ensures r == Evaluate(field, targetValue, source, rules, preds)
  {
    var k := 0;
    while k < |rules|
      invariant 0 <= k <= |rules|
      invariant Evaluate(field, targetValue, source, rules, preds) ==
                Evaluate(field, targetValue, source, rules[k..], preds)
    {
      var rule := rules[k];
      assert rules[k..][0] == rule && rules[k..][1..] == rules[k + 1..];
      if rule.custom.Some? {
        return rule.custom.value(field, targetValue, source);
      }
      var value := if rule.beforeValidate.Some? then rule.beforeValidate.value(targetValue) else Undefined;
      if !Truthy(value) {
        value := targetValue;
      }
      assert value == Effective(rule.beforeValidate, targetValue);
      var j := 0;
      while j < |rule.checks|
        invariant 0 <= j <= |rule.checks|
        invariant forall i :: 0 <= i < j ==> !Violated(value, rule.checks[i], preds)
      {
        if Violated(value, rule.checks[j], preds) {
          DecideByFirstViolatedKey(field, targetValue, source, rule, preds, j);
          return Str(Message(rule.message, field, rule.checks[j]));
        }
        j := j + 1;
      }
      DecideNoViolation(field, targetValue, source, rule, preds);
      k := k + 1;
    }
    return Undefined;
  }

  // ---------------------------------------------------------------------
  // Properties of valid

  /** With no deciding rule (in particular with no rules), `valid` returns `undefined`. */
  lemma {:induction false} EvaluateNoDecision(field: string, v: Value, source: Source, rules: seq<Rule>, preds: Predicates)
    requires forall j :: 0 <= j < |rules| ==> Decide(field, v, source, rules[j], preds).None?
    ensures Evaluate(field, v, source, rules, preds) == Undefined
    decreases |rules|
  {
    if |rules| > 0 {
      assert Decide(field, v, source, rules[0], preds).None?;
      assert forall j :: 0 <= j < |rules| - 1 ==> rules[1..][j] == rules[j + 1];
      EvaluateNoDecision(field, v, source, rules[1..], preds);
    }
  }

  /** The earliest deciding rule gives the result of `valid`; later rules are never consulted. */
  lemma {:induction false} EvaluateFirstDecision(field: string, v: Value, source: Source, rules: seq<Rule>, preds: Predicates, k: nat)
    requires k < |rules| && Decide(field, v, source, rules[k], preds).Some?
    requires forall j :: 0 <= j < k ==> Decide(field, v, source, rules[j], preds).None?
    ensures Evaluate(field, v, source, rules, preds) == Decide(field, v, source, rules[k], preds).value
    decreases k
  {
    if k > 0 {
      assert Decide(field, v, source, rules[0], preds).None?;
      assert forall j :: 0 <= j < k - 1 ==> rules[1..][j] == rules[j + 1];
      EvaluateFirstDecision(field, v, source, rules[1..], preds, k - 1);
    }
  }

  /** A rule with `custom` ends the evaluation with exactly what `custom`
      returns, `undefined` included, whatever rules follow it. */
  lemma CustomShortCircuits(field: string, v: Value, source: Source, rule: Rule, rest: seq<Rule>, preds: Predicates)
    requires rule.custom.Some?
    ensures Evaluate(field, v, source, [rule] + rest, preds) == rule.custom.value(field, v, source)
  {
    assert ([rule] + rest)[0] == rule;
  }

  /** Within a rule without `custom`: it decides exactly when the effective
      value violates one of its keys, and then the first violated key (in
      key order) picks the default message unless `message` is non-empty. */
  lemma DecideByFirstViolatedKey(field: string, v: Value, source: Source, rule: Rule, preds: Predicates, k: nat)
    requires rule.custom.None?
    requires k < |rule.checks| && Violated(Effective(rule.beforeValidate, v), rule.checks[k], preds)
    requires forall j :: 0 <= j < k ==> !Violated(Effective(rule.beforeValidate, v), rule.checks[j], preds)
    ensures Decide(field, v, source, rule, preds) ==
      Some(Str(if rule.message != "" then rule.message else Tip(field, rule.checks[k])))
  {
    var r := FirstViolated(Effective(rule.beforeValidate, v), rule.checks, preds);
    assert r.Some?;
    assert r.value == k;
  }

  /** A rule without `custom` whose keys the effective value all satisfies passes on. */
  lemma DecideNoViolation(field: string, v: Value, source: Source, rule: Rule, preds: Predicates)
    requires rule.custom.None?
    requires forall j :: 0 <= j < |rule.checks| ==> !Violated(Effective(rule.beforeValidate, v), rule.checks[j], preds)
    ensures Decide(field, v, source, rule, preds).None?
  {
  }

  /** A falsy transform result (`0`, `''`, `false`, `null`, `undefined`) falls back to the original value. */
  lemma FalsyTransformFallsBack(before: Value -> Value, v: Value)
    requires !Truthy(before(v))
    ensures Effective(Some(before), v) == v
  {
  }

  // ---------------------------------------------------------------------
  // Properties of the constraints

  /** `required` is violated exactly for `undefined`, `null` or `''` with a truthy parameter. */
  lemma RequiredIff(targetValue: Value, flag: bool, preds: Predicates)
    ensures Violated(targetValue, Required(flag), preds) <==>
      flag && (targetValue == Undefined || targetValue == Null || targetValue == Str(""))
  {
  }

  /** `max` is violated above the bound and `min` below it; the bound itself
      passes both, for a number and for its decimal string alike. */
  lemma MaxMinBounds(n: int, bound: int, preds: Predicates)
    ensures Violated(Int(n), Max(bound), preds) <==> n > bound
    ensures Violated(Int(n), Min(bound), preds) <==> n < bound
    ensures Violated(Str(IntToString(n)), Max(bound), preds) <==> n > bound
    ensures Violated(Str(IntToString(n)), Min(bound), preds) <==> n < bound
  {
    IntToStringRoundTrip(n);
  }

  /** `lengths` applies only to a two-element range, ignores values without
      a length or of length 0, and otherwise demands `low <= length <= high`. */
  lemma LengthsInclusive(targetValue: Value, range: seq<int>, preds: Predicates)
    ensures |range| != 2 ==> !Violated(targetValue, Lengths(range), preds)
    ensures LengthOf(targetValue).None? ==> !Violated(targetValue, Lengths(range), preds)
    ensures |range| == 2 && LengthOf(targetValue).Some? ==>
      (Violated(targetValue, Lengths(range), preds) <==>
        var n := LengthOf(targetValue).value;
        n != 0 && (n < range[0] || n > range[1]))
  {
  }

  /** `pattern` and `type` never fire on an empty value, on a parameter
      without `test`, or on a tag the predicate table lacks; otherwise they
      fire exactly when the test or the predicate rejects the value. */
  lemma PatternTypeOnlyOnPresentValues(targetValue: Value, matcher: Matcher, tag: string, preds: Predicates)
    ensures IsNullOrUndefined(targetValue) ==>
      !Violated(targetValue, Pattern(matcher), preds) && !Violated(targetValue, Type(tag), preds)
    ensures matcher.NotRegex? ==> !Violated(targetValue, Pattern(matcher), preds)
    ensures ("is" + tag) !in preds ==> !Violated(targetValue, Type(tag), preds)
    ensures !IsNullOrUndefined(targetValue) && matcher.Regex? ==>
      (Violated(targetValue, Pattern(matcher), preds) <==> !matcher.test(ToStr(targetValue)))
    ensures !IsNullOrUndefined(targetValue) && ("is" + tag) in preds ==>
      (Violated(targetValue, Type(tag), preds) <==> !preds["is" + tag](targetValue))
  {
  }

  /** A tag written as a declared `Types` value already starts with `is`, so
      `type` looks up `isis...`: with no such entry in `validator`, the key
      never fires, whatever the value. */
  lemma DeclaredTagLooksUpDoublePrefix(targetValue: Value, name: string, preds: Predicates)
    ensures ("isis" + name) !in preds ==> !Violated(targetValue, Type("is" + name), preds)
    ensures !IsNullOrUndefined(targetValue) && ("isis" + name) in preds ==>
      (Violated(targetValue, Type("is" + name), preds) <==> !preds["isis" + name](targetValue))
  {
    assert "is" + ("is" + name) == "isis" + name;
  }

  /** `compare` reports a violation when the value EQUALS the truthy sibling
      field, and never for an empty value, an empty field name or a falsy
      sibling. */
  lemma CompareFiresOnEqual(targetValue: Value, other: string, source: Source)
    ensures IsNullOrUndefined(targetValue) || other == "" || !Truthy(Get(source, other)) ==>
      !CompareViolated(targetValue, other, source)
    ensures !IsNullOrUndefined(targetValue) && other != "" && Truthy(Get(source, other)) && !targetValue.List? ==>
      (CompareViolated(targetValue, other, source) <==> targetValue == Get(source, other))
  {
  }

  // ---------------------------------------------------------------------
  // The decorator

  /** The validation getter defined for `field`: `valid(field, this[field], this, rules)`. */
  function FieldGetter(field: string, rules: seq<Rule>, preds: Predicates): Registry.Getter
  {
    inst => Evaluate(field, Get(inst, field), inst, rules, preds)
  }

  /** Decorating `field` of class `c` with `rules`: the getter under `key`
      evaluates the rules on the instance, and `key` joins the class's own
      registration list in decoration order. */
  method Decorate(c: Registry.EntityClass, field: string, key: string, rules: seq<Rule>, preds: Predicates)
    requires c.Wf()
    modifies c
    ensures c.Wf()
    ensures c.Fields() == Some(if old(c.own).Some? then old(c.own).value + [key] else [key])
    ensures c.Getters() == old(c.Getters())[key := FieldGetter(field, rules, preds)]
    ensures forall inst :: Registry.ErrorOf(c.Getters(), inst, key) == Evaluate(field, Get(inst, field), inst, rules, preds)
  {
    c.Register(key, FieldGetter(field, rules, preds));
  }
}
