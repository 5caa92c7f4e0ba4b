/** The TypeScript revision, src/index.ts: `isEmpty`, the four `Method`
    entries it defines, `test`, and the `validator` decorator. */
module SrcTs {
  import opened Js
  import Registry

  /** A constraint key of a rule with its parameter: the keys `Method` defines. */
  datatype Check =
    | Required(flag: bool)
    | Max(bound: int)
    | Min(bound: int)
    | Type(tag: string)

  /** A rule: its `message` ("" when absent), `validator`, `transform`, and
      its remaining keys in the rule's own key order. */
  datatype Rule = Rule(
    message: string,
    validator: Option<Custom>,
    transform: Option<Value -> Value>,
    checks: seq<Check>)

  /** `isEmpty` as written: the string branch only runs when the value is
      already `undefined` or `null`, so it changes nothing. */
  predicate IsEmpty(v: Value)
  {
    var result := v == Undefined || v == Null;
    if result && v.Str? then !(!result) else result
  }

  // ---------------------------------------------------------------------
  // Method

  /** `Method.required` as written: violated when the value is PRESENT. */
  predicate RequiredViolated(targetValue: Value, flag: bool)
  {
    !IsEmpty(targetValue) && flag
  }

  predicate MaxViolated(targetValue: Value, bound: int)
  {
    GreaterThan(targetValue, bound)
  }

  predicate MinViolated(targetValue: Value, bound: int)
  {
    LessThan(targetValue, bound)
  }

  /** `Method.type`: the tag is the predicate's own name, `validator[tag]`. */
  predicate TypeViolated(targetValue: Value, tag: string, preds: Predicates)
  {
    !IsEmpty(targetValue) && tag != "" && tag in preds && !preds[tag](targetValue)
  }

  predicate Violated(targetValue: Value, c: Check, preds: Predicates)
  {
    match c
    case Required(flag) => RequiredViolated(targetValue, flag)
    case Max(bound) => MaxViolated(targetValue, bound)
    case Min(bound) => MinViolated(targetValue, bound)
    case Type(tag) => TypeViolated(targetValue, tag, preds)
  }

  // ---------------------------------------------------------------------
  // test

  /** The first of `checks` (in key order) that `value` violates. */
  function FirstViolated(value: Value, checks: seq<Check>, preds: Predicates): (r: Option<nat>)
    ensures r.None? <==> forall i :: 0 <= i < |checks| ==> !Violated(value, checks[i], preds)
    ensures r.Some? ==>
      r.value < |checks| && Violated(value, checks[r.value], preds) &&
      forall j :: 0 <= j < r.value ==> !Violated(value, checks[j], preds)
  {
    if |checks| == 0 then None
    else if Violated(value, checks[0], preds) then Some(0)
    else
      match FirstViolated(value, checks[1..], preds)
      case None => None
      case Some(k) => Some(k + 1)
  }

  /** `message || 'error'`. */
  function MessageOrError(message: string): (m: string)
    ensures m != ""
    ensures message != "" ==> m == message
  {
    if message != "" then message else "error"
  }

  /** What one rule decides; the keys are checked on the untransformed value. */
  function Decide(field: string, v: Value, source: Source, rule: Rule, preds: Predicates): Option<Value>
  {
    if rule.validator.Some? then Some(rule.validator.value(field, v, source))
    else if FirstViolated(v, rule.checks, preds).Some? then Some(Str(MessageOrError(rule.message)))
    else None
  }

  /** `test(field, v, source, rules)`: the result of the first rule that decides. */
  function Evaluate(field: string, v: Value, source: Source, rules: seq<Rule>, preds: Predicates): Value
    decreases |rules|
  {
    if |rules| == 0 then Undefined
    else
      match Decide(field, v, source, rules[0], preds)
      case Some(r) => r
      case None => Evaluate(field, v, source, rules[1..], preds)
  }

  /** `test` as the source runs it. The transformed `value` is computed and
      then left unused: the keys are checked on `targetValue`. */
  method Test(field: string, targetValue: Value, source: Source, rules: seq<Rule>, preds: Predicates)
    returns (r: Value)
    ensures r == Evaluate(field, targetValue, source, rules, preds)
  {
    var k := 0;
    while k < |rules|
      invariant 0 <= k <= |rules|
      invariant Evaluate(field, targetValue, source, rules, preds) ==
                Evaluate(field, targetValue, source, rules[k..], preds)
    {
      var rule := rules[k];
      assert rules[k..][0] == rule && rules[k..][1..] == rules[k + 1..];
      if rule.validator.Some? {
        return rule.validator.value(field, targetValue, source);
      }
      var value := if rule.transform.Some? then rule.transform.value(targetValue) else Undefined;
      if !Truthy(value) {
        value := targetValue;
      }
      var j := 0;
      while j < |rule.checks|
        invariant 0 <= j <= |rule.checks|
        invariant forall i :: 0 <= i < j ==> !Violated(targetValue, rule.checks[i], preds)
      {
        if Violated(targetValue, rule.checks[j], preds) {
          return Str(MessageOrError(rule.message));
        }
        j := j + 1;
      }
      k := k + 1;
    }
    return Undefined;
  }

  // ---------------------------------------------------------------------
  // Properties

  /** `isEmpty` holds for `undefined` and `null` only; `''` is not empty. */
  lemma IsEmptyExactly(v: Value)
    ensures IsEmpty(v) <==> v == Undefined || v == Null
    ensures !IsEmpty(Str(""))
  {
  }

  /** `required` as written fires on a present value (`''` included) with a
      truthy parameter, and never on `undefined` or `null`. */
  lemma RequiredInverted(targetValue: Value, flag: bool, preds: Predicates)
    ensures Violated(targetValue, Required(flag), preds) <==>
      flag && targetValue != Undefined && targetValue != Null
    ensures !Violated(Undefined, Required(flag), preds) && !Violated(Null, Required(flag), preds)
  {
  }

  /** `max` is violated above the bound and `min` below it; the bound itself passes. */
  lemma MaxMinBounds(n: int, bound: int, preds: Predicates)
    ensures Violated(Int(n), Max(bound), preds) <==> n > bound
    ensures Violated(Int(n), Min(bound), preds) <==> n < bound
    ensures Violated(Str(IntToString(n)), Max(bound), preds) <==> n > bound
    ensures Violated(Str(IntToString(n)), Min(bound), preds) <==> n < bound
  {
    IntToStringRoundTrip(n);
  }

  /** `type` never fires on `undefined`/`null`, on the empty tag, or without a
      predicate for the tag; otherwise it fires exactly when the predicate
      rejects the value. */
  lemma TypeOnlyWithPredicate(targetValue: Value, tag: string, preds: Predicates)
    ensures IsEmpty(targetValue) || tag == "" || tag !in preds ==> !Violated(targetValue, Type(tag), preds)
    ensures !IsEmpty(targetValue) && tag != "" && tag in preds ==>
      (Violated(targetValue, Type(tag), preds) <==> !preds[tag](targetValue))
  {
  }

  /** With no deciding rule (in particular with no rules), `test` returns `undefined`. */
  lemma {:induction false} EvaluateNoDecision(field: string, v: Value, source: Source, rules: seq<Rule>, preds: Predicates)
    requires forall j :: 0 <= j < |rules| ==> Decide(field, v, source, rules[j], preds).None?
    ensures Evaluate(field, v, source, rules, preds) == Undefined
    decreases |rules|
  {
    if |rules| > 0 {
      assert Decide(field, v, source, rules[0], preds).None?;
      assert forall j :: 0 <= j < |rules| - 1 ==> rules[1..][j] == rules[j + 1];
      EvaluateNoDecision(field, v, source, rules[1..], preds);
    }
  }

  /** The earliest deciding rule gives the result: its `validator`'s result,
      or `message || 'error'` when one of its keys is violated. */
  lemma {:induction false} EvaluateFirstDecision(field: string, v: Value, source: Source, rules: seq<Rule>, preds: Predicates, k: nat)
    requires k < |rules| && Decide(field, v, source, rules[k], preds).Some?
    requires forall j :: 0 <= j < k ==> Decide(field, v, source, rules[j], preds).None?
    ensures Evaluate(field, v, source, rules, preds) ==
      if rules[k].validator.Some? then rules[k].validator.value(field, v, source)
      else Str(if rules[k].message != "" then rules[k].message else "error")
    decreases k
  {
    if k > 0 {
      assert Decide(field, v, source, rules[0], preds).None?;
      assert forall j :: 0 <= j < k - 1 ==> rules[1..][j] == rules[j + 1];
      EvaluateFirstDecision(field, v, source, rules[1..], preds, k - 1);
    }
  }

  /** The rules with every `transform` removed. */
  function WithoutTransforms(rules: seq<Rule>): (r: seq<Rule>)
    ensures |r| == |rules|
  {
    seq(|rules|, i requires 0 <= i < |rules| => rules[i].(transform := None))
  }

  /** `transform` has no effect on the outcome of `test`. */
  lemma {:induction false} TransformIgnored(field: string, v: Value, source: Source, rules: seq<Rule>, preds: Predicates)
    ensures Evaluate(field, v, source, rules, preds) == Evaluate(field, v, source, WithoutTransforms(rules), preds)
    decreases |rules|
  {
    if |rules| > 0 {
      var stripped := WithoutTransforms(rules);
      assert stripped[0] == rules[0].(transform := None);
      assert stripped[1..] == WithoutTransforms(rules[1..]);
      TransformIgnored(field, v, source, rules[1..], preds);
    }
  }

  // ---------------------------------------------------------------------
  // The decorator

  /** The validation getter defined for `field`: `test(field, this[field], this, rules)`. */
  function FieldGetter(field: string, rules: seq<Rule>, preds: Predicates): Registry.Getter
  {
    inst => Evaluate(field, Get(inst, field), inst, rules, preds)
  }

  /** `validator(rules)` applied to `field` of class `c`: the getter under
      `key` runs `test` on the instance, and `key` joins the class's own
      registration list in decoration order. */
  method Decorate(c: Registry.EntityClass, field: string, key: string, rules: seq<Rule>, preds: Predicates)
    requires c.Wf()
    modifies c
    ensures c.Wf()
    ensures c.Fields() == Some(if old(c.own).Some? then old(c.own).value + [key] else [key])
    ensures c.Getters() == old(c.Getters())[key := FieldGetter(field, rules, preds)]
    ensures forall inst :: Registry.ErrorOf(c.Getters(), inst, key) == Evaluate(field, Get(inst, field), inst, rules, preds)
  {
    c.Register(key, FieldGetter(field, rules, preds));
  }
}
