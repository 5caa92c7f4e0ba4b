/** The earliest revision, src/index.js: the `regRules` table, `test`, and
    the default export that turns its argument into a rule list. */
module SrcJs {
  import opened Js

  /** A constraint key of a rule with its parameter: the keys `regRules` defines. */
  datatype Check =
    | Type(tag: string)
    | Required(flag: bool)
    | Max(bound: int)
    | Min(bound: int)
    | Pattern(matcher: Matcher)
    | Length(range: seq<int>)

  /** A rule: its `message` ("" when absent) and its other keys in key order. */
  datatype Rule = Rule(message: string, checks: seq<Check>)

  /** The argument of the default export: a function producing the rules
      from the value and the source, one plain rule object, or a rule list. */
  datatype RuleArg =
    | FunctionArg(make: (Value, Source) -> seq<Rule>)
    | ObjectArg(rule: Rule)
    | ListArg(rules: seq<Rule>)

  /** `isNullOrUndefined`: `''` does not count. */
  predicate IsNullOrUndefined(v: Value)
  {
    v == Undefined || v == Null
  }

  /** `regRules[key](target, param)`: `Normal(true)` when violated. `type`
      calls `Types[tag]` unguarded, so a tag missing from `Types` throws. */
  function RegRule(target: Value, c: Check, types: Predicates): Completion<bool>
  {
    match c
    case Type(tag) =>
      if IsNullOrUndefined(target) then Normal(false)
      else if tag in types then Normal(!types[tag](target))
      else Throw
    case Required(flag) => Normal((IsNullOrUndefined(target) || target == Str("")) && flag)
    case Max(bound) => Normal(GreaterThan(target, bound))
    case Min(bound) => Normal(LessThan(target, bound))
    case Pattern(matcher) => Normal(!IsNullOrUndefined(target) && matcher.Regex? && !matcher.test(ToStr(target)))
    case Length(range) =>
      Normal(
        |range| == 2 && !IsNullOrUndefined(target) && LengthOf(target).Some? &&
        var n := LengthOf(target).value;
        n != 0 && !(n > range[0] && n < range[1]))
  }

  /** Runs `checks` in key order up to the first one that is violated or throws. */
  function FirstHit(target: Value, checks: seq<Check>, types: Predicates): (r: Completion<bool>)
    ensures r == Normal(false) <==>
      forall i :: 0 <= i < |checks| ==> RegRule(target, checks[i], types) == Normal(false)
    ensures r != Normal(false) ==>
      exists i :: 0 <= i < |checks| && RegRule(target, checks[i], types) == r &&
        forall j :: 0 <= j < i ==> RegRule(target, checks[j], types) == Normal(false)
  {
    if |checks| == 0 then Normal(false)
    else
      match RegRule(target, checks[0], types)
      case Throw => Throw
      case Normal(hit) =>
        if hit then Normal(true)
        else
          var r := FirstHit(target, checks[1..], types);
          assert forall i :: 1 <= i < |checks| ==> checks[i] == checks[1..][i - 1];
          r
  }

  /** `message || 'error'`. */
  function MessageOrError(message: string): (m: string)
    ensures m != ""
    ensures message != "" ==> m == message
  {
    if message != "" then message else "error"
  }

  /** What one rule decides: a rule with only a (truthy) message always fails. */
  function Decide(target: Value, rule: Rule, types: Predicates): Completion<Option<Value>>
  {
    if |rule.checks| == 0 && rule.message != "" then Normal(Some(Str(MessageOrError(rule.message))))
    else
      match FirstHit(target, rule.checks, types)
      case Throw => Throw
      case Normal(hit) => if hit then Normal(Some(Str(MessageOrError(rule.message)))) else Normal(None)
  }

  /** `test(target, rules)`: the message of the first rule that decides,
      `undefined` when none does. */
  function Test(target: Value, rules: seq<Rule>, types: Predicates): Completion<Value>
    decreases |rules|
  {
    if |rules| == 0 then Normal(Undefined)
    else
      match Decide(target, rules[0], types)
      case Throw => Throw
      case Normal(Some(m)) => Normal(m)
      case Normal(None) => Test(target, rules[1..], types)
  }

  /** The rule list the default export validates with. */
  function Normalize(arg: RuleArg, value: Value, source: Source): seq<Rule>
  {
    match arg
    case FunctionArg(make) => make(value, source)
    case ObjectArg(rule) => [rule]
    case ListArg(rules) => rules
  }

  /** The validation function the default export hands to the form library. */
  function Validate(arg: RuleArg, value: Value, source: Source, types: Predicates): Completion<Value>
  {
    Test(value, Normalize(arg, value, source), types)
  }

  // ---------------------------------------------------------------------
  // Properties

  /** `required` fires for `undefined`, `null` and `''` with a truthy parameter. */
  lemma RequiredIff(target: Value, flag: bool, types: Predicates)
    ensures RegRule(target, Required(flag), types) ==
      Normal(flag && (target == Undefined || target == Null || target == Str("")))
  {
  }

  /** `max` is violated above the bound and `min` below it; the bound itself passes. */
  lemma MaxMinBounds(n: int, bound: int, types: Predicates)
    ensures RegRule(Int(n), Max(bound), types) == Normal(n > bound)
    ensures RegRule(Int(n), Min(bound), types) == Normal(n < bound)
    ensures RegRule(Str(IntToString(n)), Max(bound), types) == Normal(n > bound)
    ensures RegRule(Str(IntToString(n)), Min(bound), types) == Normal(n < bound)
  {
    IntToStringRoundTrip(n);
  }

  /** `pattern` skips only `undefined` and `null`: `''` is tested like any value. */
  lemma PatternTestsEveryPresentValue(target: Value, matcher: Matcher, types: Predicates)
    ensures IsNullOrUndefined(target) || matcher.NotRegex? ==> RegRule(target, Pattern(matcher), types) == Normal(false)
    ensures !IsNullOrUndefined(target) && matcher.Regex? ==>
      RegRule(target, Pattern(matcher), types) == Normal(!matcher.test(ToStr(target)))
    ensures matcher.Regex? ==> RegRule(Str(""), Pattern(matcher), types) == Normal(!matcher.test(""))
  {
  }

  /** `length` applies only to a two-element range and demands
      `low < length < high`: both bounds themselves are violations. */
  lemma LengthExclusive(target: Value, range: seq<int>, types: Predicates)
    ensures |range| != 2 || IsNullOrUndefined(target) || LengthOf(target).None? ==>
      RegRule(target, Length(range), types) == Normal(false)
    ensures |range| == 2 && LengthOf(target).Some? ==>
      RegRule(target, Length(range), types) ==
        var n := LengthOf(target).value;
        Normal(n != 0 && (n <= range[0] || n >= range[1]))
  {
  }

  /** `type` skips `undefined` and `null`; otherwise it fires when `Types[tag]`
      rejects the value, and throws when `Types` has no entry for the tag. */
  lemma TypeCallsTable(target: Value, tag: string, types: Predicates)
    ensures IsNullOrUndefined(target) ==> RegRule(target, Type(tag), types) == Normal(false)
    ensures !IsNullOrUndefined(target) && tag in types ==>
      RegRule(target, Type(tag), types) == Normal(!types[tag](target))
    ensures !IsNullOrUndefined(target) && tag !in types ==> RegRule(target, Type(tag), types) == Throw
  {
  }

  /** A rule with a truthy message and no other key fails whatever follows it. */
  lemma MessageOnlyRuleFails(target: Value, rule: Rule, rest: seq<Rule>, types: Predicates)
    requires |rule.checks| == 0 && rule.message != ""
    ensures Test(target, [rule] + rest, types) == Normal(Str(rule.message))
  {
    assert ([rule] + rest)[0] == rule;
  }

  /** With no deciding rule (in particular with no rules), `test` returns `undefined`. */
  lemma {:induction false} TestNoDecision(target: Value, rules: seq<Rule>, types: Predicates)
    requires forall j :: 0 <= j < |rules| ==> Decide(target, rules[j], types) == Normal(None)
    ensures Test(target, rules, types) == Normal(Undefined)
    decreases |rules|
  {
    if |rules| > 0 {
      assert Decide(target, rules[0], types) == Normal(None);
      assert forall j :: 0 <= j < |rules| - 1 ==> rules[1..][j] == rules[j + 1];
      TestNoDecision(target, rules[1..], types);
    }
  }

  /** The earliest deciding rule gives the result: `message || 'error'`, or
      the error its keys throw. */
  lemma {:induction false} TestFirstDecision(target: Value, rules: seq<Rule>, types: Predicates, k: nat)
    requires k < |rules| && Decide(target, rules[k], types) != Normal(None)
    requires forall j :: 0 <= j < k ==> Decide(target, rules[j], types) == Normal(None)
    ensures Decide(target, rules[k], types).Normal? ==>
      Test(target, rules, types) == Normal(Str(MessageOrError(rules[k].message)))
    ensures Decide(target, rules[k], types).Throw? ==> Test(target, rules, types) == Throw
    decreases k
  {
    if k > 0 {
      assert Decide(target, rules[0], types) == Normal(None);
      assert forall j :: 0 <= j < k - 1 ==> rules[1..][j] == rules[j + 1];
      TestFirstDecision(target, rules[1..], types, k - 1);
    }
  }

  /** Every `type` key of the rule names an entry of `Types`. */
  predicate TagsKnown(rule: Rule, types: Predicates)
  {
    forall j :: 0 <= j < |rule.checks| && rule.checks[j].Type? ==> rule.checks[j].tag in types
  }

  lemma DecideNoThrow(target: Value, rule: Rule, types: Predicates)
    requires TagsKnown(rule, types)
    ensures Decide(target, rule, types) != Throw
  {
  }

  /** `test` throws only on a `type` key whose tag `Types` lacks. */
  lemma {:induction false} TestNoThrowWithKnownTags(target: Value, rules: seq<Rule>, types: Predicates)
    requires forall i :: 0 <= i < |rules| ==> TagsKnown(rules[i], types)
    ensures Test(target, rules, types) != Throw
    decreases |rules|
  {
    if |rules| > 0 {
      DecideNoThrow(target, rules[0], types);
      assert forall i :: 0 <= i < |rules| - 1 ==> rules[1..][i] == rules[i + 1];
      TestNoThrowWithKnownTags(target, rules[1..], types);
    }
  }

  /** The three argument forms of the default export: a function's rules are
      computed from the value and the source, a plain object is a one-rule
      list, and a list is used as it is. */
  lemma NormalizeForms(make: (Value, Source) -> seq<Rule>, rule: Rule, rules: seq<Rule>, value: Value, source: Source, types: Predicates)
    ensures Validate(FunctionArg(make), value, source, types) == Test(value, make(value, source), types)
    ensures Validate(ObjectArg(rule), value, source, types) == Validate(ListArg([rule]), value, source, types)
    ensures Validate(ListArg(rules), value, source, types) == Test(value, rules, types)
  {
  }
}
