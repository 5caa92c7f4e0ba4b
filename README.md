# Field-validation rules, modelled in Dafny

This project models the rule-evaluation core of a small decorator library
that validates fields of MobX form entities. A field is decorated with an
ordered list of rules. Each rule is either a caller-supplied validator or a
bundle of constraint keys (`required`, `max`, `min`, `pattern`, `lengths`,
`type`) with an optional message. Reading the field's validation getter
evaluates the rules on the field's current value and yields the first
message, or `undefined`. Each class keeps an ordered list of its validated
fields. On that list sit `validateError` (the first failing field's key) and
`isValid`.

The repository holds three revisions of this logic, and each is its own module:

- `LibIndex` (lib_index.dfy) models lib/index.js, the canonical revision:
  - the `Method` predicates and `Tips` messages;
  - `valid`, as a specification function `Evaluate` and the loop `Valid` proved equal to it;
  - the decorator `Decorate`.
- `SrcTs` (src_ts.dfy) models src/index.ts: `isEmpty`, `Method.required/max/min/type`, `test` (function `Evaluate` and loop `Test`), and the `validator` decorator.
- `SrcJs` (src_js.dfy) models src/index.js: `regRules`, `test` (a pure recursive function, as the source's search mutates nothing), and the default export's normalisation of its argument.
- `Registry` (registry.dfy) is shared by the first two, whose registration code is identical (lib/index.js:93-127, src/index.ts:127-162). It holds:
  - a class `EntityClass` with its own `__validateFields` list, the getters defined on its prototype, and the class it extends;
  - `FirstFailing`, the `find` behind `getValidateError`;
  - `IsValidResult`, behind `getIsValid`.
- `Js` (js_value.dfy) holds the JavaScript values the rules look at:
  - `undefined`, `null`, booleans, integers, strings and arrays;
  - truthiness, `String(v)`, `Number(v)`, `>`/`<` against a numeric parameter, `.length` and `===`.

Each revision repeats logic of the others, such as the first-violated-key search and `message || 'error'`. The model repeats it in the same places, so each module stands for one file.

Rule parameters take the types the rule interfaces declare: `required` is a boolean, `max`/`min` are numbers, `lengths` is a number array, `type` is a tag string, and `message` is a string. An absent `message` is the empty string, since both are falsy. A `pattern` parameter is either a RegExp, given by its printed form and its `test`, or a value without `test`. Custom validators, transforms and the type-predicate tables are function parameters.

Where the code and the written description of the library disagree, the model follows the code:

- Constraint keys are checked in the rule's own key order, not a fixed canonical order.
- `compare` reports a violation when the two values are EQUAL.
- Decorating the same field twice pushes its key twice.
- Decorating a subclass that does not own `__validateFields` gives it a fresh one-key list. The subclass list shadows the inherited one rather than extending it.
- `isNullOrUndefined` counts `''` as empty in lib/index.js. In src/index.ts and src/index.js, `''` is not empty.
- `required` in src/index.ts is violated when the value is present.
- `type` in lib/index.js prefixes the tag with `is`, while lib/index.d.ts:1-20,35 types the tag as a `Types` value that already begins with `is`. A declared tag therefore looks up `isis…` and, against the `validator` package, never fires (`LibIndex.DeclaredTagLooksUpDoublePrefix`).

## Model

| member | source | states |
|---|---|---|
| LibIndex.RequiredIff | lib/index.js:65-67 | `required` is violated exactly when the value is `undefined`, `null` or `''` (the `isNullOrUndefined` of lines 11-13) and the parameter is true |
| LibIndex.MaxMinBounds | lib/index.js:39-49 | `max` is violated exactly when the value exceeds the bound, and `min` exactly when it is below it. A value equal to the bound passes both. This holds for an integer and for its decimal string |
| LibIndex.LengthsInclusive | lib/index.js:26-33 | `lengths` never fires unless the parameter has two elements and the value has a length. Otherwise it fires exactly when the length is non-zero and lies outside `[low, high]`, bounds included in the range |
| LibIndex.PatternTypeOnlyOnPresentValues | lib/index.js:55-78 | `pattern` and `type` never fire on an empty value. `pattern` never fires with a parameter that has no `test`, and `type` never fires when `validator` has no `is<tag>`. Otherwise each fires exactly when the test or the predicate rejects the value |
| LibIndex.CompareFiresOnEqual | lib/index.js:21-25 | `compare` (with the source given) never fires on an empty value, an empty field name or a falsy sibling. For a non-array value, a non-empty field name and a truthy sibling, it fires exactly when the value EQUALS the sibling |
| LibIndex.DeclaredTagLooksUpDoublePrefix | lib/index.js:73-78 | a tag given as a declared `Types` value (`isEmail`, say) makes `type` look up `isisEmail`. Without that entry the key never fires, and with it that entry decides |
| LibIndex.Tip | lib/index.js:80-88 | every default message begins with the field name and is longer than it |
| LibIndex.CompareTip | lib/index.js:81 | the `compare` default message begins with the field name and is longer than it |
| LibIndex.Message | lib/index.js:157 | the message is `message` when non-empty, else the key's default message. The result is never empty, so the `has error` fallback is unreachable |
| LibIndex.Effective | lib/index.js:153-154 | the checked value is the transform result when that is truthy, and otherwise the original value. A falsy checked value is always the original, and a truthy original stays truthy |
| LibIndex.FalsyTransformFallsBack | lib/index.js:153-154 | a falsy `beforeValidate` result (`0`, `''`, `false`, `null`, `undefined`) leaves the original value in place |
| LibIndex.FirstViolated | lib/index.js:155-159 | finds no key exactly when the value violates none. Otherwise it finds the earliest violated key in key order |
| LibIndex.DecideByFirstViolatedKey | lib/index.js:155-157 | in a rule without `custom`, the first violated key decides. The result is `message` if non-empty, else that key's default message |
| LibIndex.DecideNoViolation | lib/index.js:155-159 | a rule without `custom` whose keys all pass lets evaluation continue with the next rule |
| LibIndex.Valid | lib/index.js:145-162 | the nested loop with early returns computes exactly `Evaluate`, the first-decision result over the rule list |
| LibIndex.EvaluateNoDecision | lib/index.js:145-162 | with no deciding rule (an empty list included), `valid` returns `undefined` |
| LibIndex.EvaluateFirstDecision | lib/index.js:145-162 | `valid` returns the decision of the earliest deciding rule, whatever later rules would say |
| LibIndex.CustomShortCircuits | lib/index.js:149-150 | a rule with `custom` yields exactly `custom(field, value, source)`, `undefined` included, and no later rule is consulted |
| LibIndex.Decorate | lib/index.js:105-127 | after decoration, the getter under the key evaluates the rules on `this[field]` with `this` as source. The key is appended to the class's own list, or becomes a fresh one-key list. Every other getter is unchanged |
| Registry.FirstFailing | lib/index.js:93-95 | `getValidateError` returns no key exactly when no registered key's getter yields a truthy error. Otherwise it returns the earliest registered key (not its message) whose error is truthy |
| Registry.IsValidIffNoFieldFails | lib/index.js:97-99 | with non-empty keys, `isValid` holds exactly when no registered field reports a truthy error |
| Registry.EntityClass.Register | lib/index.js:117-127 | a class that owns a registration list gets `key` appended to it. A class that does not gets the fresh list `[key]`, so an inherited list is shadowed. The getter view gains `key` and nothing else changes |
| SrcTs.IsEmptyExactly | src/index.ts:71-77 | `isEmpty` holds exactly for `undefined` and `null`; the string branch is dead and `''` is not empty |
| SrcTs.RequiredInverted | src/index.ts:85-87 | `required` as written is violated exactly when the value is neither `undefined` nor `null` and the parameter is true, so never on a missing value |
| SrcTs.MaxMinBounds | src/index.ts:94-105 | `max` is violated exactly above the bound and `min` exactly below it. The bound itself passes, for an integer and for its decimal string |
| SrcTs.TypeOnlyWithPredicate | src/index.ts:111-115 | `type` never fires on `undefined`/`null`, on the empty tag, or without a predicate for the tag. For a present value and a non-empty tag with a predicate, it fires exactly when the predicate rejects the value |
| SrcTs.FirstViolated | src/index.ts:190-194 | finds no key exactly when the value violates none. Otherwise it finds the earliest violated key |
| SrcTs.MessageOrError | src/index.ts:192 | the message is never empty and is `message` whenever that is non-empty |
| SrcTs.Test | src/index.ts:181-197 | the loop with early returns computes exactly `Evaluate`, the first-decision result over the rule list |
| SrcTs.EvaluateNoDecision | src/index.ts:181-197 | with no deciding rule (an empty list included), `test` returns `undefined` |
| SrcTs.EvaluateFirstDecision | src/index.ts:184-192 | the earliest deciding rule gives the result. That is its `validator`'s result, or `message || 'error'` when one of its keys is violated |
| SrcTs.TransformIgnored | src/index.ts:188-191 | removing every `transform` leaves the result of `test` unchanged, because the keys are checked on the original value |
| SrcTs.Decorate | src/index.ts:139-162 | after decoration, the getter under the key runs `test` on `this[field]` with `this` as source. The key is appended to the class's own list, or becomes a fresh one-key list |
| SrcJs.RequiredIff | src/index.js:36 | `required` fires exactly for `undefined`, `null` or `''` with a true parameter |
| SrcJs.MaxMinBounds | src/index.js:38-40 | `max` fires exactly above the bound and `min` exactly below it. The bound passes, for an integer and for its decimal string |
| SrcJs.PatternTestsEveryPresentValue | src/index.js:42 | `pattern` skips `undefined`, `null` and parameters without `test`. It tests every other value, `''` included, and fires exactly when the test fails |
| SrcJs.LengthExclusive | src/index.js:47-51 | `length` applies only to a two-element range and a value with a length. It then fires exactly when the length is non-zero and `length <= low` or `length >= high` |
| SrcJs.TypeCallsTable | src/index.js:34 | `type` skips `undefined`/`null`. It fires exactly when `Types[tag]` rejects the value, and throws when `Types` has no entry for the tag |
| SrcJs.FirstHit | src/index.js:59-63 | the key scan ends normally with no hit exactly when every key passes. Otherwise its outcome (a hit or a throw) is that of the earliest key that does not pass |
| SrcJs.MessageOrError | src/index.js:61 | the message is never empty and is `message` whenever that is non-empty |
| SrcJs.MessageOnlyRuleFails | src/index.js:56-58 | a rule whose only key is a non-empty `message` fails with that message, whatever rules follow |
| SrcJs.TestNoDecision | src/index.js:54-65 | with no deciding rule (an empty list included), `test` returns `undefined` |
| SrcJs.TestFirstDecision | src/index.js:54-65 | the earliest deciding rule gives the result: `message \|\| 'error'`, or the error its keys throw |
| SrcJs.TestNoThrowWithKnownTags | src/index.js:34 | when every `type` key names an entry of `Types`, `test` does not throw |
| SrcJs.NormalizeForms | src/index.js:71-79 | a function argument yields the rules `reg(value, source)`. A plain object is the one-rule list `[reg]`. A list is used as it is |

## Left out

- MobX reactivity and memoisation (`computed`): every getter is recomputed from the instance's current field values on each read. This gives the same values a memoised getter would.
- The property plumbing (`Object.defineProperty`, and defining the `validateError`/`isValid` getters once per prototype) is left out. The `camelCase` naming of getter keys is left out too: the decorators take the key as a parameter.
- The `mobx-form-validate` wrapper that src/index.js hands its validation function to is external. Only the rule list it validates with is modelled.
- The `validator` package and the `Types` tables are a map from name to an uninterpreted predicate. That these predicates throw on non-string input is not modelled. Nor are table entries inherited from `Object.prototype` modelled.
- Regular-expression semantics: a RegExp is an uninterpreted `test` over `String(value)` plus its printed form. `test` is a pure function, so the `lastIndex` a RegExp with the `g` or `y` flag keeps between calls is not modelled: repeated reads of the same getter always agree here, where the source's may not.
- `Number(s)` is modelled for the empty string and optionally signed decimal integers only. Surrounding whitespace, fractions, exponents, hexadecimal and `Infinity` read as `NaN`. Floating-point values and comparisons between two strings are not modelled.
- `===` treats two arrays as different objects, because array identity is not modelled. There are no plain-object values: arrays are the only objects.
- Rule parameters have their declared types. A truthy non-boolean `required`, a non-numeric `max`/`min`, and non-integer `lengths` bounds are not modelled.
- String length is counted in characters, not UTF-16 code units.
- `compare` inside `valid`: `valid` calls `Method[reg]` with two arguments (lib/index.js:156), so a `compare` key on a non-empty value throws there. `compare` is modelled only on its own with the source passed in (`LibIndex.CompareViolated`), and the rule keys `valid` reaches exclude it.
- Unknown rule keys (`patten` and `length` declared at src/index.ts:43,47, or any other) make `Method[reg]`/`regRules[reg]` undefined and throw. The closed `Check` datatypes rule them out.
- src/index.ts declares `validator` twice in one scope: the imported package (line 3) and the decorator function (line 139). The model takes `Method.type` (line 112) to read the package's predicates (`preds` in `SrcTs.TypeViolated`), and `export default validator` (line 199) to be the decorator (`SrcTs.Decorate`).
- Exceptions thrown by custom validators, transforms or rule-producing functions are not modelled: they are total functions here.
- lib/index.d.ts declares the transform as `before`, but lib/index.js reads `beforeValidate`. The model follows the code.
