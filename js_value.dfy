/** Host values of the JavaScript runtime, as far as the validation rules
    look at them: truthiness, `String(v)`, `Number(v)`, the `>`/`<`
    comparison against a numeric rule parameter, `.length` and `===`. */
module Js {

  datatype Option<+T> = None | Some(value: T)

  /** How a call into the host ends: with a value, or with a thrown error. */
  datatype Completion<+T> = Normal(value: T) | Throw

  /** A field value. Objects other than arrays are not distinguished. */
  datatype Value =
    | Undefined
    | Null
    | Bool(b: bool)
    | Int(i: int)
    | Str(s: string)
    | List(items: seq<Value>)

  /** An entity instance seen as its own enumerable fields. */
  type Source = map<string, Value>

  /** `source[key]`: a missing property reads as `undefined`. */
  function Get(source: Source, key: string): (v: Value)
    ensures key !in source ==> v == Undefined
    ensures key in source ==> v == source[key]
  {
    if key in source then source[key] else Undefined
  }

  /** JavaScript truthiness: `undefined`, `null`, `false`, `0` and `''` are falsy. */
  predicate Truthy(v: Value)
  {
    match v
    case Undefined => false
    case Null => false
    case Bool(b) => b
    case Int(i) => i != 0
    case Str(s) => s != ""
    case List(_) => true
  }

  /** A `pattern` parameter: a RegExp (its printed form and its `test`,
      which is applied to `String(value)`), or any value without a `test`. */
  datatype Matcher =
    | Regex(shown: string, test: string -> bool)
    | NotRegex(shown: string)

  /** A table of type predicates keyed by name (the `validator` package, or a `Types` table). */
  type Predicates = map<string, Value -> bool>

  /** A caller-supplied validator `(fieldName, value, source) => result`. */
  type Custom = (string, Value, Source) -> Value

  // ---------------------------------------------------------------------
  // Decimal rendering and parsing of integers

  function DigitChar(d: nat): (c: char)
    requires d < 10
    ensures '0' <= c <= '9' && (c as int) - ('0' as int) == d
  {
    "0123456789"[d]
  }

  predicate IsDigits(s: string)
  {
    |s| > 0 && forall i :: 0 <= i < |s| ==> '0' <= s[i] <= '9'
  }

  /** The number a string of decimal digits denotes. */
  function DigitsValue(s: string): nat
    requires forall i :: 0 <= i < |s| ==> '0' <= s[i] <= '9'
  {
    if |s| == 0 then 0
    else DigitsValue(s[..|s| - 1]) * 10 + ((s[|s| - 1] as int) - ('0' as int))
  }

  function NatToString(n: nat): (s: string)
    ensures IsDigits(s)
    decreases n
  {
    if n < 10 then [DigitChar(n)] else NatToString(n / 10) + [DigitChar(n % 10)]
  }

  /** `String(n)` for an integer `n`. */
  function IntToString(n: int): (s: string)
    ensures |s| > 0
  {
    if n < 0 then "-" + NatToString(-n) else NatToString(n)
  }

  /** `Number(s)` restricted to integer literals; `None` stands for `NaN`. */
  function StringToNumber(s: string): Option<int>
  {
    if s == "" then Some(0)
    else if IsDigits(s) then Some(DigitsValue(s))
    else if s[0] == '-' && IsDigits(s[1..]) then Some(0 - DigitsValue(s[1..]) as int)
    else if s[0] == '+' && IsDigits(s[1..]) then Some(DigitsValue(s[1..]))
    else None
  }

  lemma {:induction false} NatToStringValue(n: nat)
    ensures DigitsValue(NatToString(n)) == n
    decreases n
  {
    if n >= 10 {
      NatToStringValue(n / 10);
      var s := NatToString(n);
      assert s[..|s| - 1] == NatToString(n / 10);
    }
  }

  lemma NegativeLiteral(d: string)
    requires IsDigits(d)
    ensures StringToNumber("-" + d) == Some(0 - DigitsValue(d) as int)
  {
    var s := "-" + d;
    assert s[0] == '-' && s[1..] == d;
  }

  /** Printing an integer and reading it back as a number gives the integer. */
  lemma IntToStringRoundTrip(n: int)
    ensures StringToNumber(IntToString(n)) == Some(n)
  {
    if n < 0 {
      NatToStringValue(-n);
      NegativeLiteral(NatToString(-n));
    } else {
      NatToStringValue(n);
    }
  }

  // ---------------------------------------------------------------------
  // Conversions

  /** `String(v)`; an array prints as its elements joined with ",",
      with `null` and `undefined` elements printed as "". */
  function ToStr(v: Value): string
    decreases v, if v.List? then |v.items| + 1 else 0
  {
    match v
    case Undefined => "undefined"
    case Null => "null"
    case Bool(b) => if b then "true" else "false"
    case Int(i) => IntToString(i)
    case Str(s) => s
    case List(items) => JoinFrom(v, 0)
  }

  function JoinFrom(v: Value, k: nat): string
    requires v.List? && k <= |v.items|
    decreases v, |v.items| - k
  {
    if k == |v.items| then ""
    else
      var x := v.items[k];
      var head := if x.Undefined? || x.Null? then "" else ToStr(x);
      if k + 1 == |v.items| then head else head + "," + JoinFrom(v, k + 1)
  }

  /** `Number(v)`; `None` stands for `NaN`. An array converts through its string form. */
  function ToNumber(v: Value): Option<int>
  {
    match v
    case Undefined => None
    case Null => Some(0)
    case Bool(b) => Some(if b then 1 else 0)
    case Int(i) => Some(i)
    case Str(s) => StringToNumber(s)
    case List(_) => StringToNumber(ToStr(v))
  }

  /** `v > p` for a numeric `p`: false whenever `v` converts to `NaN`. */
  predicate GreaterThan(v: Value, p: int)
  {
    ToNumber(v).Some? && ToNumber(v).value > p
  }

  /** `v < p` for a numeric `p`: false whenever `v` converts to `NaN`. */
  predicate LessThan(v: Value, p: int)
  {
    ToNumber(v).Some? && ToNumber(v).value < p
  }

  /** `v.length`: defined for strings and arrays only. */
  function LengthOf(v: Value): Option<nat>
  {
    match v
    case Str(s) => Some(|s|)
    case List(items) => Some(|items|)
    case _ => None
  }

  /** `a === b`. Two arrays are taken to be different objects. */
  predicate StrictEquals(a: Value, b: Value)
  {
    !a.List? && !b.List? && a == b
  }
}
