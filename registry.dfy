/** The per-class registry of validated fields and the two aggregate views
    built on it, `validateError` (the first failing field) and `isValid`.
    Getters are recomputed on every read; the memoisation a reactive
    runtime adds does not change what they return. */
module Registry {
  import opened Js

  /** A validation getter: reads the instance and yields its current error (falsy when none). */
  type Getter = Source -> Value

  /** `this[key]` on an instance: a validation getter on the prototype chain
      if there is one for `key`, otherwise the instance's own field. */
  function ErrorOf(view: map<string, Getter>, inst: Source, key: string): Value
  {
    if key in view then view[key](inst) else Get(inst, key)
  }

  /** `keys.find(key => this[key])`: the first key whose current error is truthy. */
  function FirstFailing(keys: seq<string>, view: map<string, Getter>, inst: Source): (r: Option<string>)
    ensures r.None? <==> forall i :: 0 <= i < |keys| ==> !Truthy(ErrorOf(view, inst, keys[i]))
    ensures r.Some? ==>
      exists i :: 0 <= i < |keys| && keys[i] == r.value && Truthy(ErrorOf(view, inst, keys[i])) &&
        forall j :: 0 <= j < i ==> !Truthy(ErrorOf(view, inst, keys[j]))
  {
    if |keys| == 0 then None
    else if Truthy(ErrorOf(view, inst, keys[0])) then Some(keys[0])
    else
      var r := FirstFailing(keys[1..], view, inst);
      assert forall i :: 1 <= i < |keys| ==> keys[i] == keys[1..][i - 1];
      r
  }

  /** `!this.validateError`: no key found, or the key found is the empty string. */
  predicate IsValidResult(r: Option<string>)
  {
    r.None? || r.value == ""
  }

  /** With non-empty keys (every registered key is `validateError<Name>`),
      the entity is valid exactly when no registered field reports an error. */
  lemma IsValidIffNoFieldFails(keys: seq<string>, view: map<string, Getter>, inst: Source)
    ensures (forall k :: k in keys ==> k != "") ==>
      (IsValidResult(FirstFailing(keys, view, inst)) <==>
       forall i :: 0 <= i < |keys| ==> !Truthy(ErrorOf(view, inst, keys[i])))
  {
    var r := FirstFailing(keys, view, inst);
    if r.Some? && forall k :: k in keys ==> k != "" {
      var i :| 0 <= i < |keys| && keys[i] == r.value && Truthy(ErrorOf(view, inst, keys[i]));
      assert keys[i] in keys;
    }
  }

  lemma MergeUpdate(inherited: map<string, Getter>, own: map<string, Getter>, key: string, g: Getter)
    ensures (inherited + own)[key := g] == inherited + own[key := g]
  {
  }

  /** A class whose fields have been decorated: its own `__validateFields`
      (absent until the first decoration of this very class), the validation
      getters defined on its prototype, and the class it extends. */
  class EntityClass {
    var own: Option<seq<string>>
    var getters: map<string, Getter>
    const parent: EntityClass?
    ghost const depth: nat
    ghost const Ancestors: set<EntityClass>

    /** The prototype chain is finite and acyclic. */
    ghost predicate Wf()
      decreases depth
    {
      (forall a :: a in Ancestors ==> a.depth < depth) &&
      (parent == null ==> Ancestors == {}) &&
      (parent != null ==> parent in Ancestors && Ancestors == {parent} + parent.Ancestors && parent.Wf())
    }

    constructor (parent: EntityClass?)
      requires parent != null ==> parent.Wf()
      ensures Wf() && this.parent == parent
      ensures own == None && getters == map[]
    {
      this.parent := parent;
      depth := if parent == null then 0 else parent.depth + 1;
      Ancestors := if parent == null then {} else {parent} + parent.Ancestors;
      own := None;
      getters := map[];
    }

    /** `this.constructor.__validateFields`, looked up along the prototype chain. */
    function Fields(): Option<seq<string>>
      reads this, Ancestors
      requires Wf()
      decreases depth
    {
      if own.Some? then own else if parent == null then None else parent.Fields()
    }

    /** The validation getters an instance sees, a subclass's shadowing its parent's. */
    function Getters(): map<string, Getter>
      reads this, Ancestors
      requires Wf()
      decreases depth
    {
      if parent == null then getters else parent.Getters() + getters
    }

    /** `this.validateError` on an instance: `FirstFailing` over the
        registered keys and the getters the instance sees. */
    function ValidateError(inst: Source): Option<string>
      reads this, Ancestors
      requires Wf() && Fields().Some?
    {
      FirstFailing(Fields().value, Getters(), inst)
    }

    /** `this.isValid` on an instance. */
    function IsValid(inst: Source): bool
      reads this, Ancestors
      requires Wf() && Fields().Some?
    {
      IsValidResult(ValidateError(inst))
    }

    /** The registration step of the decorator: define the getter under `key`
        on the prototype, then push `key` onto this class's own
        `__validateFields`, or give the class a fresh `[key]` when it does not
        own one yet (an inherited list is shadowed, not extended). */
    method Register(key: string, g: Getter)
      requires Wf()
      modifies this
      ensures Wf()
      ensures own == Some(if old(own).Some? then old(own).value + [key] else [key])
      ensures getters == old(getters)[key := g]
      ensures Fields() == own
      ensures Getters() == old(Getters())[key := g]
    {
      ghost var inherited := if parent == null then map[] else parent.Getters();
      ghost var before := getters;
      if own.Some? {
        own := Some(own.value + [key]);
      } else {
        own := Some([key]);
      }
      getters := getters[key := g];
      assert parent != null ==> parent.Getters() == inherited;
      MergeUpdate(inherited, before, key, g);
    }
  }
}
