/** `core\generic\Property`: a named value of a model field that is either
    uninitialised (`null`) or set, with a default, a read-only flag, the
    validation rules attached to it and the errors the last validation
    found. The abstract `cast` of each property type is a parameter. */
module Properties {
  import opened Wrappers
  import Text

  /** A validation rule: its class, the classes and interfaces it is an
      instance of besides its own, whether it accepts a value of the
      property it is attached to, and its message. The message is made
      when validation asks for it, from the name and the value of that
      property (`GreaterOrEqual` names the property, `BelongsTo` quotes
      its value). */
  datatype Rule<!V> = Rule(cls: string, ancestors: set<string>, accepts: Option<V> -> bool,
                           message: (Option<string>, Option<V>) -> string)

  /** A class name as `instanceof` resolves it: a leading `\` names the
      global namespace and is dropped. */
  function ClassName(t: string): string
  {
    if t != [] && t[0] == '\\' then t[1..] else t
  }

  /** `$rule instanceof $type`: class names are looked up without regard
      to ASCII case. */
  predicate InstanceOf<V>(r: Rule<V>, t: string)
  {
    || Text.EqualsIgnoreCase(ClassName(t), r.cls)
    || exists a :: a in r.ancestors && Text.EqualsIgnoreCase(ClassName(t), a)
  }

  /** The state of a property; `None` stands for `NOT_INITIALIZED`. */
  datatype Property<!V> = Property(
    name: Option<string>,
    title: Option<string>,
    value: Option<V>,
    defaultValue: Option<V>,
    dbDefault: Option<string>,
    readOnly: bool,
    rules: seq<Rule<V>>,
    errors: seq<string>)

  /** What a combined getter-setter returns: the field when called
      without an argument, the updated property otherwise. */
  datatype Access<T, !V> = Read(field: T) | Written(updated: Property<V>)

  /** The constructor: everything uninitialised, no rules, no errors,
      then `name(name)`. */
  function New<V>(name: Option<string>): (p: Property<V>)
    ensures p.name == name && p.value.None? && p.defaultValue.None? && !p.readOnly
    ensures p.rules == [] && p.errors == []
  {
    Property(name, None, None, None, None, false, [], [])
  }

  /*-------------------------------------------------------------------
    Value
   -------------------------------------------------------------------*/

  /** `set(value, withCast)`. */
  function Set<V>(p: Property<V>, v: Option<V>, withCast: bool, cast: Option<V> -> Option<V>): (q: Property<V>)
    ensures withCast ==> q.value == cast(v)
    ensures !withCast ==> q.value == v
    ensures q == p.(value := q.value)
  {
    p.(value := if withCast then cast(v) else v)
  }

  function Get<V>(p: Property<V>): Option<V>
  {
    p.value
  }

  /** `clear()`: back to `NOT_INITIALIZED`. */
  function Clear<V>(p: Property<V>): (q: Property<V>)
    ensures !Initialized(q)
    ensures q == p.(value := None)
  {
    p.(value := None)
  }

  /** `initialized()`: the value is not `null`. */
  predicate Initialized<V>(p: Property<V>)
  {
    p.value.Some?
  }

  /** `useAsDefault(default)`. */
  function UseAsDefault<V>(p: Property<V>, d: Option<V>): (q: Property<V>)
    ensures q.defaultValue == d
    ensures q == p.(defaultValue := d)
  {
    p.(defaultValue := d)
  }

  /** `applyDefault()`: an uninitialised property takes its default, if it
      has one; the resulting value is returned. */
  function ApplyDefault<V>(p: Property<V>): (r: (Property<V>, Option<V>))
    ensures r.1 == r.0.value
    ensures !Initialized(p) && p.defaultValue.Some? ==> r.0 == p.(value := p.defaultValue)
    ensures Initialized(p) || p.defaultValue.None? ==> r.0 == p
  {
    var q := if !Initialized(p) && p.defaultValue.Some? then p.(value := p.defaultValue) else p;
    (q, Get(q))
  }

  /*-------------------------------------------------------------------
    Getter-setters
   -------------------------------------------------------------------*/

  /** `name(name)`: a getter for `null`, a setter otherwise. */
  function Name<V>(p: Property<V>, arg: Option<string>): (r: Access<Option<string>, V>)
    ensures arg.None? ==> r == Read(p.name)
    ensures arg.Some? ==> r == Written(p.(name := arg))
  {
    match arg
    case None => Read(p.name)
    case Some(_) => Written(p.(name := arg))
  }

  /** `title(title)`: a getter for `null`, a setter otherwise. */
  function Title<V>(p: Property<V>, arg: Option<string>): (r: Access<Option<string>, V>)
    ensures arg.None? ==> r == Read(p.title)
    ensures arg.Some? ==> r == Written(p.(title := arg))
  {
    match arg
    case None => Read(p.title)
    case Some(_) => Written(p.(title := arg))
  }

  /** `dbDefault(dbDefault)`: a getter for `null`, otherwise a setter that
      stores the argument's string form `strval(arg)`. */
  function DbDefault<V, A>(p: Property<V>, arg: Option<A>, strval: A -> string): (r: Access<Option<string>, V>)
    ensures arg.None? ==> r == Read(p.dbDefault)
    ensures arg.Some? ==> r == Written(p.(dbDefault := Some(strval(arg.value))))
  {
    match arg
    case None => Read(p.dbDefault)
    case Some(a) => Written(p.(dbDefault := Some(strval(a))))
  }

  /** `readOnly(flag)`. */
  function SetReadOnly<V>(p: Property<V>, flag: bool): (q: Property<V>)
    ensures q == p.(readOnly := flag)
  {
    p.(readOnly := flag)
  }

  /** `isReadOnly()`. */
  predicate IsReadOnly<V>(p: Property<V>)
  {
    p.readOnly
  }

  /*-------------------------------------------------------------------
    Rules
   -------------------------------------------------------------------*/

  /** The position of the first rule that is an instance of `t`. */
  function FirstInstance<V>(rules: seq<Rule<V>>, t: string): (r: Option<nat>)
    ensures r.Some? ==> r.value < |rules| && InstanceOf(rules[r.value], t)
    ensures r.Some? ==> forall j :: 0 <= j < r.value ==> !InstanceOf(rules[j], t)
    ensures r.None? <==> forall j :: 0 <= j < |rules| ==> !InstanceOf(rules[j], t)
  {
    if rules == [] then None
    else if InstanceOf(rules[0], t) then Some(0)
    else match FirstInstance(rules[1..], t)
      case None => None
      case Some(k) => Some(k + 1)
  }

  /** `hasRule(type)`: the first attached rule that is an instance of
      `type`, or nothing (`false`). */
  function HasRule<V>(p: Property<V>, t: string): (r: Option<Rule<V>>)
    ensures r.None? <==> forall j :: 0 <= j < |p.rules| ==> !InstanceOf(p.rules[j], t)
    ensures r.Some? ==> exists k :: 0 <= k < |p.rules| && r.value == p.rules[k] && InstanceOf(p.rules[k], t)
                          && forall j :: 0 <= j < k ==> !InstanceOf(p.rules[j], t)
  {
    match FirstInstance(p.rules, t)
    case None => None
    case Some(k) => Some(p.rules[k])
  }

  /** The text PHP makes of a possibly-`null` name in a concatenation. */
  function NameText(name: Option<string>): string
  {
    match name
    case None => ""
    case Some(n) => n
  }

  /** `rule(rule)`: refused, without a code, when an attached rule is
      already an instance of the new rule's class; appended otherwise. */
  function AddRule<V>(p: Property<V>, rule: Rule<V>): (r: Result<Property<V>>)
    ensures r.Err? <==> exists k :: 0 <= k < |p.rules| && InstanceOf(p.rules[k], "\\" + rule.cls)
    ensures r.Err? ==> r.error == Failure(0, "Rule \\" + rule.cls + " already assigned to property " + NameText(p.name))
    ensures r.Ok? ==> r.value == p.(rules := p.rules + [rule])
  {
    if HasRule(p, "\\" + rule.cls).Some? then
      Err(Failure(0, "Rule \\" + rule.cls + " already assigned to property " + NameText(p.name)))
    else
      Ok(p.(rules := p.rules + [rule]))
  }

  /*-------------------------------------------------------------------
    Validation
   -------------------------------------------------------------------*/

  /** `addError(message)`. */
  function AddError<V>(p: Property<V>, message: string): (q: Property<V>)
    ensures q.errors == p.errors + [message]
    ensures q == p.(errors := q.errors)
  {
    p.(errors := p.errors + [message])
  }

  function GetErrors<V>(p: Property<V>): seq<string>
  {
    p.errors
  }

  /** The messages of the rules that reject `v`, in rule order, each made
      for a property named `name` holding `v`. */
  function FailingMessages<V>(rules: seq<Rule<V>>, name: Option<string>, v: Option<V>): (ms: seq<string>)
    ensures |ms| <= |rules|
    ensures ms == [] <==> forall k :: 0 <= k < |rules| ==> rules[k].accepts(v)
  {
    if rules == [] then []
    else (if rules[0].accepts(v) then [] else [rules[0].message(name, v)]) + FailingMessages(rules[1..], name, v)
  }

  /** `applyRule(rule)`: whether the rule accepts the current value; a
      rejection is recorded as an error. */
  function ApplyRule<V>(p: Property<V>, rule: Rule<V>): (r: (bool, Property<V>))
    ensures r.0 == rule.accepts(p.value)
    ensures r.0 ==> r.1 == p
    ensures !r.0 ==> r.1 == AddError(p, rule.message(p.name, p.value))
  {
    if !rule.accepts(p.value) then (false, AddError(p, rule.message(p.name, p.value))) else (true, p)
  }

  /** `isValid()`: the errors are emptied, then every rule is applied, none
      skipped after a failure. */
  method IsValid<V>(p: Property<V>) returns (valid: bool, q: Property<V>)
    ensures valid <==> forall k :: 0 <= k < |p.rules| ==> p.rules[k].accepts(p.value)
    ensures q == p.(errors := FailingMessages(p.rules, p.name, p.value))
    ensures valid <==> GetErrors(q) == []
  {
    valid := true;
    q := p.(errors := []);
    var i := 0;
    while i < |p.rules|
      invariant 0 <= i <= |p.rules|
      invariant q == p.(errors := FailingMessages(p.rules[..i], p.name, p.value))
      invariant valid <==> FailingMessages(p.rules[..i], p.name, p.value) == []
    {
      ApplyRuleStep(p, i, q);
      var applied := ApplyRule(q, p.rules[i]);
      valid := valid && applied.0;
      q := applied.1;
      i := i + 1;
    }
    assert p.rules[..i] == p.rules;
  }

  /** One turn of the validation loop: applying the next rule extends the
      recorded errors to the rules so far, and they stay empty exactly
      when they were and the rule accepts. */
  lemma ApplyRuleStep<V>(p: Property<V>, i: nat, q: Property<V>)
    requires i < |p.rules| && q == p.(errors := FailingMessages(p.rules[..i], p.name, p.value))
    ensures ApplyRule(q, p.rules[i]).1 == p.(errors := FailingMessages(p.rules[..i + 1], p.name, p.value))
    ensures FailingMessages(p.rules[..i + 1], p.name, p.value) == [] <==>
              FailingMessages(p.rules[..i], p.name, p.value) == [] && ApplyRule(q, p.rules[i]).0
  {
    assert p.rules[..i + 1] == p.rules[..i] + [p.rules[i]];
    FailingMessagesSnoc(p.rules[..i], p.rules[i], p.name, p.value);
  }

  /*-------------------------------------------------------------------
    Lemmas
   -------------------------------------------------------------------*/

  lemma {:induction false} FailingMessagesSnoc<V>(rules: seq<Rule<V>>, rule: Rule<V>, name: Option<string>, v: Option<V>)
    ensures FailingMessages(rules + [rule], name, v)
         == FailingMessages(rules, name, v) + (if rule.accepts(v) then [] else [rule.message(name, v)])
  {
    var last: seq<string> := if rule.accepts(v) then [] else [rule.message(name, v)];
    if rules == [] {
      assert [] + [rule] == [rule];
    } else {
      var first: seq<string> := if rules[0].accepts(v) then [] else [rules[0].message(name, v)];
      var xs := rules + [rule];
      assert xs[0] == rules[0] && xs[1..] == rules[1..] + [rule];
      FailingMessagesSnoc(rules[1..], rule, name, v);
      AppendAssoc(first, FailingMessages(rules[1..], name, v), last);
    }
  }

  lemma AppendAssoc<T>(a: seq<T>, b: seq<T>, c: seq<T>)
    ensures a + (b + c) == (a + b) + c
  {
  }

  /** `get` after `set` returns what was stored. */
  lemma SetThenGet<V>(p: Property<V>, v: Option<V>, cast: Option<V> -> Option<V>)
    ensures Get(Set(p, v, false, cast)) == v
    ensures Get(Set(p, v, true, cast)) == cast(v)
  {
  }

  /** A property set to a value without casting is initialised; cleared,
      it is not, whatever it held. */
  lemma InitializedIffSet<V>(p: Property<V>, x: V, cast: Option<V> -> Option<V>)
    ensures Initialized(Set(p, Some(x), false, cast))
    ensures !Initialized(Clear(Set(p, Some(x), false, cast)))
  {
  }

  /** Applying the default twice is applying it once. */
  lemma ApplyDefaultIdempotent<V>(p: Property<V>)
    ensures ApplyDefault(ApplyDefault(p).0) == ApplyDefault(p)
  {
  }

  /** An initialised property keeps its value through `applyDefault`. */
  lemma ApplyDefaultKeepsValue<V>(p: Property<V>, d: Option<V>)
    requires Initialized(p)
    ensures ApplyDefault(UseAsDefault(p, d)).1 == p.value
  {
  }

  /** A property cleared after `useAsDefault(d)` with a non-null `d`
      comes back as `d`. */
  lemma ClearedTakesDefault<V>(p: Property<V>, d: V)
    ensures ApplyDefault(Clear(UseAsDefault(p, Some(d)))).1 == Some(d)
  {
  }

  /** The getter after the setter returns what was set, for each of the
      three getter-setters. */
  lemma AccessorsRoundTrip<V, A>(p: Property<V>, n: string, t: string, a: A, strval: A -> string)
    ensures Name(Name(p, Some(n)).updated, None) == Read(Some(n))
    ensures Title(Title(p, Some(t)).updated, None) == Read(Some(t))
    ensures DbDefault(DbDefault(p, Some(a), strval).updated, None, strval) == Read(Some(strval(a)))
  {
  }

  /** `isReadOnly()` after `readOnly(flag)` is `flag`. */
  lemma ReadOnlyRoundTrip<V>(p: Property<V>, flag: bool)
    ensures IsReadOnly(SetReadOnly(p, flag)) == flag
  {
  }

  /** No attached rule is an instance of a later rule's class: what
      `rule()` keeps true of the rule list. */
  ghost predicate NoCoveredRules<V>(rules: seq<Rule<V>>)
  {
    forall i, j :: 0 <= i < j < |rules| ==> !InstanceOf(rules[i], "\\" + rules[j].cls)
  }

  /** Adding a rule keeps the list free of covered rules. */
  lemma AddRuleKeepsRules<V>(p: Property<V>, rule: Rule<V>)
    requires NoCoveredRules(p.rules)
    requires AddRule(p, rule).Ok?
    ensures NoCoveredRules(AddRule(p, rule).value.rules)
  {
    var rs := p.rules + [rule];
    forall i, j | 0 <= i < j < |rs|
      ensures !InstanceOf(rs[i], "\\" + rs[j].cls)
    {
      if j < |p.rules| {
        assert rs[i] == p.rules[i] && rs[j] == p.rules[j];
      } else {
        assert rs[j] == rule && rs[i] == p.rules[i];
      }
    }
  }

  /** The order matters: a rule whose class extends the class of an
      attached rule is still accepted, and then covers that earlier rule. */
  lemma SubclassAfterBaseKept<V>(p: Property<V>, base: Rule<V>, derived: Rule<V>)
    requires p.rules == [base]
    requires base.cls in derived.ancestors
    requires !InstanceOf(base, "\\" + derived.cls)
    ensures AddRule(p, derived).Ok?
    ensures InstanceOf(derived, "\\" + base.cls)
  {
    assert ClassName("\\" + base.cls) == base.cls;
    assert Text.EqualsIgnoreCase(base.cls, base.cls);
  }

  /** `get_class` names carry no leading `\`, which `rule()` prefixes
      and `instanceof` drops again. */
  lemma QualifiedClassName(c: string)
    ensures ClassName("\\" + c) == c
  {
  }

  /** `hasRule` finds a rule by its class spelled in any case: in any
      namespace `ns` (such as `core\rules\`), `\ns\greaterorequal`
      finds a `GreaterOrEqual` rule. */
  lemma HasRuleIgnoresCase<V>(p: Property<V>, r: Rule<V>, ns: string)
    requires p.rules == [r] && r.cls == ns + "GreaterOrEqual"
    ensures HasRule(p, "\\" + ns + "greaterorequal") == Some(r)
  {
    var t := "\\" + ns + "greaterorequal";
    assert ClassName(t) == ns + "greaterorequal";
    SpellingFolds(ns);
    Text.EqualsIgnoreCaseConcat(ns, "greaterorequal", ns, "GreaterOrEqual");
    assert InstanceOf(p.rules[0], t);
  }

  lemma SpellingFolds(ns: string)
    ensures Text.EqualsIgnoreCase(ns, ns)
    ensures Text.EqualsIgnoreCase("greaterorequal", "GreaterOrEqual")
  {
  }

  /** Every rule is an instance of its own class, so a list built by
      `rule()` never holds two rules of one class, even spelled in
      different case. */
  lemma DistinctRuleClasses<V>(rules: seq<Rule<V>>)
    requires NoCoveredRules(rules)
    ensures forall i, j :: 0 <= i < j < |rules| ==> !Text.EqualsIgnoreCase(rules[j].cls, rules[i].cls)
    ensures forall i, j :: 0 <= i < j < |rules| ==> rules[i].cls != rules[j].cls
  {
    forall i, j | 0 <= i < j < |rules|
      ensures !Text.EqualsIgnoreCase(rules[j].cls, rules[i].cls) && rules[i].cls != rules[j].cls
    {
      QualifiedClassName(rules[j].cls);
      assert !InstanceOf(rules[i], "\\" + rules[j].cls);
    }
  }
}
