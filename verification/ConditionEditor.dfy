/**
 The conditionals form of web/js/experiment/editor.js and web/js/experiment/conditionals/input.js.
 While the form is edited, parameters refer to conditionals and their values by edit key; on
 submission the keys are compiled to names. An edit key is fresh whenever it is drawn.
 */
module ConditionEditor {
  import opened Sequences
  import Ui = ExperimentUi
  import Server = Conditionals

  type Key = nat

  datatype Value = Value(editKey: Key, name: string)

  datatype Conditional = Conditional(editKey: Key, name: string, values: seq<Value>)

  /** One entry of a parameter's `conditions` object; entries keep the order they were added in. */
  datatype Condition = Condition(key: Key, values: seq<Key>)

  datatype Parameter = Parameter(editKey: Key, name: string, conditions: seq<Condition>)

  datatype Form = Form(conditionals: seq<Conditional>, parameters: seq<Parameter>, nextKey: Key)

  datatype Edit =
    | AddConditional
    | RemoveConditional(key: Key)
    | RenameConditional(key: Key, name: string)
    | AddValue(key: Key)
    | RemoveValue(key: Key, value: Key)
    | RenameValue(key: Key, value: Key, name: string)
    | AddCondition(key: Key, value: Key, parameter: Key)
    | RemoveCondition(key: Key, value: Key, parameter: Key)
    | AddParameter
    | RemoveParameter(parameter: Key)
    | RenameParameter(parameter: Key, name: string)

  // ---------- Collection helpers ----------

  function Map<A, B>(f: A -> B, s: seq<A>): seq<B> {
    seq(|s|, i requires 0 <= i < |s| => f(s[i]))
  }

  function Filter<A(!new)>(keep: A -> bool, s: seq<A>): (kept: seq<A>)
    ensures forall a :: a in kept <==> a in s && keep(a)
    ensures |kept| <= |s|
  {
    if s == [] then []
    else
      var rest := Filter(keep, s[..|s| - 1]);
      assert s == s[..|s| - 1] + [s[|s| - 1]];
      if keep(s[|s| - 1]) then rest + [s[|s| - 1]] else rest
  }

  function ValueKeys(c: Conditional): seq<Key> {
    Map((v: Value) => v.editKey, c.values)
  }

  function Find(conditionals: seq<Conditional>, key: Key): Option<Conditional> {
    if conditionals == [] then None
    else if conditionals[0].editKey == key then Some(conditionals[0])
    else Find(conditionals[1..], key)
  }

  predicate HasConditionFor(conditions: seq<Condition>, key: Key) {
    exists i :: 0 <= i < |conditions| && conditions[i].key == key
  }

  // ---------- Handlers ----------

  function Renamed(name: string): Conditional -> Conditional {
    (c: Conditional) => c.(name := name)
  }

  function WithValue(value: Value): Conditional -> Conditional {
    (c: Conditional) => c.(values := c.values + [value])
  }

  function IsNotValue(value: Key): Value -> bool {
    (v: Value) => v.editKey != value
  }

  function WithoutValue(value: Key): Conditional -> Conditional {
    (c: Conditional) => c.(values := Filter(IsNotValue(value), c.values))
  }

  function WithValueRenamed(value: Key, name: string): Conditional -> Conditional {
    (c: Conditional) => c.(values := Map((v: Value) => if v.editKey == value then v.(name := name) else v, c.values))
  }

  function IsNotConditional(key: Key): Conditional -> bool {
    (c: Conditional) => c.editKey != key
  }

  function IsNotOn(key: Key): Condition -> bool {
    (d: Condition) => d.key != key
  }

  /** `onChangeConditional`: values that disappear from the conditional disappear from every condition. */
  function ChangeConditional(form: Form, key: Key, updater: Conditional -> Conditional): Form
    requires Find(form.conditionals, key).Some?
  {
    var previous := Find(form.conditionals, key).value;
    var removed := Filter((v: Key) => v !in ValueKeys(updater(previous)), ValueKeys(previous));
    form.(
      conditionals := Map((c: Conditional) => if c.editKey == key then updater(previous) else c, form.conditionals),
      parameters := Map((p: Parameter) =>
        p.(conditions := Map((d: Condition) => WithoutValues(d, removed), p.conditions)), form.parameters))
  }

  function WithoutValues(d: Condition, removed: seq<Key>): Condition {
    d.(values := Filter((v: Key) => v !in removed, d.values))
  }

  /** `onRemoveConditional`: its conditions go with it. */
  function DropConditional(form: Form, key: Key): Form {
    form.(
      conditionals := Filter(IsNotConditional(key), form.conditionals),
      parameters := Map((p: Parameter) => p.(conditions := Filter(IsNotOn(key), p.conditions)), form.parameters))
  }

  function SetParameter(form: Form, parameter: Key, updater: Parameter -> Parameter): Form {
    form.(parameters := Map((p: Parameter) => if p.editKey == parameter then updater(p) else p, form.parameters))
  }

  /** `onAddCondition`: the value goes last in an existing condition, or starts a new one. */
  function WithCondition(conditions: seq<Condition>, key: Key, value: Key): seq<Condition> {
    if HasConditionFor(conditions, key) then
      Map((d: Condition) => if d.key == key
        then d.(values := Filter((v: Key) => v != value, d.values) + [value]) else d, conditions)
    else
      conditions + [Condition(key, [value])]
  }

  /** `onRemoveCondition`: a condition that loses its last value is dropped. */
  function WithoutCondition(conditions: seq<Condition>, key: Key, value: Key): seq<Condition> {
    Filter((d: Condition) => d.key != key || d.values != [],
           Map((d: Condition) => if d.key == key
             then d.(values := Filter((v: Key) => v != value, d.values)) else d, conditions))
  }

  /** The rendered form only offers edits of conditionals, values and parameters that it shows. */
  predicate Offered(form: Form, edit: Edit) {
    match edit
    case AddConditional => true
    case RemoveConditional(key) => Find(form.conditionals, key).Some?
    case RenameConditional(key, _) => Find(form.conditionals, key).Some?
    case AddValue(key) => Find(form.conditionals, key).Some?
    case RemoveValue(key, _) => Find(form.conditionals, key).Some?
    case RenameValue(key, _, _) => Find(form.conditionals, key).Some?
    case AddCondition(key, value, _) => Find(form.conditionals, key).Some?
      && value in ValueKeys(Find(form.conditionals, key).value)
    case RemoveCondition(_, _, _) => true
    case AddParameter => true
    case RemoveParameter(_) => true
    case RenameParameter(_, _) => true
  }

  function Apply(form: Form, edit: Edit): Form
    requires Offered(form, edit)
  {
    match edit
    case AddConditional =>
      form.(conditionals := form.conditionals + [Conditional(form.nextKey + 1, "", [Value(form.nextKey, "")])],
        nextKey := form.nextKey + 2)
    case RemoveConditional(key) => DropConditional(form, key)
    case RenameConditional(key, name) => ChangeConditional(form, key, Renamed(name))
    case AddValue(key) => ChangeConditional(form, key, WithValue(Value(form.nextKey, ""))).(nextKey := form.nextKey + 1)
    case RemoveValue(key, value) => ChangeConditional(form, key, WithoutValue(value))
    case RenameValue(key, value, name) => ChangeConditional(form, key, WithValueRenamed(value, name))
    case AddCondition(key, value, parameter) =>
      SetParameter(form, parameter, (p: Parameter) => p.(conditions := WithCondition(p.conditions, key, value)))
    case RemoveCondition(key, value, parameter) =>
      SetParameter(form, parameter, (p: Parameter) => p.(conditions := WithoutCondition(p.conditions, key, value)))
    case AddParameter =>
      form.(parameters := form.parameters + [Parameter(form.nextKey, "", [])], nextKey := form.nextKey + 1)
    case RemoveParameter(parameter) =>
      form.(parameters := Filter((p: Parameter) => p.editKey != parameter, form.parameters))
    case RenameParameter(parameter, name) => SetParameter(form, parameter, (p: Parameter) => p.(name := name))
  }

  predicate IsSession(form: Form, edits: seq<Edit>)
    decreases |edits|
  {
    edits == [] || (Offered(form, edits[0]) && IsSession(Apply(form, edits[0]), edits[1..]))
  }

  function Session(form: Form, edits: seq<Edit>): Form
    requires IsSession(form, edits)
    decreases |edits|
  {
    if edits == [] then form else Session(Apply(form, edits[0]), edits[1..])
  }

  /** A new experiment: no conditionals, and one unconditional parameter. */
  const NEW_FORM := Form([], [Parameter(0, "", [])], 1)

  // ---------- References stay valid ----------

  predicate DistinctKeys(conditionals: seq<Conditional>) {
    forall i, j :: 0 <= i < j < |conditionals| ==> conditionals[i].editKey != conditionals[j].editKey
  }

  predicate DistinctValueKeys(c: Conditional) {
    forall i, j :: 0 <= i < j < |c.values| ==> c.values[i].editKey != c.values[j].editKey
  }

  predicate ConditionKeysDistinct(conditions: seq<Condition>) {
    forall i, j :: 0 <= i < j < |conditions| ==> conditions[i].key != conditions[j].key
  }

  /** The condition is on an existing conditional and accepts only values of it. */
  predicate Refers(conditionals: seq<Conditional>, d: Condition) {
    && Find(conditionals, d.key).Some?
    && forall v :: v in d.values ==> v in ValueKeys(Find(conditionals, d.key).value)
  }

  predicate ParameterRefers(conditionals: seq<Conditional>, p: Parameter) {
    ConditionKeysDistinct(p.conditions) && forall d :: d in p.conditions ==> Refers(conditionals, d)
  }

  predicate KeysDrawn(form: Form) {
    forall c :: c in form.conditionals ==> c.editKey < form.nextKey && DistinctValueKeys(c)
                                           && forall v :: v in c.values ==> v.editKey < form.nextKey
  }

  predicate FormInv(form: Form) {
    && DistinctKeys(form.conditionals)
    && KeysDrawn(form)
    && forall p :: p in form.parameters ==> ParameterRefers(form.conditionals, p)
  }

  predicate DistinctBy<A(!new)>(keyOf: A -> Key, s: seq<A>) {
    forall i, j {:trigger s[i], s[j]} :: 0 <= i < j < |s| ==> keyOf(s[i]) != keyOf(s[j])
  }

  lemma {:induction false} FilterKeepsDistinct<A(!new)>(keyOf: A -> Key, keep: A -> bool, s: seq<A>)
    requires DistinctBy(keyOf, s)
    ensures DistinctBy(keyOf, Filter(keep, s))
  {
    if s != [] {
      var init, last := s[..|s| - 1], s[|s| - 1];
      FilterKeepsDistinct(keyOf, keep, init);
      var rest := Filter(keep, init);
      forall i | 0 <= i < |rest| ensures keyOf(rest[i]) != keyOf(last) {
        assert rest[i] in init;
        var k :| 0 <= k < |init| && init[k] == rest[i];
        assert s[k] == rest[i];
      }
    }
  }

  lemma KeptConditionals(keep: Conditional -> bool, conditionals: seq<Conditional>)
    requires DistinctKeys(conditionals)
    ensures DistinctKeys(Filter(keep, conditionals))
  {
    var keyOf := (c: Conditional) => c.editKey;
    var kept := Filter(keep, conditionals);
    FilterKeepsDistinct(keyOf, keep, conditionals);
    forall i, j | 0 <= i < j < |kept| ensures kept[i].editKey != kept[j].editKey {
      assert keyOf(kept[i]) != keyOf(kept[j]);
    }
  }

  lemma KeptConditions(keep: Condition -> bool, conditions: seq<Condition>)
    requires ConditionKeysDistinct(conditions)
    ensures ConditionKeysDistinct(Filter(keep, conditions))
  {
    var keyOf := (d: Condition) => d.key;
    var kept := Filter(keep, conditions);
    FilterKeepsDistinct(keyOf, keep, conditions);
    forall i, j | 0 <= i < j < |kept| ensures kept[i].key != kept[j].key {
      assert keyOf(kept[i]) != keyOf(kept[j]);
    }
  }

  lemma KeptValues(keep: Value -> bool, c: Conditional)
    requires DistinctValueKeys(c)
    ensures DistinctValueKeys(c.(values := Filter(keep, c.values)))
  {
    var keyOf := (v: Value) => v.editKey;
    var kept := Filter(keep, c.values);
    FilterKeepsDistinct(keyOf, keep, c.values);
    forall i, j | 0 <= i < j < |kept| ensures kept[i].editKey != kept[j].editKey {
      assert keyOf(kept[i]) != keyOf(kept[j]);
    }
  }

  lemma {:induction false} FindIn(conditionals: seq<Conditional>, key: Key)
    ensures match Find(conditionals, key)
            case Some(c) => c in conditionals && c.editKey == key
            case None => forall c :: c in conditionals ==> c.editKey != key
  {
    if conditionals != [] {
      FindIn(conditionals[1..], key);
      assert conditionals == [conditionals[0]] + conditionals[1..];
    }
  }

  lemma FindUnique(conditionals: seq<Conditional>, c: Conditional)
    requires DistinctKeys(conditionals) && c in conditionals
    ensures Find(conditionals, c.editKey) == Some(c)
  {
    FindIn(conditionals, c.editKey);
  }

  /** A change that keeps edit keys is found where the original was. */
  lemma {:induction false} FindMapped(f: Conditional -> Conditional, conditionals: seq<Conditional>, key: Key)
    requires forall c :: c in conditionals ==> f(c).editKey == c.editKey
    ensures Find(Map(f, conditionals), key)
         == match Find(conditionals, key) case None => None case Some(c) => Some(f(c))
  {
    if conditionals != [] {
      assert Map(f, conditionals)[1..] == Map(f, conditionals[1..]);
      FindMapped(f, conditionals[1..], key);
    }
  }

  lemma ConditionValuesDropped(
    conditionals: seq<Conditional>, key: Key, updated: Conditional, removed: seq<Key>, d: Condition)
    requires Find(conditionals, key).Some? && updated.editKey == key && Refers(conditionals, d)
    requires forall v :: v in removed <==> v in ValueKeys(Find(conditionals, key).value) && v !in ValueKeys(updated)
    ensures Refers(Map((c: Conditional) => if c.editKey == key then updated else c, conditionals),
              WithoutValues(d, removed))
  {
    FindMapped((c: Conditional) => if c.editKey == key then updated else c, conditionals, d.key);
    FindIn(conditionals, d.key);
  }

  lemma ChangeKeepsInv(form: Form, key: Key, updater: Conditional -> Conditional, nextKey: Key)
    requires FormInv(form) && Find(form.conditionals, key).Some? && form.nextKey <= nextKey
    requires var updated := updater(Find(form.conditionals, key).value);
             updated.editKey == key && DistinctValueKeys(updated) && forall v :: v in updated.values ==>
               v.editKey < nextKey
    ensures FormInv(ChangeConditional(form, key, updater).(nextKey := nextKey))
  {
    var previous := Find(form.conditionals, key).value;
    var updated := updater(previous);
    FindIn(form.conditionals, key);
    var removed := Filter((v: Key) => v !in ValueKeys(updated), ValueKeys(previous));
    var changed := ChangeConditional(form, key, updater);
    forall i | 0 <= i < |form.parameters| ensures ParameterRefers(changed.conditionals, changed.parameters[i]) {
      var p := form.parameters[i];
      assert p in form.parameters;
      forall k | 0 <= k < |p.conditions| ensures Refers(changed.conditionals, changed.parameters[i].conditions[k]) {
        assert p.conditions[k] in p.conditions;
        ConditionValuesDropped(form.conditionals, key, updated, removed, p.conditions[k]);
      }
    }
  }

  lemma DropKeepsInv(form: Form, key: Key)
    requires FormInv(form)
    ensures FormInv(DropConditional(form, key))
  {
    var dropped := DropConditional(form, key);
    KeptConditionals(IsNotConditional(key), form.conditionals);
    forall i | 0 <= i < |form.parameters| ensures ParameterRefers(dropped.conditionals, dropped.parameters[i]) {
      var p := form.parameters[i];
      assert p in form.parameters;
      KeptConditions(IsNotOn(key), p.conditions);
      forall d | d in dropped.parameters[i].conditions ensures Refers(dropped.conditionals, d) {
        FindIn(form.conditionals, d.key);
        FindUnique(dropped.conditionals, Find(form.conditionals, d.key).value);
      }
    }
  }

  lemma SetParameterKeepsInv(form: Form, parameter: Key, updater: Parameter -> Parameter)
    requires FormInv(form)
    requires forall p :: p in form.parameters ==> ParameterRefers(form.conditionals, updater(p))
    ensures FormInv(SetParameter(form, parameter, updater))
  {
    var changed := SetParameter(form, parameter, updater);
    forall i | 0 <= i < |form.parameters| ensures ParameterRefers(form.conditionals, changed.parameters[i]) {
      assert form.parameters[i] in form.parameters;
    }
  }

  lemma WithConditionRefers(conditionals: seq<Conditional>, p: Parameter, key: Key, value: Key)
    requires ParameterRefers(conditionals, p)
    requires Find(conditionals, key).Some? && value in ValueKeys(Find(conditionals, key).value)
    ensures ParameterRefers(conditionals, p.(conditions := WithCondition(p.conditions, key, value)))
  {
    var conditions := WithCondition(p.conditions, key, value);
    forall k | 0 <= k < |conditions| ensures Refers(conditionals, conditions[k]) {
      if k < |p.conditions| {
        assert p.conditions[k] in p.conditions;
      }
    }
  }

  lemma WithoutConditionRefers(conditionals: seq<Conditional>, p: Parameter, key: Key, value: Key)
    requires ParameterRefers(conditionals, p)
    ensures ParameterRefers(conditionals, p.(conditions := WithoutCondition(p.conditions, key, value)))
  {
    var f := (d: Condition) => if d.key == key then d.(values := Filter((v: Key) => v != value, d.values)) else d;
    var keep := (d: Condition) => d.key != key || d.values != [];
    var mapped := Map(f, p.conditions);
    KeptConditions(keep, mapped);
    assert WithoutCondition(p.conditions, key, value) == Filter(keep, mapped);
    forall d | d in mapped ensures Refers(conditionals, d) {
      var k :| 0 <= k < |mapped| && mapped[k] == d;
      assert p.conditions[k] in p.conditions;
    }
  }

  lemma AddConditionalKeepsInv(form: Form)
    requires FormInv(form)
    ensures FormInv(Apply(form, AddConditional))
  {
    var grown := Apply(form, AddConditional).conditionals;
    forall p, d | p in form.parameters && d in p.conditions ensures Refers(grown, d) {
      FindIn(form.conditionals, d.key);
      FindUnique(grown, Find(form.conditionals, d.key).value);
    }
  }

  lemma ChangedConditionalKeepsInv(form: Form, edit: Edit)
    requires FormInv(form) && Offered(form, edit)
    requires edit.RenameConditional? || edit.AddValue? || edit.RemoveValue? || edit.RenameValue?
    ensures FormInv(Apply(form, edit))
  {
    FindIn(form.conditionals, edit.key);
    var c := Find(form.conditionals, edit.key).value;
    forall k | 0 <= k < |c.values| ensures c.values[k].editKey < form.nextKey {
      assert c.values[k] in c.values;
    }
    match edit
    case RenameConditional(key, name) => ChangeKeepsInv(form, key, Renamed(name), form.nextKey);
    case AddValue(key) => ChangeKeepsInv(form, key, WithValue(Value(form.nextKey, "")), form.nextKey + 1);
    case RemoveValue(key, value) =>
      KeptValues(IsNotValue(value), c);
      ChangeKeepsInv(form, key, WithoutValue(value), form.nextKey);
    case RenameValue(key, value, name) => ChangeKeepsInv(form, key, WithValueRenamed(value, name), form.nextKey);
  }

  lemma ChangedParameterKeepsInv(form: Form, edit: Edit)
    requires FormInv(form) && Offered(form, edit)
    requires edit.AddCondition? || edit.RemoveCondition? || edit.RenameParameter?
    ensures FormInv(Apply(form, edit))
  {
    match edit
    case AddCondition(key, value, parameter) =>
      forall p | p in form.parameters
        ensures ParameterRefers(form.conditionals, p.(conditions := WithCondition(p.conditions, key, value))) {
        WithConditionRefers(form.conditionals, p, key, value);
      }
      SetParameterKeepsInv(form, parameter, (p: Parameter) =>
        p.(conditions := WithCondition(p.conditions, key, value)));
    case RemoveCondition(key, value, parameter) =>
      forall p | p in form.parameters
        ensures ParameterRefers(form.conditionals, p.(conditions := WithoutCondition(p.conditions, key, value))) {
        WithoutConditionRefers(form.conditionals, p, key, value);
      }
      SetParameterKeepsInv(form, parameter, (p: Parameter) =>
        p.(conditions := WithoutCondition(p.conditions, key, value)));
    case RenameParameter(parameter, name) =>
      SetParameterKeepsInv(form, parameter, (p: Parameter) => p.(name := name));
  }

  lemma ApplyKeepsInv(form: Form, edit: Edit)
    requires FormInv(form) && Offered(form, edit)
    ensures FormInv(Apply(form, edit))
  {
    match edit
    case AddConditional => AddConditionalKeepsInv(form);
    case RemoveConditional(key) => DropKeepsInv(form, key);
    case RenameConditional(_, _) => ChangedConditionalKeepsInv(form, edit);
    case AddValue(_) => ChangedConditionalKeepsInv(form, edit);
    case RemoveValue(_, _) => ChangedConditionalKeepsInv(form, edit);
    case RenameValue(_, _, _) => ChangedConditionalKeepsInv(form, edit);
    case AddCondition(_, _, _) => ChangedParameterKeepsInv(form, edit);
    case RemoveCondition(_, _, _) => ChangedParameterKeepsInv(form, edit);
    case AddParameter =>
    case RemoveParameter(_) =>
    case RenameParameter(_, _) => ChangedParameterKeepsInv(form, edit);
  }

  /** Over every editing session, each condition is on an existing conditional and accepts only values it still has. */
  lemma {:induction false} SessionKeepsInv(form: Form, edits: seq<Edit>)
    requires FormInv(form) && IsSession(form, edits)
    ensures FormInv(Session(form, edits))
    decreases |edits|
  {
    if edits != [] {
      ApplyKeepsInv(form, edits[0]);
      SessionKeepsInv(Apply(form, edits[0]), edits[1..]);
    }
  }

  // ---------- Submission: keys become names ----------

  /** However a new experiment was edited, submitting it finds the conditional of every condition. */
  lemma SessionSubmits(edits: seq<Edit>, p: Parameter)
    requires IsSession(NEW_FORM, edits) && p in Session(NEW_FORM, edits).parameters
    ensures Translatable(Session(NEW_FORM, edits).conditionals, p.conditions)
  {
    SessionKeepsInv(NEW_FORM, edits);
  }

  /** The names of the accepted values, in the conditional's order. */
  function AcceptedNames(c: Conditional, valueKeys: seq<Key>): seq<string> {
    Map((v: Value) => v.name, Filter((v: Value) => v.editKey in valueKeys, c.values))
  }

  predicate Translatable(conditionals: seq<Conditional>, conditions: seq<Condition>) {
    forall d :: d in conditions ==> Find(conditionals, d.key).Some?
  }

  /** The `newConditions` object that submission builds; it dereferences the conditional of every condition. */
  function Translate(conditionals: seq<Conditional>, conditions: seq<Condition>): map<string, seq<string>>
    requires Translatable(conditionals, conditions)
  {
    if conditions == [] then map[]
    else
      var d := conditions[|conditions| - 1];
      var c := Find(conditionals, d.key).value;
      Translate(conditionals, conditions[..|conditions| - 1])[c.name := AcceptedNames(c, d.values)]
  }

  function Named(conditionals: seq<Conditional>): seq<Ui.Conditional> {
    Map((c: Conditional) => Ui.Conditional(c.name, Map((v: Value) => v.name, c.values)), conditionals)
  }

  /** The names experiment creation accepts: no conditional twice, and no value twice in a conditional. */
  predicate DistinctNames(conditionals: seq<Conditional>) {
    && (forall i, j :: 0 <= i < j < |conditionals| ==> conditionals[i].name != conditionals[j].name)
    && (forall c :: c in conditionals ==> forall i, j :: 0 <= i < j < |c.values| ==>
         c.values[i].name != c.values[j].name)
  }

  /** A choice of at most one value for each conditional, by key. */
  type Choice = Key -> Option<Key>

  predicate Chosen(c: Conditional, choice: Choice, v: Value) {
    v in c.values && choice(c.editKey) == Some(v.editKey)
  }

  /** The parameter is enabled under the choice, as the form's keys say. */
  predicate EnabledByKey(conditionals: seq<Conditional>, conditions: seq<Condition>, choice: Choice)
    requires Translatable(conditionals, conditions)
  {
    forall d :: d in conditions ==> ConditionEnabled(conditionals, d, choice)
  }

  /** If a value of the conditional is chosen, it is an accepted one. */
  predicate ConditionEnabled(conditionals: seq<Conditional>, d: Condition, choice: Choice)
    requires Find(conditionals, d.key).Some?
  {
    forall v :: v in Find(conditionals, d.key).value.values && choice(d.key) == Some(v.editKey) ==>
      v.editKey in d.values
  }

  /**
   The assignments make the choice: each conditional has the name of its chosen value, or none of its values'
   names.
   */
  predicate Makes(conditionals: seq<Conditional>, assignments: Ui.Assignments, choice: Choice) {
    forall c :: c in conditionals ==>
      && (forall v :: v in c.values && Chosen(c, choice, v) ==> Ui.Lookup(assignments, c.name) == Ui.Text(v.name))
      && (forall v :: v in c.values && Ui.Lookup(assignments, c.name) == Ui.Text(v.name) ==> Chosen(c, choice, v))
  }

  lemma {:induction false} NamedFound(conditionals: seq<Conditional>, c: Conditional)
    requires c in conditionals
    requires forall i, j :: 0 <= i < j < |conditionals| ==> conditionals[i].name != conditionals[j].name
    ensures Ui.FindConditional(Named(conditionals), c.name)
              == Some(Ui.Conditional(c.name, Map((v: Value) => v.name, c.values)))
  {
    assert Named(conditionals)[1..] == Named(conditionals[1..]);
    if conditionals[0] != c {
      assert conditionals == [conditionals[0]] + conditionals[1..];
      NamedFound(conditionals[1..], c);
    }
  }

  /**
   The accepted names are names of the conditional's values, and a value is accepted by name exactly when its key
   is.
   */
  lemma AcceptedByName(c: Conditional, valueKeys: seq<Key>, v: Value)
    requires v in c.values
    requires forall i, j :: 0 <= i < j < |c.values| ==> c.values[i].name != c.values[j].name
    ensures v.name in AcceptedNames(c, valueKeys) <==> v.editKey in valueKeys
  {
    var accepted := Filter((w: Value) => w.editKey in valueKeys, c.values);
    if v.editKey in valueKeys {
      var k :| 0 <= k < |accepted| && accepted[k] == v;
      assert AcceptedNames(c, valueKeys)[k] == v.name;
    }
    if v.name in AcceptedNames(c, valueKeys) {
      var k :| 0 <= k < |accepted| && accepted[k].name == v.name;
      assert accepted[k] in c.values;
    }
  }

  /** Some condition is on the conditional with this name. */
  predicate OnNamed(conditionals: seq<Conditional>, conditions: seq<Condition>, name: string)
    requires Translatable(conditionals, conditions)
  {
    exists d :: d in conditions && Find(conditionals, d.key).value.name == name
  }

  lemma OtherName(conditionals: seq<Conditional>, key: Key, other: Key)
    requires key != other && Find(conditionals, key).Some? && Find(conditionals, other).Some?
    requires forall i, j :: 0 <= i < j < |conditionals| ==> conditionals[i].name != conditionals[j].name
    ensures Find(conditionals, key).value.name != Find(conditionals, other).value.name
  {
    FindIn(conditionals, key);
    FindIn(conditionals, other);
    var i :| 0 <= i < |conditionals| && conditionals[i] == Find(conditionals, key).value;
    var j :| 0 <= j < |conditionals| && conditionals[j] == Find(conditionals, other).value;
  }

  /** Each condition is translated under its conditional's name, and nothing else is. */
  lemma {:induction false} TranslatedEntries(conditionals: seq<Conditional>, conditions: seq<Condition>, name: string)
    requires ConditionKeysDistinct(conditions) && Translatable(conditionals, conditions)
    requires forall i, j :: 0 <= i < j < |conditionals| ==> conditionals[i].name != conditionals[j].name
    ensures var result := Translate(conditionals, conditions);
            && (name in result ==> OnNamed(conditionals, conditions, name))
            && (forall d :: d in conditions && Find(conditionals, d.key).value.name == name ==>
                  name in result && result[name] == AcceptedNames(Find(conditionals, d.key).value, d.values))
  {
    if conditions != [] {
      var init, last := conditions[..|conditions| - 1], conditions[|conditions| - 1];
      TranslatedEntries(conditionals, init, name);
      assert conditions == init + [last];
      forall d | d in init ensures Find(conditionals, d.key).value.name != Find(conditionals, last.key).value.name {
        OtherName(conditionals, d.key, last.key);
      }
    }
  }

  /**
   Submission keeps the meaning of the form: it never misses a conditional, every translated condition names a
   conditional of the experiment, and each parameter is enabled by name under exactly the choices that enabled
   it by key.
   */
  lemma TranslationKeepsEnabled(form: Form, p: Parameter, assignments: Ui.Assignments, choice: Choice)
    requires FormInv(form) && p in form.parameters && DistinctNames(form.conditionals)
    requires Makes(form.conditionals, assignments, choice)
    ensures Translatable(form.conditionals, p.conditions)
    ensures var conditions := Translate(form.conditionals, p.conditions);
            && (forall name :: name in conditions ==> Ui.FindConditional(Named(form.conditionals), name).Some?)
            && (Ui.ParameterEnabled(Named(form.conditionals), assignments, conditions)
                <==> EnabledByKey(form.conditionals, p.conditions, choice))
  {
    forall k | 0 <= k < |p.conditions|
      ensures ConditionAgrees(form.conditionals, p.conditions, k, assignments, choice) {
      OneConditionAgrees(form, p, k, assignments, choice);
    }
    forall name | name in Translate(form.conditionals, p.conditions)
      ensures OnNamed(form.conditionals, p.conditions, name) {
      TranslatedEntries(form.conditionals, p.conditions, name);
    }
    AgreesThroughout(form.conditionals, p.conditions, assignments, choice);
  }

  lemma AgreesThroughout(
    conditionals: seq<Conditional>, conditions: seq<Condition>, assignments: Ui.Assignments, choice: Choice)
    requires Translatable(conditionals, conditions)
    requires forall k :: 0 <= k < |conditions| ==> ConditionAgrees(conditionals, conditions, k, assignments, choice)
    requires forall name :: name in Translate(conditionals, conditions) ==> OnNamed(conditionals, conditions, name)
    ensures forall name :: name in Translate(conditionals, conditions) ==>
              Ui.FindConditional(Named(conditionals), name).Some?
    ensures Ui.ParameterEnabled(Named(conditionals), assignments, Translate(conditionals, conditions))
       <==> EnabledByKey(conditionals, conditions, choice)
  {
    var result := Translate(conditionals, conditions);
    forall name | name in result ensures Ui.FindConditional(Named(conditionals), name).Some? {
      var d :| d in conditions && Find(conditionals, d.key).value.name == name;
      var k :| 0 <= k < |conditions| && conditions[k] == d;
      assert ConditionAgrees(conditionals, conditions, k, assignments, choice);
    }
    if EnabledByKey(conditionals, conditions, choice) {
      forall name | name in result ensures EnabledByName(conditionals, assignments, result, name) {
        var d :| d in conditions && Find(conditionals, d.key).value.name == name;
        var k :| 0 <= k < |conditions| && conditions[k] == d;
        assert ConditionAgrees(conditionals, conditions, k, assignments, choice);
      }
    }
    if Ui.ParameterEnabled(Named(conditionals), assignments, result) {
      forall k | 0 <= k < |conditions| ensures ConditionEnabled(conditionals, conditions[k], choice) {
        assert conditions[k] in conditions;
        assert ConditionAgrees(conditionals, conditions, k, assignments, choice);
      }
    }
  }

  predicate EnabledByName(
    conditionals: seq<Conditional>, assignments: Ui.Assignments, conditions: map<string, seq<string>>, name: string)
    requires name in conditions && Ui.FindConditional(Named(conditionals), name).Some?
  {
    Ui.Contains(Ui.FindConditional(Named(conditionals), name).value.values, Ui.Lookup(assignments, name))
    ==> Ui.Contains(conditions[name], Ui.Lookup(assignments, name))
  }

  /** One condition, by name and by key. */
  predicate ConditionAgrees(
    conditionals: seq<Conditional>, conditions: seq<Condition>, k: nat, assignments: Ui.Assignments, choice: Choice)
    requires k < |conditions| && Translatable(conditionals, conditions)
  {
    assert conditions[k] in conditions;
    var name := Find(conditionals, conditions[k].key).value.name;
    && name in Translate(conditionals, conditions)
    && Ui.FindConditional(Named(conditionals), name).Some?
    && (EnabledByName(conditionals, assignments, Translate(conditionals, conditions), name)
        <==> ConditionEnabled(conditionals, conditions[k], choice))
  }

  lemma OneConditionAgrees(form: Form, p: Parameter, k: nat, assignments: Ui.Assignments, choice: Choice)
    requires FormInv(form) && p in form.parameters && DistinctNames(form.conditionals)
    requires Makes(form.conditionals, assignments, choice) && k < |p.conditions|
    ensures Translatable(form.conditionals, p.conditions)
    ensures ConditionAgrees(form.conditionals, p.conditions, k, assignments, choice)
  {
    var d := p.conditions[k];
    assert d in p.conditions;
    var c := Find(form.conditionals, d.key).value;
    FindIn(form.conditionals, d.key);
    NamedFound(form.conditionals, c);
    TranslatedEntries(form.conditionals, p.conditions, c.name);
    var names, given := Map((v: Value) => v.name, c.values), Ui.Lookup(assignments, c.name);
    forall v | v in c.values
      ensures v.name in AcceptedNames(c, d.values) <==> v.editKey in d.values
      ensures v.name in names
      ensures choice(d.key) == Some(v.editKey) <==> given == Ui.Text(v.name)
    {
      AcceptedByName(c, d.values, v);
      var m :| 0 <= m < |c.values| && c.values[m] == v;
      assert names[m] == v.name;
      assert Chosen(c, choice, v) <==> choice(d.key) == Some(v.editKey);
    }
    NamesAreValues(c, given);
  }

  lemma NamesAreValues(c: Conditional, given: Ui.Value)
    ensures Ui.Contains(Map((v: Value) => v.name, c.values), given) ==>
              exists v :: v in c.values && given == Ui.Text(v.name)
  {
    var names := Map((v: Value) => v.name, c.values);
    if Ui.Contains(names, given) {
      var m :| 0 <= m < |names| && names[m] == given.text;
      assert c.values[m] in c.values;
    }
  }

  /**
   From a new experiment, whatever the edits: with distinct names, what is submitted enables what the form
   enabled.
   */
  lemma SessionKeepsMeaning(edits: seq<Edit>, p: Parameter, assignments: Ui.Assignments, choice: Choice)
    requires IsSession(NEW_FORM, edits) && p in Session(NEW_FORM, edits).parameters
    requires DistinctNames(Session(NEW_FORM, edits).conditionals)
    requires Makes(Session(NEW_FORM, edits).conditionals, assignments, choice)
    ensures var form := Session(NEW_FORM, edits);
            && Translatable(form.conditionals, p.conditions)
            && (forall name :: name in Translate(form.conditionals, p.conditions) ==>
                 Ui.FindConditional(Named(form.conditionals), name).Some?)
            && (Ui.ParameterEnabled(Named(form.conditionals), assignments, Translate(form.conditionals, p.conditions))
                <==> EnabledByKey(form.conditionals, p.conditions, choice))
  {
    SessionKeepsInv(NEW_FORM, edits);
    TranslationKeepsEnabled(Session(NEW_FORM, edits), p, assignments, choice);
  }

  // ---------- What the server accepts ----------

  /** A conditional as the server stores what is submitted for it. */
  function Stored(c: Conditional): Server.Conditional {
    Server.Conditional(c.name, Server.Numbered(Map((v: Value) => v.name, c.values)))
  }

  function AllStored(conditionals: seq<Conditional>): seq<Server.Conditional> {
    seq(|conditionals|, i requires 0 <= i < |conditionals| => Stored(conditionals[i]))
  }

  lemma StoredFound(conditionals: seq<Conditional>, c: Conditional)
    requires c in conditionals
    requires forall i, j :: 0 <= i < j < |conditionals| ==> conditionals[i].name != conditionals[j].name
    ensures Server.FindConditional(AllStored(conditionals), c.name) == Some(Stored(c))
  {
    var stored, found := AllStored(conditionals), Server.FindConditional(AllStored(conditionals), c.name);
    var i :| 0 <= i < |conditionals| && conditionals[i] == c;
    assert stored[i].name == c.name;
    var j :| 0 <= j < |stored| && stored[j] == found.value;
    assert conditionals[j].name == conditionals[i].name;
  }

  lemma {:induction false} ValueFound(values: seq<Server.ConditionalValue>, k: nat)
    requires k < |values|
    ensures Server.FindValue(values, values[k].name).Some?
  {
    if values[0].name != values[k].name {
      assert values[1..][k - 1] == values[k];
      ValueFound(values[1..], k - 1);
    }
  }

  lemma AcceptedNamesAreStored(c: Conditional, valueKeys: seq<Key>)
    ensures forall j :: 0 <= j < |AcceptedNames(c, valueKeys)| ==>
              Server.FindValue(Stored(c).values, AcceptedNames(c, valueKeys)[j]).Some?
  {
    var accepted := Filter((v: Value) => v.editKey in valueKeys, c.values);
    forall j | 0 <= j < |accepted| ensures Server.FindValue(Stored(c).values, accepted[j].name).Some? {
      assert accepted[j] in c.values;
      var m :| 0 <= m < |c.values| && c.values[m] == accepted[j];
      assert Stored(c).values[m].name == accepted[j].name;
      ValueFound(Stored(c).values, m);
    }
  }

  lemma AcceptsSomeValue(conditionals: seq<Conditional>, d: Condition)
    requires Refers(conditionals, d)
    ensures AcceptedNames(Find(conditionals, d.key).value, d.values) != [] <==> d.values != []
  {
    var c := Find(conditionals, d.key).value;
    var accepted := Filter((v: Value) => v.editKey in d.values, c.values);
    if d.values != [] {
      assert d.values[0] in ValueKeys(c);
      var m :| 0 <= m < |c.values| && c.values[m].editKey == d.values[0];
      assert c.values[m] in accepted;
    }
    if accepted != [] {
      assert accepted[0] in accepted;
    }
  }

  /** The condition that is sent for `d`, as a name and a list of value names. */
  function Sent(conditionals: seq<Conditional>, d: Condition): (string, seq<string>)
    requires Find(conditionals, d.key).Some?
  {
    var c := Find(conditionals, d.key).value;
    (c.name, AcceptedNames(c, d.values))
  }

  lemma SentIsResolvable(conditionals: seq<Conditional>, d: Condition)
    requires Refers(conditionals, d) && DistinctNames(conditionals)
    ensures Server.Resolvable(Sent(conditionals, d), AllStored(conditionals)) <==> d.values != []
  {
    var c := Find(conditionals, d.key).value;
    FindIn(conditionals, d.key);
    StoredFound(conditionals, c);
    AcceptedNamesAreStored(c, d.values);
    AcceptsSomeValue(conditionals, d);
  }

  /** The server accepts every condition that is submitted for the parameter. */
  predicate Accepted(conditionals: seq<Conditional>, conditions: map<string, seq<string>>) {
    forall name :: name in conditions ==> Server.Resolvable((name, conditions[name]), AllStored(conditionals))
  }

  /**
   Submitted conditions are accepted exactly if none of them was left without a value, which is how the form leaves
   a condition when its last value is removed from the conditional.
   */
  lemma AcceptedIffNoneEmpty(form: Form, p: Parameter)
    requires FormInv(form) && p in form.parameters && DistinctNames(form.conditionals)
    ensures Translatable(form.conditionals, p.conditions)
    ensures Accepted(form.conditionals, Translate(form.conditionals, p.conditions)) <==> NoneEmpty(p.conditions)
  {
    var conditions := Translate(form.conditionals, p.conditions);
    forall d | d in p.conditions
      ensures var sent := Sent(form.conditionals, d);
              && sent.0 in conditions && conditions[sent.0] == sent.1
              && (Server.Resolvable(sent, AllStored(form.conditionals)) <==> d.values != [])
    {
      TranslatedEntries(form.conditionals, p.conditions, Find(form.conditionals, d.key).value.name);
      SentIsResolvable(form.conditionals, d);
    }
    forall name | name in conditions ensures OnNamed(form.conditionals, p.conditions, name) {
      TranslatedEntries(form.conditionals, p.conditions, name);
    }
    if NoneEmpty(p.conditions) {
      forall name | name in conditions
        ensures Server.Resolvable((name, conditions[name]), AllStored(form.conditionals)) {
        var d :| d in p.conditions && Find(form.conditionals, d.key).value.name == name;
        assert Sent(form.conditionals, d) == (name, conditions[name]);
      }
    }
    if Accepted(form.conditionals, conditions) {
      forall d | d in p.conditions ensures d.values != [] {
        var sent := Sent(form.conditionals, d);
        assert sent == (sent.0, conditions[sent.0]);
      }
    }
  }

  predicate NoneEmpty(conditions: seq<Condition>) {
    forall d :: d in conditions ==> d.values != []
  }

  predicate NoConditionEmpty(form: Form) {
    forall p :: p in form.parameters ==> NoneEmpty(p.conditions)
  }

  lemma ChangeEmptiesNothing(form: Form, key: Key, updater: Conditional -> Conditional)
    requires NoConditionEmpty(form) && Find(form.conditionals, key).Some?
    requires var previous := Find(form.conditionals, key).value;
             forall v :: v in ValueKeys(previous) ==> v in ValueKeys(updater(previous))
    ensures NoConditionEmpty(ChangeConditional(form, key, updater))
  {
    var previous := Find(form.conditionals, key).value;
    var removed := Filter((v: Key) => v !in ValueKeys(updater(previous)), ValueKeys(previous));
    assert forall v: Key :: v !in removed;
    forall p, d | p in form.parameters && d in p.conditions ensures WithoutValues(d, removed).values != [] {
      assert d.values[0] in WithoutValues(d, removed).values;
    }
  }

  lemma AddConditionEmptiesNothing(conditions: seq<Condition>, key: Key, value: Key)
    requires NoneEmpty(conditions)
    ensures NoneEmpty(WithCondition(conditions, key, value))
  {
    var next := WithCondition(conditions, key, value);
    forall i | 0 <= i < |next| ensures next[i].values != [] {
      if i < |conditions| {
        assert conditions[i] in conditions;
      }
    }
  }

  lemma RemoveConditionEmptiesNothing(conditions: seq<Condition>, key: Key, value: Key)
    requires NoneEmpty(conditions)
    ensures NoneEmpty(WithoutCondition(conditions, key, value))
  {
    var mapped := Map((d: Condition) => if d.key == key
      then d.(values := Filter((v: Key) => v != value, d.values)) else d, conditions);
    forall d | d in mapped && d.key != key ensures d.values != [] {
      var i :| 0 <= i < |mapped| && mapped[i] == d;
      assert conditions[i] in conditions;
    }
  }

  lemma SetParameterEmptiesNothing(form: Form, parameter: Key, updater: Parameter -> Parameter)
    requires NoConditionEmpty(form) && forall p :: p in form.parameters ==> NoneEmpty(updater(p).conditions)
    ensures NoConditionEmpty(SetParameter(form, parameter, updater))
  {
    var next := SetParameter(form, parameter, updater);
    forall i | 0 <= i < |next.parameters| ensures NoneEmpty(next.parameters[i].conditions) {
      assert form.parameters[i] in form.parameters;
    }
  }

  lemma ConditionalEditEmptiesNothing(form: Form, edit: Edit)
    requires Offered(form, edit) && NoConditionEmpty(form)
    requires edit.RenameConditional? || edit.AddValue? || edit.RenameValue?
    ensures NoConditionEmpty(Apply(form, edit))
  {
    var previous := Find(form.conditionals, edit.key).value;
    match edit
    case RenameConditional(key, name) => ChangeEmptiesNothing(form, key, Renamed(name));
    case AddValue(key) =>
      var updater := WithValue(Value(form.nextKey, ""));
      forall k | 0 <= k < |previous.values| ensures previous.values[k].editKey in ValueKeys(updater(previous)) {
        assert ValueKeys(updater(previous))[k] == previous.values[k].editKey;
      }
      ChangeEmptiesNothing(form, key, updater);
    case RenameValue(key, value, name) =>
      var updater := WithValueRenamed(value, name);
      forall k | 0 <= k < |previous.values| ensures previous.values[k].editKey in ValueKeys(updater(previous)) {
        assert ValueKeys(updater(previous))[k] == previous.values[k].editKey;
      }
      ChangeEmptiesNothing(form, key, updater);
  }

  lemma ParameterEditEmptiesNothing(form: Form, edit: Edit)
    requires Offered(form, edit) && NoConditionEmpty(form)
    requires edit.AddCondition? || edit.RemoveCondition? || edit.RenameParameter?
    ensures NoConditionEmpty(Apply(form, edit))
  {
    match edit
    case AddCondition(key, value, parameter) =>
      forall p | p in form.parameters ensures NoneEmpty(WithCondition(p.conditions, key, value)) {
        AddConditionEmptiesNothing(p.conditions, key, value);
      }
      SetParameterEmptiesNothing(form, parameter, (p: Parameter) =>
        p.(conditions := WithCondition(p.conditions, key, value)));
    case RemoveCondition(key, value, parameter) =>
      forall p | p in form.parameters ensures NoneEmpty(WithoutCondition(p.conditions, key, value)) {
        RemoveConditionEmptiesNothing(p.conditions, key, value);
      }
      SetParameterEmptiesNothing(form, parameter, (p: Parameter) =>
        p.(conditions := WithoutCondition(p.conditions, key, value)));
    case RenameParameter(parameter, name) =>
      SetParameterEmptiesNothing(form, parameter, (p: Parameter) => p.(name := name));
  }

  lemma DropEmptiesNothing(form: Form, key: Key)
    requires NoConditionEmpty(form)
    ensures NoConditionEmpty(DropConditional(form, key))
  {
    var next := DropConditional(form, key);
    forall i | 0 <= i < |next.parameters| ensures NoneEmpty(next.parameters[i].conditions) {
      assert form.parameters[i] in form.parameters;
    }
  }

  /** Removing a value from a conditional empties exactly the conditions that accepted nothing else. */
  lemma RemovingValueEmpties(form: Form, key: Key, value: Key)
    requires FormInv(form) && Offered(form, RemoveValue(key, value)) && NoConditionEmpty(form)
    ensures NoConditionEmpty(Apply(form, RemoveValue(key, value)))
       <==> value !in ValueKeys(Find(form.conditionals, key).value)
            || forall p, d :: p in form.parameters && d in p.conditions ==> AcceptsOther(d, value)
  {
    var previous := Find(form.conditionals, key).value;
    var updater := WithoutValue(value);
    var next := ChangeConditional(form, key, updater);
    var removed := Filter((v: Key) => v !in ValueKeys(updater(previous)), ValueKeys(previous));
    forall v ensures v in removed <==> v == value && value in ValueKeys(previous) {
      RemovedIsValue(previous, value, v);
    }
    EmptiedConditions(form, next, removed);
    forall p, d | p in form.parameters && d in p.conditions
      ensures WithoutValues(d, removed).values != [] <==> value !in ValueKeys(previous) || AcceptsOther(d, value)
    {
      assert d.values != [];
      StaysNonEmpty(d, removed);
      assert d.values[0] in d.values;
    }
  }

  /** The condition accepts a value other than this one. */
  predicate AcceptsOther(d: Condition, value: Key) {
    exists v :: v in d.values && v != value
  }

  lemma StaysNonEmpty(d: Condition, removed: seq<Key>)
    ensures WithoutValues(d, removed).values != [] <==> exists v :: v in d.values && v !in removed
  {
    var kept := WithoutValues(d, removed).values;
    if kept != [] {
      assert kept[0] in kept;
    }
  }

  lemma RemovedIsValue(previous: Conditional, value: Key, v: Key)
    ensures v in ValueKeys(previous) && v !in ValueKeys(WithoutValue(value)(previous))
       <==> v == value && value in ValueKeys(previous)
  {
    var updated := WithoutValue(value)(previous);
    if v in ValueKeys(previous) && v != value {
      var k :| 0 <= k < |previous.values| && previous.values[k].editKey == v;
      assert previous.values[k] in updated.values;
      var m :| 0 <= m < |updated.values| && updated.values[m] == previous.values[k];
      assert ValueKeys(updated)[m] == v;
    }
    if v in ValueKeys(updated) {
      var m :| 0 <= m < |updated.values| && updated.values[m].editKey == v;
      assert updated.values[m] in updated.values;
    }
  }

  lemma EmptiedConditions(form: Form, next: Form, removed: seq<Key>)
    requires next.parameters
               == Map((p: Parameter) =>
               p.(conditions := Map((d: Condition) => WithoutValues(d, removed), p.conditions)), form.parameters)
    ensures NoConditionEmpty(next)
       <==> forall p, d :: p in form.parameters && d in p.conditions ==> WithoutValues(d, removed).values != []
  {
    if NoConditionEmpty(next) {
      forall p, d | p in form.parameters && d in p.conditions ensures WithoutValues(d, removed).values != [] {
        var i :| 0 <= i < |form.parameters| && form.parameters[i] == p;
        var k :| 0 <= k < |p.conditions| && p.conditions[k] == d;
        assert next.parameters[i] in next.parameters;
        assert next.parameters[i].conditions[k] in next.parameters[i].conditions;
      }
    }
  }

  /** Only removing a value from a conditional can leave a condition empty. */
  lemma OnlyRemovingValuesEmpties(form: Form, edit: Edit)
    requires Offered(form, edit) && NoConditionEmpty(form) && !edit.RemoveValue?
    ensures NoConditionEmpty(Apply(form, edit))
  {
    match edit
    case AddConditional =>
    case RemoveConditional(key) => DropEmptiesNothing(form, key);
    case RenameConditional(_, _) => ConditionalEditEmptiesNothing(form, edit);
    case AddValue(_) => ConditionalEditEmptiesNothing(form, edit);
    case RenameValue(_, _, _) => ConditionalEditEmptiesNothing(form, edit);
    case AddCondition(_, _, _) => ParameterEditEmptiesNothing(form, edit);
    case RemoveCondition(_, _, _) => ParameterEditEmptiesNothing(form, edit);
    case AddParameter =>
    case RemoveParameter(_) =>
    case RenameParameter(_, _) => ParameterEditEmptiesNothing(form, edit);
  }

  function ConditionalJson(c: Conditional): Server.ConditionalJson {
    Server.ConditionalJson(c.name, Map((v: Value) => v.name, c.values))
  }

  /** The conditionals as they are submitted. */
  function ConditionalsJson(conditionals: seq<Conditional>): seq<Server.ConditionalJson> {
    seq(|conditionals|, i requires 0 <= i < |conditionals| => ConditionalJson(conditionals[i]))
  }

  /** The server parses the conditionals, and then the conditions of every parameter. */
  predicate ServerAccepts(form: Form)
    requires forall p :: p in form.parameters ==> Translatable(form.conditionals, p.conditions)
  {
    var json := ConditionalsJson(form.conditionals);
    && Server.NoRepeats(Server.ConditionalNames(json))
    && (forall i :: 0 <= i < |json| ==> Server.Acceptable(json[i]))
    && (forall p :: p in form.parameters ==> Accepted(form.conditionals, Translate(form.conditionals, p.conditions)))
  }

  predicate TwoValuesEach(conditionals: seq<Conditional>) {
    forall c :: c in conditionals ==> |c.values| >= 2
  }

  lemma AcceptableIs(c: Conditional)
    ensures Server.Acceptable(ConditionalJson(c))
       <==> |c.values| >= 2 && forall i, j :: 0 <= i < j < |c.values| ==> c.values[i].name != c.values[j].name
  {
    var names := ConditionalJson(c).values;
    assert forall i :: 0 <= i < |names| ==> names[i] == c.values[i].name;
  }

  /** The conditionals are accepted exactly if their names are distinct and each has two or more distinct values. */
  lemma ConditionalsAccepted(conditionals: seq<Conditional>)
    ensures var json := ConditionalsJson(conditionals);
            Server.NoRepeats(Server.ConditionalNames(json))
              && (forall i :: 0 <= i < |json| ==> Server.Acceptable(json[i]))
            <==> DistinctNames(conditionals) && TwoValuesEach(conditionals)
  {
    var json := ConditionalsJson(conditionals);
    var names := Server.ConditionalNames(json);
    assert forall i :: 0 <= i < |names| ==> names[i] == conditionals[i].name;
    forall i | 0 <= i < |conditionals|
      ensures Server.Acceptable(json[i])
         <==> |conditionals[i].values| >= 2
              && forall a, b :: 0 <= a < b < |conditionals[i].values| ==>
                   conditionals[i].values[a].name != conditionals[i].values[b].name
    {
      AcceptableIs(conditionals[i]);
    }
    if forall i :: 0 <= i < |json| ==> Server.Acceptable(json[i]) {
      forall c | c in conditionals ensures Server.Acceptable(ConditionalJson(c)) {
        var i :| 0 <= i < |conditionals| && conditionals[i] == c;
        assert json[i] == ConditionalJson(c);
      }
    }
  }

  /**
   What is submitted from a new experiment, conditionals and conditions together, is accepted exactly if the session
   ended with distinct names, two or more values for every conditional, and no condition empty.
   */
  lemma SessionAccepted(edits: seq<Edit>)
    requires IsSession(NEW_FORM, edits)
    ensures var form := Session(NEW_FORM, edits);
            && (forall p :: p in form.parameters ==> Translatable(form.conditionals, p.conditions))
            && (ServerAccepts(form)
                <==> DistinctNames(form.conditionals) && TwoValuesEach(form.conditionals) && NoConditionEmpty(form))
  {
    SessionKeepsInv(NEW_FORM, edits);
    var form := Session(NEW_FORM, edits);
    ConditionalsAccepted(form.conditionals);
    if DistinctNames(form.conditionals) {
      forall p | p in form.parameters
        ensures Accepted(form.conditionals, Translate(form.conditionals, p.conditions)) <==> NoneEmpty(p.conditions)
      {
        AcceptedIffNoneEmpty(form, p);
      }
    }
  }

  // ---------- What each edit does ----------

  /** The conditions accept the value of the conditional. */
  predicate AcceptsValue(conditions: seq<Condition>, key: Key, value: Key) {
    exists d :: d in conditions && d.key == key && value in d.values
  }

  lemma UniqueCondition(conditions: seq<Condition>, d: Condition, e: Condition)
    requires ConditionKeysDistinct(conditions) && d in conditions && e in conditions && d.key == e.key
    ensures d == e
  {
    var i :| 0 <= i < |conditions| && conditions[i] == d;
    var j :| 0 <= j < |conditions| && conditions[j] == e;
  }

  lemma MapHas<A, B>(f: A -> B, s: seq<A>, b: B)
    ensures b in Map(f, s) <==> exists i :: 0 <= i < |s| && f(s[i]) == b
  {
    if b in Map(f, s) {
      var i :| 0 <= i < |s| && Map(f, s)[i] == b;
    }
    if exists i :: 0 <= i < |s| && f(s[i]) == b {
      var i :| 0 <= i < |s| && f(s[i]) == b;
      assert Map(f, s)[i] == b;
    }
  }

  /** Mapping the conditions changes what each accepts, condition by condition. */
  lemma MappedAccepts(f: Condition -> Condition, conditions: seq<Condition>, key: Key, value: Key)
    requires forall d :: d in conditions ==> f(d).key == d.key
    ensures AcceptsValue(Map(f, conditions), key, value)
       <==> exists d :: d in conditions && d.key == key && value in f(d).values
    ensures HasConditionFor(Map(f, conditions), key) <==> HasConditionFor(conditions, key)
  {
    var mapped := Map(f, conditions);
    if AcceptsValue(mapped, key, value) {
      var e :| e in mapped && e.key == key && value in e.values;
      var i :| 0 <= i < |mapped| && mapped[i] == e;
      assert conditions[i] in conditions && value in f(conditions[i]).values;
    }
    if d :| d in conditions && d.key == key && value in f(d).values {
      var i :| 0 <= i < |conditions| && conditions[i] == d;
      assert mapped[i] == f(d) && mapped[i] in mapped;
    }
    assert forall i :: 0 <= i < |conditions| ==> conditions[i] in conditions && mapped[i].key == conditions[i].key;
  }

  /** Adding a value to a condition accepts that value besides what was accepted, and nothing else. */
  lemma WithConditionAccepts(conditions: seq<Condition>, key: Key, value: Key, k: Key, v: Key)
    ensures AcceptsValue(WithCondition(conditions, key, value), k, v)
       <==> AcceptsValue(conditions, k, v) || (k == key && v == value)
    ensures HasConditionFor(WithCondition(conditions, key, value), k) <==> HasConditionFor(conditions, k) || k == key
  {
    var next := WithCondition(conditions, key, value);
    if HasConditionFor(conditions, key) {
      var f := (d: Condition) =>
        if d.key == key then d.(values := Filter((v: Key) => v != value, d.values) + [value]) else d;
      MappedAccepts(f, conditions, k, v);
      assert next == Map(f, conditions);
      var i :| 0 <= i < |conditions| && conditions[i].key == key;
      assert conditions[i] in conditions && value in f(conditions[i]).values;
    } else {
      assert next[|conditions|] == Condition(key, [value]);
      assert forall d :: d in next <==> d in conditions || d == Condition(key, [value]);
      assert forall i :: 0 <= i < |conditions| ==> next[i] == conditions[i];
    }
  }

  /** Removing a value from a condition accepts everything else as before; a condition goes with its last value. */
  lemma WithoutConditionAccepts(conditions: seq<Condition>, key: Key, value: Key, k: Key, v: Key)
    requires ConditionKeysDistinct(conditions)
    ensures AcceptsValue(WithoutCondition(conditions, key, value), k, v)
       <==> AcceptsValue(conditions, k, v) && !(k == key && v == value)
    ensures HasConditionFor(WithoutCondition(conditions, key, value), k)
       <==> HasConditionFor(conditions, k) && (k == key ==> exists w :: w != value && AcceptsValue(conditions, k, w))
  {
    var f := (d: Condition) => if d.key == key then d.(values := Filter((v: Key) => v != value, d.values)) else d;
    var keep := (d: Condition) => d.key != key || d.values != [];
    var mapped, next := Map(f, conditions), WithoutCondition(conditions, key, value);
    assert next == Filter(keep, mapped);
    MappedAccepts(f, conditions, k, v);
    assert AcceptsValue(next, k, v) <==> AcceptsValue(mapped, k, v);
    KeptHas(keep, mapped, k);
    forall d ensures d in mapped && d.key == k && keep(d)
                <==> exists i :: 0 <= i < |conditions| && conditions[i].key == k && f(conditions[i]) == d && keep(d)
    {
      MapHas(f, conditions, d);
    }
    if k == key {
      forall i | 0 <= i < |conditions| && conditions[i].key == key
        ensures keep(f(conditions[i])) <==> exists w :: w != value && AcceptsValue(conditions, key, w)
      {
        StaysAccepting(conditions, i, value);
      }
    }
  }

  lemma KeptHas(keep: Condition -> bool, conditions: seq<Condition>, k: Key)
    ensures HasConditionFor(Filter(keep, conditions), k) <==> exists d :: d in conditions && d.key == k && keep(d)
  {
    var kept := Filter(keep, conditions);
    if HasConditionFor(kept, k) {
      var i :| 0 <= i < |kept| && kept[i].key == k;
      assert kept[i] in kept;
    }
    if d :| d in conditions && d.key == k && keep(d) {
      assert d in kept;
      var i :| 0 <= i < |kept| && kept[i] == d;
    }
  }

  lemma StaysAccepting(conditions: seq<Condition>, i: nat, value: Key)
    requires ConditionKeysDistinct(conditions) && i < |conditions|
    ensures Filter((v: Key) => v != value, conditions[i].values) != []
       <==> exists w :: w != value && AcceptsValue(conditions, conditions[i].key, w)
  {
    var d := conditions[i];
    var left := Filter((v: Key) => v != value, d.values);
    assert d in conditions;
    if left != [] {
      assert left[0] in left;
      assert AcceptsValue(conditions, d.key, left[0]);
    }
    if w :| w != value && AcceptsValue(conditions, d.key, w) {
      var e :| e in conditions && e.key == d.key && w in e.values;
      UniqueCondition(conditions, d, e);
      assert w in left;
    }
  }

  /**
   As far as this conditional goes, the parameter is enabled: it has no condition on it, or accepts what is
   chosen.
   */
  predicate EnabledOn(conditionals: seq<Conditional>, conditions: seq<Condition>, key: Key, choice: Choice) {
    HasConditionFor(conditions, key) && Find(conditionals, key).Some? ==>
      forall v :: v in ValueKeys(Find(conditionals, key).value) && choice(key) == Some(v) ==>
        AcceptsValue(conditions, key, v)
  }

  lemma ChosenValueIs(c: Conditional, v: Value)
    requires v in c.values
    ensures v.editKey in ValueKeys(c)
  {
    var i :| 0 <= i < |c.values| && c.values[i] == v;
    assert ValueKeys(c)[i] == v.editKey;
  }

  lemma ConditionEnabledOn(conditionals: seq<Conditional>, conditions: seq<Condition>, d: Condition, choice: Choice)
    requires ConditionKeysDistinct(conditions) && d in conditions && Find(conditionals, d.key).Some?
    ensures ConditionEnabled(conditionals, d, choice) <==> EnabledOn(conditionals, conditions, d.key, choice)
  {
    var c := Find(conditionals, d.key).value;
    var i :| 0 <= i < |conditions| && conditions[i] == d;
    assert HasConditionFor(conditions, d.key);
    forall v ensures AcceptsValue(conditions, d.key, v) <==> v in d.values {
      if AcceptsValue(conditions, d.key, v) {
        var e :| e in conditions && e.key == d.key && v in e.values;
        UniqueCondition(conditions, d, e);
      }
    }
    forall v | v in c.values ensures v.editKey in ValueKeys(c) {
      ChosenValueIs(c, v);
    }
    forall v | v in ValueKeys(c) ensures exists w :: w in c.values && w.editKey == v {
      var m :| 0 <= m < |c.values| && ValueKeys(c)[m] == v;
      assert c.values[m] in c.values;
    }
  }

  /** A parameter is enabled exactly if it is enabled on every conditional. */
  lemma EnabledOnEvery(conditionals: seq<Conditional>, p: Parameter, choice: Choice)
    requires ParameterRefers(conditionals, p)
    ensures Translatable(conditionals, p.conditions)
    ensures EnabledByKey(conditionals, p.conditions, choice)
       <==> forall key :: EnabledOn(conditionals, p.conditions, key, choice)
  {
    forall d | d in p.conditions
      ensures ConditionEnabled(conditionals, d, choice) <==> EnabledOn(conditionals, p.conditions, d.key, choice)
    {
      ConditionEnabledOn(conditionals, p.conditions, d, choice);
    }
    if forall d :: d in p.conditions ==> ConditionEnabled(conditionals, d, choice) {
      forall key | HasConditionFor(p.conditions, key) ensures EnabledOn(conditionals, p.conditions, key, choice) {
        var i :| 0 <= i < |p.conditions| && p.conditions[i].key == key;
        assert p.conditions[i] in p.conditions;
      }
    }
  }

  /**
   Adding a value to a condition concerns one parameter and one conditional: there the parameter becomes enabled under
   that value besides those it was accepting, and under no other.
   */
  lemma AddConditionEffect(form: Form, key: Key, value: Key, parameter: Key, i: nat, choice: Choice)
    requires FormInv(form) && Offered(form, AddCondition(key, value, parameter)) && i < |form.parameters|
    ensures var next, p := Apply(form, AddCondition(key, value, parameter)), form.parameters[i];
            && next.conditionals == form.conditionals && |next.parameters| == |form.parameters|
            && var q := next.parameters[i];
               && q.editKey == p.editKey && q.name == p.name && (p.editKey != parameter ==> q == p)
               && (forall k :: k != key ==>
                     (EnabledOn(form.conditionals, q.conditions, k, choice)
                      <==> EnabledOn(form.conditionals, p.conditions, k, choice)))
               && (p.editKey == parameter ==>
                     (EnabledOn(form.conditionals, q.conditions, key, choice)
                      <==> forall v :: v in ValueKeys(Find(form.conditionals, key).value) && choice(key) == Some(v) ==>
                                         v == value || AcceptsValue(p.conditions, key, v)))
  {
    var p, q := form.parameters[i], Apply(form, AddCondition(key, value, parameter)).parameters[i];
    if p.editKey == parameter {
      forall k, v
        ensures AcceptsValue(q.conditions, k, v) <==> AcceptsValue(p.conditions, k, v) || (k == key && v == value)
        ensures HasConditionFor(q.conditions, k) <==> HasConditionFor(p.conditions, k) || k == key
      {
        WithConditionAccepts(p.conditions, key, value, k, v);
      }
    }
  }

  /**
   Removing a value from a condition concerns one parameter and one conditional: there the parameter stays enabled under
   the other values it accepts, and under all values if there are no others.
   */
  lemma RemoveConditionEffect(form: Form, key: Key, value: Key, parameter: Key, i: nat, choice: Choice)
    requires FormInv(form) && i < |form.parameters|
    ensures var next, p := Apply(form, RemoveCondition(key, value, parameter)), form.parameters[i];
            && next.conditionals == form.conditionals && |next.parameters| == |form.parameters|
            && var q := next.parameters[i];
               && q.editKey == p.editKey && q.name == p.name && (p.editKey != parameter ==> q == p)
               && (forall k :: k != key ==>
                     (EnabledOn(form.conditionals, q.conditions, k, choice)
                      <==> EnabledOn(form.conditionals, p.conditions, k, choice)))
               && (&& p.editKey == parameter
                   && Find(form.conditionals, key).Some?
                   && HasConditionFor(p.conditions, key) ==>
                     (EnabledOn(form.conditionals, q.conditions, key, choice)
                      <==> || (forall w :: AcceptsValue(p.conditions, key, w) ==> w == value)
                           || forall v ::
                                v in ValueKeys(Find(form.conditionals, key).value) && choice(key) == Some(v) ==>
                                            v != value && AcceptsValue(p.conditions, key, v)))
  {
    var p, q := form.parameters[i], Apply(form, RemoveCondition(key, value, parameter)).parameters[i];
    assert p in form.parameters;
    if p.editKey == parameter {
      forall k, v
        ensures AcceptsValue(q.conditions, k, v) <==> AcceptsValue(p.conditions, k, v) && !(k == key && v == value)
        ensures HasConditionFor(q.conditions, k)
           <==> HasConditionFor(p.conditions, k)
                && (k == key ==> exists w :: w != value && AcceptsValue(p.conditions, k, w))
      {
        WithoutConditionAccepts(p.conditions, key, value, k, v);
      }
    }
  }

  lemma {:induction false} FilterAll<A(!new)>(keep: A -> bool, s: seq<A>)
    requires forall a :: a in s ==> keep(a)
    ensures Filter(keep, s) == s
  {
    if s != [] {
      FilterAll(keep, s[..|s| - 1]);
    }
  }

  /** Values that no condition lists take nothing from the parameters. */
  lemma NothingRemoved(parameters: seq<Parameter>, removed: seq<Key>)
    requires removed == []
    ensures Map((p: Parameter) =>
              p.(conditions := Map((d: Condition) => WithoutValues(d, removed), p.conditions)), parameters)
         == parameters
  {
    var changed :=
      Map((p: Parameter) => p.(conditions := Map((d: Condition) => WithoutValues(d, removed), p.conditions)),
        parameters);
    forall i | 0 <= i < |parameters| ensures changed[i] == parameters[i] {
      var conditions := parameters[i].conditions;
      forall k | 0 <= k < |conditions| ensures WithoutValues(conditions[k], removed) == conditions[k] {
        FilterAll((v: Key) => v !in removed, conditions[k].values);
      }
      assert changed[i].conditions == conditions;
    }
  }

  /** Editing a conditional leaves every other one alone, and keeps their order and keys. */
  lemma OtherConditionals(form: Form, key: Key, updater: Conditional -> Conditional, k: Key)
    requires DistinctKeys(form.conditionals) && Find(form.conditionals, key).Some?
    requires updater(Find(form.conditionals, key).value).editKey == key
    ensures var next, previous := ChangeConditional(form, key, updater), Find(form.conditionals, key).value;
            && Find(next.conditionals, k) == (if k == key then Some(updater(previous)) else Find(form.conditionals, k))
            && |next.conditionals| == |form.conditionals|
            && (forall i :: 0 <= i < |form.conditionals| ==>
                 next.conditionals[i].editKey == form.conditionals[i].editKey)
  {
    var previous := Find(form.conditionals, key).value;
    FindMapped((c: Conditional) => if c.editKey == key then updater(previous) else c, form.conditionals, k);
    FindIn(form.conditionals, k);
  }

  lemma KeysKept(previous: Conditional, updated: Conditional)
    requires forall v :: v in ValueKeys(previous) ==> v in ValueKeys(updated)
    ensures Filter((v: Key) => v !in ValueKeys(updated), ValueKeys(previous)) == []
  {
    FilterNone((v: Key) => v !in ValueKeys(updated), ValueKeys(previous));
  }

  lemma {:induction false} FilterNone<A(!new)>(keep: A -> bool, s: seq<A>)
    requires forall a :: a in s ==> !keep(a)
    ensures Filter(keep, s) == []
  {
    if s != [] {
      FilterNone(keep, s[..|s| - 1]);
    }
  }

  /** Renaming a conditional changes its name and nothing else. */
  lemma RenameConditionalEffect(form: Form, key: Key, name: string, k: Key)
    requires FormInv(form) && Offered(form, RenameConditional(key, name))
    ensures var next, before := Apply(form, RenameConditional(key, name)), Find(form.conditionals, k);
            && next.parameters == form.parameters && |next.conditionals| == |form.conditionals|
            && Find(next.conditionals, k)
               == if before.Some? && k == key then Some(Conditional(k, name, before.value.values)) else before
  {
    FindIn(form.conditionals, key);
    OtherConditionals(form, key, Renamed(name), k);
    var previous := Find(form.conditionals, key).value;
    KeysKept(previous, Renamed(name)(previous));
    NothingRemoved(form.parameters, []);
  }

  /** Adding a value gives the conditional one more, under a key that was never used and without a name. */
  lemma AddValueEffect(form: Form, key: Key, k: Key)
    requires FormInv(form) && Offered(form, AddValue(key))
    ensures var next, before := Apply(form, AddValue(key)), Find(form.conditionals, k);
            && next.parameters == form.parameters && |next.conditionals| == |form.conditionals|
            && (k != key ==> Find(next.conditionals, k) == before)
            && (k == key ==>
                  exists v: Value ::
                    && v.name == "" && (forall c :: c in form.conditionals ==> v.editKey !in ValueKeys(c))
                    && Find(next.conditionals, k) == Some(Conditional(k, before.value.name, before.value.values + [v])))
  {
    FindIn(form.conditionals, key);
    var updater := WithValue(Value(form.nextKey, ""));
    OtherConditionals(form, key, updater, k);
    var previous := Find(form.conditionals, key).value;
    forall v | v in ValueKeys(previous) ensures v in ValueKeys(updater(previous)) {
      var i :| 0 <= i < |previous.values| && ValueKeys(previous)[i] == v;
      assert ValueKeys(updater(previous))[i] == v;
    }
    KeysKept(previous, updater(previous));
    NothingRemoved(form.parameters, []);
    forall c | c in form.conditionals ensures form.nextKey !in ValueKeys(c) {
      assert forall i :: 0 <= i < |c.values| ==> c.values[i] in c.values;
    }
  }

  /** Renaming a value changes its name and nothing else. */
  lemma RenameValueEffect(form: Form, key: Key, value: Key, name: string, k: Key)
    requires FormInv(form) && Offered(form, RenameValue(key, value, name))
    ensures var next, before := Apply(form, RenameValue(key, value, name)), Find(form.conditionals, k);
            && next.parameters == form.parameters && |next.conditionals| == |form.conditionals|
            && (k != key ==> Find(next.conditionals, k) == before)
            && (k == key ==>
                  && Find(next.conditionals, k).Some?
                  && var after := Find(next.conditionals, k).value;
                     && after.name == before.value.name && |after.values| == |before.value.values|
                     && forall i :: 0 <= i < |after.values| ==>
                          var v := before.value.values[i];
                          after.values[i] == Value(v.editKey, if v.editKey == value then name else v.name))
  {
    FindIn(form.conditionals, key);
    var updater := WithValueRenamed(value, name);
    OtherConditionals(form, key, updater, k);
    var previous := Find(form.conditionals, key).value;
    forall v | v in ValueKeys(previous) ensures v in ValueKeys(updater(previous)) {
      var i :| 0 <= i < |previous.values| && ValueKeys(previous)[i] == v;
      assert ValueKeys(updater(previous))[i] == v;
    }
    KeysKept(previous, updater(previous));
    NothingRemoved(form.parameters, []);
  }

  /** Removing a value takes it from its conditional and from every condition, and takes nothing else. */
  lemma RemoveValueEffect(form: Form, key: Key, value: Key, k: Key, v: Key, i: nat)
    requires FormInv(form) && Offered(form, RemoveValue(key, value)) && i < |form.parameters|
    ensures var next, before := Apply(form, RemoveValue(key, value)), Find(form.conditionals, k);
            && |next.parameters| == |form.parameters| && |next.conditionals| == |form.conditionals|
            && (k != key ==> Find(next.conditionals, k) == before)
            && (k == key ==>
                  && Find(next.conditionals, k).Some?
                  && var after := Find(next.conditionals, k).value;
                     && after.name == before.value.name
                     && forall w :: w in after.values <==> w in before.value.values && w.editKey != value)
            && var p, q := form.parameters[i], next.parameters[i];
               && q.editKey == p.editKey && q.name == p.name
               && (HasConditionFor(q.conditions, k) <==> HasConditionFor(p.conditions, k))
               && (AcceptsValue(q.conditions, k, v)
                   <==> && AcceptsValue(p.conditions, k, v)
                        && !(v == value && value in ValueKeys(Find(form.conditionals, key).value)))
  {
    FindIn(form.conditionals, key);
    var previous := Find(form.conditionals, key).value;
    var updater := WithoutValue(value);
    OtherConditionals(form, key, updater, k);
    var removed := Filter((v: Key) => v !in ValueKeys(updater(previous)), ValueKeys(previous));
    RemovedIsValue(previous, value, v);
    MappedAccepts((d: Condition) => WithoutValues(d, removed), form.parameters[i].conditions, k, v);
  }

  /** Removing a conditional takes it and the conditions on it, and nothing else. */
  lemma RemoveConditionalEffect(form: Form, key: Key, k: Key, v: Key, i: nat)
    requires FormInv(form) && i < |form.parameters|
    requires Offered(form, RemoveConditional(key))
    ensures var next := Apply(form, RemoveConditional(key));
            && Find(next.conditionals, k) == (if k == key then None else Find(form.conditionals, k))
            && |next.parameters| == |form.parameters|
            && var p, q := form.parameters[i], next.parameters[i];
               && q.editKey == p.editKey && q.name == p.name
               && (HasConditionFor(q.conditions, k) <==> HasConditionFor(p.conditions, k) && k != key)
               && (AcceptsValue(q.conditions, k, v) <==> AcceptsValue(p.conditions, k, v) && k != key)
  {
    var next, conditions := DropConditional(form, key), form.parameters[i].conditions;
    KeptConditionals(IsNotConditional(key), form.conditionals);
    FindIn(form.conditionals, k);
    FindIn(next.conditionals, k);
    if Find(form.conditionals, k).Some? && k != key {
      FindUnique(next.conditionals, Find(form.conditionals, k).value);
    }
    KeptHas(IsNotOn(key), conditions, k);
    assert HasConditionFor(conditions, k) <==> exists d :: d in conditions && d.key == k by {
      if HasConditionFor(conditions, k) {
        var j :| 0 <= j < |conditions| && conditions[j].key == k;
        assert conditions[j] in conditions;
      }
    }
  }

  /** A new conditional has no name, one value without a name, and keys that were never used. */
  lemma AddConditionalEffect(form: Form)
    requires FormInv(form)
    ensures var next := Apply(form, AddConditional);
            && next.parameters == form.parameters
            && |next.conditionals| == |form.conditionals| + 1
            && next.conditionals[..|form.conditionals|] == form.conditionals
            && var c := next.conditionals[|form.conditionals|];
               && c.name == "" && |c.values| == 1 && c.values[0].name == "" && c.values[0].editKey != c.editKey
               && forall d :: d in form.conditionals ==>
                    d.editKey != c.editKey && c.values[0].editKey !in ValueKeys(d)
  {
    forall d | d in form.conditionals ensures form.nextKey !in ValueKeys(d) {
      assert forall i :: 0 <= i < |d.values| ==> d.values[i] in d.values;
    }
  }

  /** Parameters are added without conditions, removed whole, and renamed without touching anything else. */
  lemma ParameterEffects(form: Form, parameter: Key, name: string, i: nat, p: Parameter)
    requires i < |form.parameters|
    ensures var next := Apply(form, AddParameter);
            && next.conditionals == form.conditionals && |next.parameters| == |form.parameters| + 1
            && next.parameters[..|form.parameters|] == form.parameters
            && next.parameters[|form.parameters|].conditions == [] && next.parameters[|form.parameters|].name == ""
    ensures var next := Apply(form, RemoveParameter(parameter));
            && next.conditionals == form.conditionals
            && (p in next.parameters <==> p in form.parameters && p.editKey != parameter)
    ensures var next, old' := Apply(form, RenameParameter(parameter, name)), form.parameters[i];
            && next.conditionals == form.conditionals && |next.parameters| == |form.parameters|
            && next.parameters[i] == old'.(name := if old'.editKey == parameter then name else old'.name)
  {
  }
}
