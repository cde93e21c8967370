/**
 Conditionals of an experiment: how they are parsed (src/python/zigopt/conditionals/from_json.py,
 src/python/zigopt/parameters/from_json.py) and when the parameters cover every choice of them
 (src/python/zigopt/conditionals/util.py).
 */
module Conditionals {
  import opened Sequences

  datatype ConditionalValue = ConditionalValue(name: string, enumIndex: int)

  datatype Conditional = Conditional(name: string, values: seq<ConditionalValue>)

  /** A parameter is active only under these values of the named conditional. */
  datatype Condition = Condition(name: string, values: seq<int>)

  /** A choice of one value for each conditional, in their order. */
  type Choice = seq<int>

  // ---------- Parsing ----------

  datatype ConditionalJson = ConditionalJson(name: string, values: seq<string>)

  datatype ParseError =
    | DuplicateConditional(name: string)
    | DuplicateValue(value: string)
    | NoValues(name: string)
    | TooFewValues(name: string)
    | UnknownConditional(name: string)
    | UnknownValue(value: string)

  datatype Result<T> = Ok(value: T) | Err(error: ParseError)

  predicate NoRepeats<T(==)>(s: seq<T>) {
    forall i, j :: 0 <= i < j < |s| ==> s[i] != s[j]
  }

  /** The values a conditional is given, numbered from one. */
  function Numbered(names: seq<string>): seq<ConditionalValue> {
    seq(|names|, i requires 0 <= i < |names| => ConditionalValue(names[i], i + 1))
  }

  method SetConditionalValuesFromJson(json: ConditionalJson) returns (result: Result<seq<ConditionalValue>>)
    ensures result.Ok? <==> NoRepeats(json.values) && |json.values| >= 2
    ensures result.Ok? ==> result.value == Numbered(json.values)
    ensures result.Ok? ==>
              && |result.value| == |json.values|
              && forall j :: 0 <= j < |json.values| ==> result.value[j] == ConditionalValue(json.values[j], j + 1)
    ensures json.values == [] ==> result == Err(NoValues(json.name))
    ensures |json.values| == 1 ==> result == Err(TooFewValues(json.name))
    ensures !NoRepeats(json.values) ==> result.Err? && result.error.DuplicateValue? && result.error.value in json.values
  {
    var seenValues: set<string> := {};
    var values: seq<ConditionalValue> := [];
    for i := 0 to |json.values|
      invariant values == Numbered(json.values[..i])
      invariant forall v :: v in seenValues <==> v in json.values[..i]
      invariant NoRepeats(json.values[..i])
    {
      var name := json.values[i];
      values := values + [ConditionalValue(name, i + 1)];
      if name in seenValues {
        var k :| 0 <= k < i && json.values[..i][k] == name;
        assert json.values[k] == json.values[i];
        return Err(DuplicateValue(name));
      }
      seenValues := seenValues + {name};
      assert json.values[..i + 1] == json.values[..i] + [name];
    }
    assert json.values[..|json.values|] == json.values;
    if values == [] {
      return Err(NoValues(json.name));
    }
    if |values| < 2 {
      return Err(TooFewValues(json.name));
    }
    result := Ok(values);
  }

  function ConditionalNames(json: seq<ConditionalJson>): seq<string> {
    seq(|json|, i requires 0 <= i < |json| => json[i].name)
  }

  predicate Acceptable(json: ConditionalJson) {
    NoRepeats(json.values) && |json.values| >= 2
  }

  method SetExperimentConditionalsListFromJson(json: seq<ConditionalJson>) returns (result: Result<seq<Conditional>>)
    ensures result.Ok? <==> NoRepeats(ConditionalNames(json)) && forall i :: 0 <= i < |json| ==> Acceptable(json[i])
    ensures result.Ok? ==> |result.value| == |json| && forall i :: 0 <= i < |json| ==>
              result.value[i] == Conditional(json[i].name, Numbered(json[i].values))
  {
    var seenNames: set<string> := {};
    var conditionals: seq<Conditional> := [];
    for i := 0 to |json|
      invariant |conditionals| == i
      invariant forall k :: 0 <= k < i ==>
                  Acceptable(json[k]) && conditionals[k] == Conditional(json[k].name, Numbered(json[k].values))
      invariant forall n :: n in seenNames <==> n in ConditionalNames(json[..i])
      invariant NoRepeats(ConditionalNames(json[..i]))
    {
      var values := SetConditionalValuesFromJson(json[i]);
      if values.Err? {
        return Err(values.error);
      }
      conditionals := conditionals + [Conditional(json[i].name, values.value)];
      if json[i].name in seenNames {
        var k :| 0 <= k < i && ConditionalNames(json[..i])[k] == json[i].name;
        assert ConditionalNames(json)[k] == ConditionalNames(json)[i];
        return Err(DuplicateConditional(json[i].name));
      }
      seenNames := seenNames + {json[i].name};
      assert ConditionalNames(json[..i + 1]) == ConditionalNames(json[..i]) + [json[i].name];
    }
    assert json[..|json|] == json;
    result := Ok(conditionals);
  }

  function FindConditional(conditionals: seq<Conditional>, name: string): (found: Option<Conditional>)
    ensures found.Some? <==> exists i :: 0 <= i < |conditionals| && conditionals[i].name == name
    ensures found.Some? ==> found.value in conditionals && found.value.name == name
  {
    if conditionals == [] then None
    else if conditionals[0].name == name then Some(conditionals[0])
    else
      var rest := FindConditional(conditionals[1..], name);
      assert rest.Some? ==> rest.value in conditionals[1..];
      assert forall i :: 1 <= i < |conditionals| ==> conditionals[i] == conditionals[1..][i - 1];
      rest
  }

  function FindValue(values: seq<ConditionalValue>, name: string): (found: Option<ConditionalValue>)
    ensures found.Some? ==> found.value in values && found.value.name == name
  {
    if values == [] then None
    else if values[0].name == name then Some(values[0])
    else FindValue(values[1..], name)
  }

  function EnumIndexes(conditional: Conditional): seq<int> {
    seq(|conditional.values|, i requires 0 <= i < |conditional.values| => conditional.values[i].enumIndex)
  }

  /** The values of a condition: a list of names, or one name. */
  datatype ValuesJson = One(name: string) | Many(names: seq<string>)

  /** An empty name says as little as an empty list. */
  function Listed(json: ValuesJson): seq<string> {
    match json
    case One(name) => if name == "" then [] else [name]
    case Many(names) => names
  }

  function AsListed(json: (string, ValuesJson)): (string, seq<string>) {
    (json.0, Listed(json.1))
  }

  /** A condition names a conditional and at least one of its values, and nothing else. */
  predicate Resolvable(condition: (string, seq<string>), conditionals: seq<Conditional>) {
    && condition.1 != []
    && FindConditional(conditionals, condition.0).Some?
    && forall j :: 0 <= j < |condition.1| ==>
         FindValue(FindConditional(conditionals, condition.0).value.values, condition.1[j]).Some?
  }

  /** The condition with each value name replaced by its enum index. */
  predicate ResolvesTo(condition: (string, seq<string>), conditionals: seq<Conditional>, resolved: Condition) {
    && Resolvable(condition, conditionals)
    && resolved.name == condition.0
    && Indexes(FindConditional(conditionals, condition.0).value.values, condition.1, resolved.values)
  }

  /** The enum indexes of value names. */
  predicate Indexes(values: seq<ConditionalValue>, names: seq<string>, indexes: seq<int>) {
    && |indexes| == |names|
    && forall j :: 0 <= j < |names| ==> ConditionalValue(names[j], indexes[j]) in values
  }

  method ResolveValues(values: seq<ConditionalValue>, names: seq<string>) returns (result: Result<seq<int>>)
    ensures result.Ok? <==> forall j :: 0 <= j < |names| ==> FindValue(values, names[j]).Some?
    ensures result.Ok? ==> Indexes(values, names, result.value)
  {
    var indexes: seq<int> := [];
    for j := 0 to |names|
      invariant |indexes| == j
      invariant forall k :: 0 <= k < j ==> FindValue(values, names[k]).Some?
      invariant forall k :: 0 <= k < j ==> ConditionalValue(names[k], indexes[k]) in values
    {
      var value := FindValue(values, names[j]);
      if value.None? {
        return Err(UnknownValue(names[j]));
      }
      assert value.value == ConditionalValue(names[j], value.value.enumIndex);
      indexes := indexes + [value.value.enumIndex];
    }
    result := Ok(indexes);
  }

  method SetParameterConditionsFromJson(conditionsJson: seq<(string, ValuesJson)>, conditionals: seq<Conditional>)
    returns (result: Result<seq<Condition>>)
    ensures result.Ok? <==> forall i :: 0 <= i < |conditionsJson| ==>
              Resolvable(AsListed(conditionsJson[i]), conditionals)
    ensures result.Ok? ==> |result.value| == |conditionsJson|
    ensures result.Ok? ==> forall i :: 0 <= i < |conditionsJson| ==>
              ResolvesTo(AsListed(conditionsJson[i]), conditionals, result.value[i])
  {
    var conditions: seq<Condition> := [];
    for i := 0 to |conditionsJson|
      invariant |conditions| == i
      invariant forall k :: 0 <= k < i ==> ResolvesTo(AsListed(conditionsJson[k]), conditionals, conditions[k])
    {
      var condition := SetConditionFromJson(conditionsJson[i].0, conditionsJson[i].1, conditionals);
      if condition.Err? {
        return Err(condition.error);
      }
      conditions := conditions + [condition.value];
    }
    result := Ok(conditions);
  }

  /** One turn of the loop over the conditions. */
  method SetConditionFromJson(
    name: string, json: ValuesJson, conditionals: seq<Conditional>) returns (result: Result<Condition>)
    ensures result.Ok? <==> Resolvable(AsListed((name, json)), conditionals)
    ensures result.Ok? ==> ResolvesTo(AsListed((name, json)), conditionals, result.value)
  {
    var conditional := FindConditional(conditionals, name);
    if conditional.None? {
      return Err(UnknownConditional(name));
    }
    if json == One("") || json == Many([]) {
      return Err(NoValues(name));
    }
    var valuesJson := if json.Many? then json.names else [json.name];
    var values := ResolveValues(conditional.value.values, valuesJson);
    if values.Err? {
      return Err(values.error);
    }
    result := Ok(Condition(name, values.value));
  }

  /** One name is as good as a list of it, unless it is empty; an empty name or list is refused. */
  lemma OneNameIsAList(conditional: string, name: string, conditionals: seq<Conditional>)
    ensures Resolvable(AsListed((conditional, One(name))), conditionals)
       <==> name != "" && Resolvable(AsListed((conditional, Many([name]))), conditionals)
    ensures !Resolvable(AsListed((conditional, Many([]))), conditionals)
  {
  }

  /** The value found is the first of the name, so a value is found exactly if there is one of the name. */
  lemma {:induction false} FindValueIs(values: seq<ConditionalValue>, name: string)
    ensures FindValue(values, name).Some? <==> exists i :: 0 <= i < |values| && values[i].name == name
  {
    if values != [] {
      FindValueIs(values[1..], name);
      assert forall i :: 1 <= i < |values| ==> values[i] == values[1..][i - 1];
    }
  }

  // ---------- Coverage ----------

  /** The choices an assignment can make. */
  predicate IsChoice(conditionals: seq<Conditional>, choice: Choice) {
    |choice| == |conditionals| && forall i :: 0 <= i < |choice| ==> choice[i] in EnumIndexes(conditionals[i])
  }

  /** The value an assignment that makes this choice has for a name, as `assignments_map.get` finds it. */
  function Assigned(conditionals: seq<Conditional>, choice: Choice, name: string): Option<int>
    requires |choice| == |conditionals|
  {
    if conditionals == [] then None
    else
      var last := |choice| - 1;
      if conditionals[last].name == name
        then Some(choice[last]) else Assigned(conditionals[..last], choice[..last], name)
  }

  /** `parameter_conditions_satisfied`, the check reported assignments go through. */
  predicate ConditionsSatisfied(conditions: seq<Condition>, conditionals: seq<Conditional>, choice: Choice)
    requires |choice| == |conditionals|
  {
    forall i :: 0 <= i < |conditions| ==>
      var assignment := Assigned(conditionals, choice, conditions[i].name);
      assignment.Some? ==> assignment.value in conditions[i].values
  }

  ghost predicate EveryChoiceCovered(parameters: seq<seq<Condition>>, conditionals: seq<Conditional>) {
    forall choice: Choice :: IsChoice(conditionals, choice) ==>
      exists p :: 0 <= p < |parameters| && ConditionsSatisfied(parameters[p], conditionals, choice)
  }

  /** What parsing guarantees: no name or enum index twice, and conditions only list indexes of their conditional. */
  predicate Parsed(parameters: seq<seq<Condition>>, conditionals: seq<Conditional>) {
    && (forall i, j :: 0 <= i < j < |conditionals| ==> conditionals[i].name != conditionals[j].name)
    && (forall i :: 0 <= i < |conditionals| ==> NoRepeats(EnumIndexes(conditionals[i])))
    && (forall p :: 0 <= p < |parameters| ==> ParsedConditions(parameters[p], conditionals))
  }

  predicate ParsedConditions(conditions: seq<Condition>, conditionals: seq<Conditional>) {
    && (forall i, j :: 0 <= i < j < |conditions| ==> conditions[i].name != conditions[j].name)
    && (forall i, k ::
          0 <= i < |conditions| && 0 <= k < |conditionals| && conditions[i].name == conditionals[k].name ==>
            forall v :: v in conditions[i].values ==> v in EnumIndexes(conditionals[k]))
  }

  /** `{x.name: x.values for x in conditions}` */
  function ConditionMap(conditions: seq<Condition>): map<string, seq<int>> {
    if conditions == [] then map[]
    else ConditionMap(conditions[..|conditions| - 1])[conditions[|conditions| - 1].name :=
      conditions[|conditions| - 1].values]
  }

  /** The lists whose product a parameter contributes: its accepted values, or all values where it has no condition. */
  function ConditionalValues(conditions: seq<Condition>, conditionals: seq<Conditional>): seq<seq<int>> {
    seq(|conditionals|, i requires 0 <= i < |conditionals| =>
      if conditionals[i].name in ConditionMap(conditions) then ConditionMap(conditions)[conditionals[i].name]
      else EnumIndexes(conditionals[i]))
  }

  /** `itertools.product`: the last list varies fastest. */
  function Product(lists: seq<seq<int>>): seq<seq<int>> {
    if lists == [] then [[]] else Extend(Product(lists[..|lists| - 1]), lists[|lists| - 1])
  }

  function Extend(prefixes: seq<seq<int>>, values: seq<int>): seq<seq<int>> {
    if prefixes == [] then []
    else
      Extend(prefixes[..|prefixes| - 1], values)
      + seq(|values|, i requires 0 <= i < |values| => prefixes[|prefixes| - 1] + [values[i]])
  }

  predicate PicksFrom(lists: seq<seq<int>>, choice: Choice) {
    |choice| == |lists| && forall i :: 0 <= i < |choice| ==> choice[i] in lists[i]
  }

  lemma {:induction false} ExtendHas(prefixes: seq<seq<int>>, values: seq<int>, choice: Choice)
    ensures choice in Extend(prefixes, values)
       <==> choice != [] && choice[..|choice| - 1] in prefixes && choice[|choice| - 1] in values
  {
    if prefixes != [] {
      var init, last := prefixes[..|prefixes| - 1], prefixes[|prefixes| - 1];
      ExtendHas(init, values, choice);
      var added := seq(|values|, i requires 0 <= i < |values| => last + [values[i]]);
      assert Extend(prefixes, values) == Extend(init, values) + added;
      assert prefixes == init + [last];
      if choice in added {
        var i :| 0 <= i < |values| && added[i] == choice;
        assert choice[..|choice| - 1] == last;
      }
      if choice != [] && choice[..|choice| - 1] == last && choice[|choice| - 1] in values {
        var i :| 0 <= i < |values| && values[i] == choice[|choice| - 1];
        assert choice == last + [values[i]];
        assert added[i] == choice;
      }
    }
  }

  /** A choice picks from lists exactly if all but its last pick from all but the last, and the last from the last. */
  lemma PicksFromLast(lists: seq<seq<int>>, choice: Choice)
    requires lists != []
    ensures PicksFrom(lists, choice)
       <==> choice != []
            && PicksFrom(lists[..|lists| - 1], choice[..|choice| - 1])
            && choice[|choice| - 1] in lists[|lists| - 1]
  {
    var k := |lists| - 1;
    if choice != [] && PicksFrom(lists[..k], choice[..|choice| - 1]) && choice[|choice| - 1] in lists[k] {
      forall i | 0 <= i < |choice| ensures choice[i] in lists[i] {
        assert i < k ==> choice[..k][i] in lists[..k][i];
      }
    }
  }

  lemma {:induction false} ProductHas(lists: seq<seq<int>>, choice: Choice)
    ensures choice in Product(lists) <==> PicksFrom(lists, choice)
  {
    if lists != [] {
      var k := |lists| - 1;
      PicksFromLast(lists, choice);
      ExtendHas(Product(lists[..k]), lists[k], choice);
      if choice != [] {
        ProductHas(lists[..k], choice[..|choice| - 1]);
      }
    }
  }

  // ---------- What a parameter contributes is what the assignment check accepts ----------

  predicate HasCondition(conditions: seq<Condition>, name: string) {
    exists i :: 0 <= i < |conditions| && conditions[i].name == name
  }

  lemma HasConditionAppend(conditions: seq<Condition>, last: Condition, name: string)
    ensures HasCondition(conditions + [last], name) <==> HasCondition(conditions, name) || last.name == name
  {
    var all := conditions + [last];
    if HasCondition(conditions, name) {
      var i :| 0 <= i < |conditions| && conditions[i].name == name;
      assert all[i].name == name;
    }
    if last.name == name {
      assert all[|conditions|].name == name;
    }
  }

  lemma {:induction false} ConditionMapHas(conditions: seq<Condition>, name: string)
    requires forall i, j :: 0 <= i < j < |conditions| ==> conditions[i].name != conditions[j].name
    ensures name in ConditionMap(conditions) <==> HasCondition(conditions, name)
    ensures forall i :: 0 <= i < |conditions| && conditions[i].name == name ==>
              ConditionMap(conditions)[name] == conditions[i].values
  {
    if conditions != [] {
      var init, last := conditions[..|conditions| - 1], conditions[|conditions| - 1];
      ConditionMapHas(init, name);
      assert conditions == init + [last];
      HasConditionAppend(init, last, name);
    }
  }

  lemma {:induction false} AssignedIs(conditionals: seq<Conditional>, choice: Choice, name: string)
    requires |choice| == |conditionals|
    requires forall i, j :: 0 <= i < j < |conditionals| ==> conditionals[i].name != conditionals[j].name
    ensures forall i :: 0 <= i < |conditionals| && conditionals[i].name == name ==>
              Assigned(conditionals, choice, name) == Some(choice[i])
    ensures (forall i :: 0 <= i < |conditionals| ==> conditionals[i].name != name) ==>
              Assigned(conditionals, choice, name) == None
  {
    if conditionals != [] {
      var last := |choice| - 1;
      AssignedIs(conditionals[..last], choice[..last], name);
    }
  }

  lemma ContributedIffSatisfied(conditions: seq<Condition>, conditionals: seq<Conditional>, choice: Choice)
    requires forall i, j :: 0 <= i < j < |conditionals| ==> conditionals[i].name != conditionals[j].name
    requires ParsedConditions(conditions, conditionals)
    ensures choice in Product(ConditionalValues(conditions, conditionals))
       <==> IsChoice(conditionals, choice) && ConditionsSatisfied(conditions, conditionals, choice)
  {
    var lists := ConditionalValues(conditions, conditionals);
    ProductHas(lists, choice);
    if |choice| == |conditionals| {
      forall k | 0 <= k < |conditionals|
        ensures Assigned(conditionals, choice, conditionals[k].name) == Some(choice[k])
        ensures conditionals[k].name !in ConditionMap(conditions) ==> lists[k] == EnumIndexes(conditionals[k])
      {
        AssignedIs(conditionals, choice, conditionals[k].name);
      }
      if PicksFrom(lists, choice) {
        PickedIsSatisfied(conditions, conditionals, choice);
      }
      if IsChoice(conditionals, choice) && ConditionsSatisfied(conditions, conditionals, choice) {
        forall k | 0 <= k < |choice| ensures choice[k] in lists[k] {
          ConditionMapHas(conditions, conditionals[k].name);
        }
      }
    }
  }

  lemma ConditionValueIsIndex(conditions: seq<Condition>, conditionals: seq<Conditional>, i: nat, k: nat, v: int)
    requires ParsedConditions(conditions, conditionals)
    requires i < |conditions| && k < |conditionals| && conditions[i].name == conditionals[k].name
               && v in conditions[i].values
    ensures v in EnumIndexes(conditionals[k])
  {
  }

  lemma PickedIsSatisfied(conditions: seq<Condition>, conditionals: seq<Conditional>, choice: Choice)
    requires forall i, j :: 0 <= i < j < |conditionals| ==> conditionals[i].name != conditionals[j].name
    requires ParsedConditions(conditions, conditionals)
    requires PicksFrom(ConditionalValues(conditions, conditionals), choice)
    ensures IsChoice(conditionals, choice) && ConditionsSatisfied(conditions, conditionals, choice)
  {
    var lists := ConditionalValues(conditions, conditionals);
    forall k | 0 <= k < |choice| ensures choice[k] in EnumIndexes(conditionals[k]) {
      assert choice[k] in lists[k];
      ConditionMapHas(conditions, conditionals[k].name);
      if conditionals[k].name in ConditionMap(conditions) {
        var i :| 0 <= i < |conditions| && conditions[i].name == conditionals[k].name;
        assert choice[k] in conditions[i].values;
        ConditionValueIsIndex(conditions, conditionals, i, k, choice[k]);
      } else {
        assert lists[k] == EnumIndexes(conditionals[k]);
      }
    }
    forall i | 0 <= i < |conditions|
      ensures var a := Assigned(conditionals, choice, conditions[i].name); a.Some? ==> a.value in conditions[i].values
    {
      AssignedIs(conditionals, choice, conditions[i].name);
      if Assigned(conditionals, choice, conditions[i].name).Some? {
        var k :| 0 <= k < |conditionals| && conditionals[k].name == conditions[i].name;
        ConditionMapHas(conditions, conditions[i].name);
        assert choice[k] in lists[k];
      }
    }
  }

  // ---------- Counting ----------

  function NumChoices(lists: seq<seq<int>>): nat {
    if lists == [] then 1 else NumChoices(lists[..|lists| - 1]) * |lists[|lists| - 1]|
  }

  function AsSet<T(==)>(s: seq<T>): set<T> {
    set x | x in s
  }

  function ExtendBy(prefixes: set<Choice>, value: int): set<Choice> {
    set c | c in prefixes :: c + [value]
  }

  function Cross(prefixes: set<Choice>, values: seq<int>): set<Choice> {
    if values == [] then {} else Cross(prefixes, values[..|values| - 1]) + ExtendBy(prefixes, values[|values| - 1])
  }

  lemma ExtendInjective(c: Choice, d: Choice, value: int)
    ensures c + [value] == d + [value] ==> c == d
  {
    assert (c + [value])[..|c|] == c && (d + [value])[..|d|] == d;
  }

  lemma {:induction false} ExtendBySize(prefixes: set<Choice>, value: int)
    ensures |ExtendBy(prefixes, value)| == |prefixes|
  {
    if prefixes != {} {
      var c :| c in prefixes;
      var rest := prefixes - {c};
      ExtendBySize(rest, value);
      assert ExtendBy(prefixes, value) == ExtendBy(rest, value) + {c + [value]};
      forall d ensures d + [value] == c + [value] ==> d == c {
        ExtendInjective(d, c, value);
      }
    }
  }

  lemma ExtendByHas(prefixes: set<Choice>, value: int, c: Choice)
    ensures c in ExtendBy(prefixes, value) <==> c != [] && c[..|c| - 1] in prefixes && c[|c| - 1] == value
  {
    if c != [] {
      ExtendInjective(c[..|c| - 1], c, value);
      assert c == c[..|c| - 1] + [c[|c| - 1]];
    }
  }

  lemma {:induction false} CrossHas(prefixes: set<Choice>, values: seq<int>, c: Choice)
    ensures c in Cross(prefixes, values) <==> c != [] && c[..|c| - 1] in prefixes && c[|c| - 1] in values
  {
    if values != [] {
      CrossHas(prefixes, values[..|values| - 1], c);
      ExtendByHas(prefixes, values[|values| - 1], c);
      assert values == values[..|values| - 1] + [values[|values| - 1]];
    }
  }

  lemma OneMore(a: nat, b: nat)
    ensures a * (b + 1) == a * b + a
  {
  }

  lemma {:induction false} CrossSize(prefixes: set<Choice>, values: seq<int>)
    requires NoRepeats(values)
    ensures |Cross(prefixes, values)| == |prefixes| * |values|
  {
    if values != [] {
      var init, last := values[..|values| - 1], values[|values| - 1];
      CrossSize(prefixes, init);
      ExtendBySize(prefixes, last);
      assert Cross(prefixes, init) !! ExtendBy(prefixes, last) by {
        forall c ensures !(c in Cross(prefixes, init) && c in ExtendBy(prefixes, last)) {
          CrossHas(prefixes, init, c);
          ExtendByHas(prefixes, last, c);
        }
      }
      OneMore(|prefixes|, |init|);
    }
  }

  /** A product of repetition-free lists has as many distinct elements as the lengths multiply to. */
  lemma {:induction false} ProductSize(lists: seq<seq<int>>)
    requires forall i :: 0 <= i < |lists| ==> NoRepeats(lists[i])
    ensures |AsSet(Product(lists))| == NumChoices(lists)
  {
    if lists == [] {
      assert AsSet(Product(lists)) == {[]};
    } else {
      var k := |lists| - 1;
      ProductSize(lists[..k]);
      var prefixes := AsSet(Product(lists[..k]));
      CrossSize(prefixes, lists[k]);
      assert AsSet(Product(lists)) == Cross(prefixes, lists[k]) by {
        forall c ensures c in AsSet(Product(lists)) <==> c in Cross(prefixes, lists[k]) {
          ExtendHas(Product(lists[..k]), lists[k], c);
          CrossHas(prefixes, lists[k], c);
        }
      }
    }
  }

  lemma SubsetOfSameSize<T>(a: set<T>, b: set<T>)
    requires a <= b && |a| == |b|
    ensures a == b
  {
    assert b == a + (b - a);
    assert |b| == |a| + |b - a|;
  }

  function AllValues(conditionals: seq<Conditional>): seq<seq<int>> {
    seq(|conditionals|, i requires 0 <= i < |conditionals| => EnumIndexes(conditionals[i]))
  }

  /** The set the check collects over the first `n` parameters. */
  ghost predicate Collected(found: set<Choice>, parameters: seq<seq<Condition>>, conditionals: seq<Conditional>, n: nat)
    requires n <= |parameters|
  {
    forall c :: c in found <==> exists p :: 0 <= p < n && c in Product(ConditionalValues(parameters[p], conditionals))
  }

  lemma CollectedStep(
    found: set<Choice>, all: set<Choice>, parameters: seq<seq<Condition>>, conditionals: seq<Conditional>, n: nat)
    requires n < |parameters| && Collected(found, parameters, conditionals, n)
    requires forall c :: c in all <==> c in found || c in Product(ConditionalValues(parameters[n], conditionals))
    ensures Collected(all, parameters, conditionals, n + 1)
  {
  }

  ghost predicate Covered(parameters: seq<seq<Condition>>, conditionals: seq<Conditional>, choice: Choice) {
    && |choice| == |conditionals|
    && exists p :: 0 <= p < |parameters| && ConditionsSatisfied(parameters[p], conditionals, choice)
  }

  lemma CollectedAreCovered(
    found: set<Choice>, parameters: seq<seq<Condition>>, conditionals: seq<Conditional>, c: Choice)
    requires Parsed(parameters, conditionals) && Collected(found, parameters, conditionals, |parameters|)
    ensures c in found <==> IsChoice(conditionals, c) && Covered(parameters, conditionals, c)
  {
    forall p | 0 <= p < |parameters|
      ensures c in Product(ConditionalValues(parameters[p], conditionals))
         <==> IsChoice(conditionals, c) && ConditionsSatisfied(parameters[p], conditionals, c)
    {
      ContributedIffSatisfied(parameters[p], conditionals, c);
    }
  }

  /** The counted number of choices is reached exactly when every choice is covered. */
  lemma CountingDecidesCoverage(found: set<Choice>, parameters: seq<seq<Condition>>, conditionals: seq<Conditional>)
    requires Parsed(parameters, conditionals) && Collected(found, parameters, conditionals, |parameters|)
    ensures |found| == NumChoices(AllValues(conditionals)) <==> EveryChoiceCovered(parameters, conditionals)
  {
    var all := AsSet(Product(AllValues(conditionals)));
    ProductSize(AllValues(conditionals));
    forall c: Choice
      ensures c in all <==> IsChoice(conditionals, c)
      ensures c in found <==> IsChoice(conditionals, c) && Covered(parameters, conditionals, c)
    {
      ProductHas(AllValues(conditionals), c);
      CollectedAreCovered(found, parameters, conditionals, c);
    }
    assert found <= all;
    if |found| == |all| {
      SubsetOfSameSize(found, all);
      forall c: Choice | IsChoice(conditionals, c) ensures Covered(parameters, conditionals, c) {
        assert c in all;
      }
    }
    if EveryChoiceCovered(parameters, conditionals) {
      forall c | c in all ensures c in found {
        assert Covered(parameters, conditionals, c);
      }
      assert all == found;
    }
  }

  method ConfigurationsOf(conditions: seq<Condition>, conditionals: seq<Conditional>) returns (product: seq<seq<int>>)
    ensures product == Product(ConditionalValues(conditions, conditionals))
  {
    var conditionalValues: seq<seq<int>> := [];
    for i := 0 to |conditionals|
      invariant conditionalValues == ConditionalValues(conditions, conditionals)[..i]
    {
      var parameterConditions := ConditionMap(conditions);
      if conditionals[i].name in parameterConditions {
        conditionalValues := conditionalValues + [parameterConditions[conditionals[i].name]];
      } else {
        conditionalValues := conditionalValues + [EnumIndexes(conditionals[i])];
      }
    }
    assert conditionalValues == ConditionalValues(conditions, conditionals);
    product := Product(conditionalValues);
  }

  method AddAll(found: set<Choice>, product: seq<Choice>) returns (all: set<Choice>)
    ensures forall c :: c in all <==> c in found || c in product
  {
    all := found;
    for k := 0 to |product|
      invariant forall c :: c in all <==> c in found || c in product[..k]
    {
      all := all + {product[k]};
      assert product[..k + 1] == product[..k] + [product[k]];
    }
    assert product[..|product|] == product;
  }

  method NumConditionalValues(conditionals: seq<Conditional>) returns (numConditionalValues: nat)
    ensures numConditionalValues == NumChoices(AllValues(conditionals))
  {
    numConditionalValues := 1;
    for i := 0 to |conditionals|
      invariant numConditionalValues == NumChoices(AllValues(conditionals[..i]))
    {
      assert AllValues(conditionals[..i + 1])[..i] == AllValues(conditionals[..i]);
      numConditionalValues := numConditionalValues * |conditionals[i].values|;
    }
    assert conditionals[..|conditionals|] == conditionals;
  }

  /** Passes exactly when every choice of conditional values satisfies the conditions of at least one parameter. */
  method CheckAllConditionalValuesSatisfied(
    parameters: seq<seq<Condition>>, conditionals: seq<Conditional>) returns (ok: bool)
    requires Parsed(parameters, conditionals)
    ensures ok <==> EveryChoiceCovered(parameters, conditionals)
  {
    var numConditionalValues := NumConditionalValues(conditionals);
    var satisfied: set<Choice> := {};
    for p := 0 to |parameters|
      invariant Collected(satisfied, parameters, conditionals, p)
    {
      var product := ConfigurationsOf(parameters[p], conditionals);
      var all := AddAll(satisfied, product);
      CollectedStep(satisfied, all, parameters, conditionals, p);
      satisfied := all;
    }
    CountingDecidesCoverage(satisfied, parameters, conditionals);
    ok := |satisfied| == numConditionalValues;
  }

  // ---------- Parsing establishes what the check needs ----------

  lemma ConditionalsParsed(json: seq<ConditionalJson>, conditionals: seq<Conditional>)
    requires NoRepeats(ConditionalNames(json)) && |conditionals| == |json|
    requires forall i :: 0 <= i < |json| ==>
               Acceptable(json[i]) && conditionals[i] == Conditional(json[i].name, Numbered(json[i].values))
    ensures Parsed([], conditionals)
    ensures forall i, j :: 0 <= i < |conditionals| && 0 <= j < |json[i].values| ==>
              j < |conditionals[i].values| && conditionals[i].values[j] == ConditionalValue(json[i].values[j], j + 1)
    ensures forall i, v :: 0 <= i < |conditionals| ==>
              (v in EnumIndexes(conditionals[i]) <==> 1 <= v <= |json[i].values|)
  {
    forall i, j | 0 <= i < j < |conditionals| ensures conditionals[i].name != conditionals[j].name {
      assert ConditionalNames(json)[i] != ConditionalNames(json)[j];
    }
    forall i, v | 0 <= i < |conditionals| ensures v in EnumIndexes(conditionals[i]) <==> 1 <= v <= |json[i].values| {
      if 1 <= v <= |json[i].values| {
        assert EnumIndexes(conditionals[i])[v - 1] == v;
      }
    }
  }

  /** A JSON object has no key twice, so neither do the conditions of a parameter. */
  lemma ConditionsParsed(json: seq<(string, seq<string>)>, conditionals: seq<Conditional>, conditions: seq<Condition>)
    requires Parsed([], conditionals) && |conditions| == |json|
    requires forall i, j :: 0 <= i < j < |json| ==> json[i].0 != json[j].0
    requires forall i :: 0 <= i < |json| ==> ResolvesTo(json[i], conditionals, conditions[i])
    ensures ParsedConditions(conditions, conditionals)
  {
    forall i, k | 0 <= i < |conditions| && 0 <= k < |conditionals| && conditions[i].name == conditionals[k].name
      ensures forall v :: v in conditions[i].values ==> v in EnumIndexes(conditionals[k])
    {
      assert ResolvesTo(json[i], conditionals, conditions[i]);
      var found := FindConditional(conditionals, json[i].0).value;
      var m :| 0 <= m < |conditionals| && conditionals[m] == found;
      assert m == k;
      forall v | v in conditions[i].values ensures v in EnumIndexes(found) {
        var j :| 0 <= j < |conditions[i].values| && conditions[i].values[j] == v;
        var t :| 0 <= t < |found.values| && found.values[t] == ConditionalValue(json[i].1[j], v);
        assert EnumIndexes(found)[t] == v;
      }
    }
  }
}
