/**
 Conditional parameters in the browser, web/js/experiment/ui.js: which are enabled, and which values a form
 submits.
 */
module ExperimentUi {
  import opened Sequences

  /** A form value as JavaScript sees it. */
  datatype Value = Undefined | Null | Text(text: string) | Number(number: real)

  datatype Conditional = Conditional(name: string, values: seq<string>)

  /** `conditions` maps a conditional's name to the values under which the parameter is enabled. */
  datatype Parameter = Parameter(name: string, categorical: bool, conditions: map<string, seq<string>>)

  datatype Experiment = Experiment(conditionals: seq<Conditional>, parameters: seq<Parameter>)

  type Assignments = map<string, Value>

  function Lookup(assignments: Assignments, name: string): Value {
    if name in assignments then assignments[name] else Undefined
  }

  function FindConditional(conditionals: seq<Conditional>, name: string): Option<Conditional> {
    if conditionals == [] then None
    else if conditionals[0].name == name then Some(conditionals[0])
    else FindConditional(conditionals[1..], name)
  }

  predicate Contains(values: seq<string>, v: Value) {
    v.Text? && v.text in values
  }

  /** Every condition names a conditional of the experiment. */
  predicate Wellformed(experiment: Experiment) {
    forall p, c :: p in experiment.parameters && c in p.conditions ==> FindConditional(experiment.conditionals, c).Some?
  }

  /** A conditional that has one of its values must have an accepted one. */
  predicate ParameterEnabled(
    conditionals: seq<Conditional>, assignments: Assignments, conditions: map<string, seq<string>>)
    requires forall c :: c in conditions ==> FindConditional(conditionals, c).Some?
  {
    forall c :: c in conditions ==>
      var given := Lookup(assignments, c);
      Contains(FindConditional(conditionals, c).value.values, given) ==> Contains(conditions[c], given)
  }

  function FindParameter(parameters: seq<Parameter>, name: string): (found: Option<Parameter>)
    ensures found.Some? ==> found.value in parameters && found.value.name == name
    ensures found.None? ==> forall p :: p in parameters ==> p.name != name
  {
    if parameters == [] then None
    else if parameters[0].name == name then Some(parameters[0])
    else
      assert parameters == [parameters[0]] + parameters[1..];
      FindParameter(parameters[1..], name)
  }

  /** Enabled, by name: the conditions that count are those of the first parameter with the name. */
  predicate Enabled(experiment: Experiment, assignments: Assignments, name: string)
    requires Wellformed(experiment) && FindParameter(experiment.parameters, name).Some?
  {
    ParameterEnabled(experiment.conditionals, assignments, FindParameter(experiment.parameters, name).value.conditions)
  }

  // ---------- What a form submits ----------

  /** How a browser reads a number; no number is blank. */
  type NumberParser = f: string -> Option<real> | f("") == None witness _ => None

  function SanitizeNumber(parse: NumberParser, v: Value): Value {
    match v
    case Text(t) => if parse(t).Some? then Number(parse(t).value) else if t == "" then Null else v
    case _ => v
  }

  function Sanitized(parse: NumberParser, p: Parameter, v: Value): Value {
    if p.categorical then v else SanitizeNumber(parse, v)
  }

  predicate Defined(v: Value) {
    v.Text? || v.Number?
  }

  function ConditionalAssignments(conditionals: seq<Conditional>, assignments: Assignments): Assignments {
    if conditionals == [] then map[]
    else
      var last := conditionals[|conditionals| - 1];
      ConditionalAssignments(conditionals[..|conditionals| - 1], assignments)[last.name :=
        Lookup(assignments, last.name)]
  }

  function ParameterAssignments(
    parse: NumberParser, experiment: Experiment, n: nat, assignments: Assignments): Assignments
    requires Wellformed(experiment) && n <= |experiment.parameters|
  {
    if n == 0 then ConditionalAssignments(experiment.conditionals, assignments)
    else
      var p := experiment.parameters[n - 1];
      var value := Sanitized(parse, p, Lookup(assignments, p.name));
      var before := ParameterAssignments(parse, experiment, n - 1, assignments);
      if Enabled(experiment, assignments, p.name) && Defined(value) then before[p.name := value] else before
  }

  function SanitizeAssignments(parse: NumberParser, experiment: Experiment, assignments: Assignments): Assignments
    requires Wellformed(experiment)
  {
    ParameterAssignments(parse, experiment, |experiment.parameters|, assignments)
  }

  /** The names experiment creation accepts: no parameter name twice, and none that is also a conditional's. */
  predicate DisjointNames(experiment: Experiment) {
    && (forall i, j :: 0 <= i < j < |experiment.parameters| ==>
         experiment.parameters[i].name != experiment.parameters[j].name)
    && (forall i :: 0 <= i < |experiment.parameters| ==>
         FindConditional(experiment.conditionals, experiment.parameters[i].name).None?)
  }

  // ---------- What sanitizing keeps ----------

  lemma {:induction false} FindConditionalAppend(conditionals: seq<Conditional>, last: Conditional, name: string)
    ensures FindConditional(conditionals + [last], name).Some?
       <==> FindConditional(conditionals, name).Some? || last.name == name
  {
    if conditionals != [] {
      assert (conditionals + [last])[1..] == conditionals[1..] + [last];
      FindConditionalAppend(conditionals[1..], last, name);
    }
  }

  lemma {:induction false} ConditionalsKept(conditionals: seq<Conditional>, assignments: Assignments, name: string)
    ensures var kept := ConditionalAssignments(conditionals, assignments);
            && (name in kept <==> FindConditional(conditionals, name).Some?)
            && (name in kept ==> kept[name] == Lookup(assignments, name))
  {
    if conditionals != [] {
      var k := |conditionals| - 1;
      ConditionalsKept(conditionals[..k], assignments, name);
      assert conditionals == conditionals[..k] + [conditionals[k]];
      FindConditionalAppend(conditionals[..k], conditionals[k], name);
    }
  }

  /** A name that no parameter has is left as the conditionals make it. */
  lemma {:induction false} OtherNames(
    parse: NumberParser, experiment: Experiment, n: nat, assignments: Assignments, name: string)
    requires Wellformed(experiment) && n <= |experiment.parameters|
    requires forall i :: 0 <= i < n ==> experiment.parameters[i].name != name
    ensures var result := ParameterAssignments(parse, experiment, n, assignments);
            && (name in result <==> FindConditional(experiment.conditionals, name).Some?)
            && (name in result ==> result[name] == Lookup(assignments, name))
  {
    if n == 0 {
      ConditionalsKept(experiment.conditionals, assignments, name);
    } else {
      OtherNames(parse, experiment, n - 1, assignments, name);
    }
  }

  /** What a parameter makes of its name. */
  lemma {:induction false} ParameterName(
    parse: NumberParser, experiment: Experiment, n: nat, assignments: Assignments, i: nat)
    requires Wellformed(experiment) && i < n <= |experiment.parameters|
    requires FindConditional(experiment.conditionals, experiment.parameters[i].name).None?
    requires forall j :: 0 <= j < n && j != i ==> experiment.parameters[j].name != experiment.parameters[i].name
    ensures var p, result := experiment.parameters[i], ParameterAssignments(parse, experiment, n, assignments);
            var value := Sanitized(parse, p, Lookup(assignments, p.name));
            && (p.name in result <==> Enabled(experiment, assignments, p.name) && Defined(value))
            && (p.name in result ==> result[p.name] == value)
  {
    if i < n - 1 {
      ParameterName(parse, experiment, n - 1, assignments, i);
    } else {
      OtherNames(parse, experiment, n - 1, assignments, experiment.parameters[i].name);
    }
  }

  /** Sanitizing never enables or disables a parameter. */
  lemma SanitizeKeepsEnabled(parse: NumberParser, experiment: Experiment, assignments: Assignments, name: string)
    requires Wellformed(experiment) && DisjointNames(experiment) && FindParameter(experiment.parameters, name).Some?
    ensures Enabled(experiment, SanitizeAssignments(parse, experiment, assignments), name)
       <==> Enabled(experiment, assignments, name)
  {
    var result, conditions :=
      SanitizeAssignments(parse, experiment, assignments), FindParameter(experiment.parameters, name).value.conditions;
    forall c | c in conditions ensures Lookup(result, c) == Lookup(assignments, c) {
      OtherNames(parse, experiment, |experiment.parameters|, assignments, c);
    }
  }

  /**
   A parameter is submitted exactly when it is enabled and its value is defined; conditionals are submitted as
   they are.
   */
  lemma SubmitsExactlyEnabled(parse: NumberParser, experiment: Experiment, assignments: Assignments, name: string)
    requires Wellformed(experiment) && DisjointNames(experiment)
    ensures var result := SanitizeAssignments(parse, experiment, assignments);
            match FindParameter(experiment.parameters, name)
            case Some(p) =>
              var value := Sanitized(parse, p, Lookup(assignments, name));
              && (name in result <==> Enabled(experiment, assignments, name) && Defined(value))
              && (name in result ==> result[name] == value)
            case None =>
              && (name in result <==> FindConditional(experiment.conditionals, name).Some?)
              && (name in result ==> result[name] == Lookup(assignments, name))
  {
    var found := FindParameter(experiment.parameters, name);
    if found.Some? {
      var i :| 0 <= i < |experiment.parameters| && experiment.parameters[i] == found.value;
      ParameterName(parse, experiment, |experiment.parameters|, assignments, i);
    } else {
      OtherNames(parse, experiment, |experiment.parameters|, assignments, name);
    }
  }

  lemma SanitizedTwice(parse: NumberParser, p: Parameter, v: Value)
    ensures Sanitized(parse, p, Sanitized(parse, p, v)) == Sanitized(parse, p, v)
  {
  }

  /** Sanitizing what has been sanitized changes nothing. */
  lemma SanitizeIdempotent(parse: NumberParser, experiment: Experiment, assignments: Assignments)
    requires Wellformed(experiment) && DisjointNames(experiment)
    ensures var result := SanitizeAssignments(parse, experiment, assignments);
            SanitizeAssignments(parse, experiment, result) == result
  {
    var once := SanitizeAssignments(parse, experiment, assignments);
    var twice := SanitizeAssignments(parse, experiment, once);
    forall name ensures (name in twice <==> name in once) && (name in once ==> twice[name] == once[name]) {
      SameWhenSanitizedTwice(parse, experiment, assignments, name);
    }
  }

  lemma SameWhenSanitizedTwice(parse: NumberParser, experiment: Experiment, assignments: Assignments, name: string)
    requires Wellformed(experiment) && DisjointNames(experiment)
    ensures var once := SanitizeAssignments(parse, experiment, assignments);
            var twice := SanitizeAssignments(parse, experiment, once);
            (name in twice <==> name in once) && (name in once ==> twice[name] == once[name])
  {
    var once := SanitizeAssignments(parse, experiment, assignments);
    SubmitsExactlyEnabled(parse, experiment, assignments, name);
    SubmitsExactlyEnabled(parse, experiment, once, name);
    var found := FindParameter(experiment.parameters, name);
    if found.Some? {
      SanitizeKeepsEnabled(parse, experiment, assignments, name);
      SanitizedTwice(parse, found.value, Lookup(assignments, name));
    }
  }

  /**
   What becomes of the value of an enabled parameter: text of a categorical one is submitted as it is; of any other it
   is read as a number if it is one, and left out if it is blank; a number is submitted, and nothing else is.
   */
  lemma SubmittedValue(parse: NumberParser, experiment: Experiment, assignments: Assignments, p: Parameter)
    requires Wellformed(experiment) && DisjointNames(experiment) && p in experiment.parameters
    requires ParameterEnabled(experiment.conditionals, assignments, p.conditions)
    ensures var result := SanitizeAssignments(parse, experiment, assignments);
            match Lookup(assignments, p.name)
            case Undefined => p.name !in result
            case Null => p.name !in result
            case Number(n) => p.name in result && result[p.name] == Number(n)
            case Text(t) =>
              if !p.categorical && parse(t).Some? then p.name in result && result[p.name] == Number(parse(t).value)
              else if !p.categorical && t == "" then p.name !in result
              else p.name in result && result[p.name] == Text(t)
  {
    OwnParameter(experiment, p);
    SubmitsExactlyEnabled(parse, experiment, assignments, p.name);
  }

  lemma OwnParameter(experiment: Experiment, p: Parameter)
    requires DisjointNames(experiment) && p in experiment.parameters
    ensures FindParameter(experiment.parameters, p.name) == Some(p)
  {
    var found := FindParameter(experiment.parameters, p.name).value;
    var i :| 0 <= i < |experiment.parameters| && experiment.parameters[i] == p;
    var j :| 0 <= j < |experiment.parameters| && experiment.parameters[j] == found;
  }
}
