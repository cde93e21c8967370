/**
 An experiment without conditionals (src/python/zigopt/conditionals/util.py) and the value
 array the optimizer reads from it (src/python/zigopt/assignments/model.py). Values are real;
 a categorical value is its enum index.
 */
module UnconditionedExperiments {
  import opened Sequences
  import opened Conditionals

  datatype ParameterType = Double | Integer | Categorical

  datatype Parameter = Parameter(
    name: string,
    kind: ParameterType,
    categoricalValues: seq<int>,
    gridValues: seq<real>,
    maximum: real,
    conditions: seq<Condition>,
    replacement: Option<real>,
    logTransformed: bool)

  type Assignments = map<string, real>

  // ---------- Removing the conditionals ----------

  /** An unset replacement and a replacement of zero are both falsy. */
  predicate NeedsReplacement(p: Parameter) {
    p.conditions != [] && (p.replacement.None? || p.replacement.value == 0.0)
  }

  /** What stands in for the value of an inactive parameter: its last category, last grid value or upper bound. */
  function StandIn(p: Parameter): real
    requires p.kind == Categorical ==> p.categoricalValues != []
  {
    if p.kind == Categorical then p.categoricalValues[|p.categoricalValues| - 1] as real
    else if p.gridValues != [] then p.gridValues[|p.gridValues| - 1]
    else p.maximum
  }

  function ConditionalAsParameter(c: Conditional): Parameter {
    Parameter(c.name, Categorical, EnumIndexes(c), [], 0.0, [], None, false)
  }

  /** A categorical parameter with no category at all has no last one. */
  predicate Convertible(p: Parameter) {
    NeedsReplacement(p) && p.kind == Categorical ==> p.categoricalValues != []
  }

  /** A parameter with conditions and no nonzero replacement gets one; everything else about it stays. */
  predicate ConvertedFrom(p: Parameter, converted: Parameter) {
    && Convertible(p)
    && converted == p.(replacement := converted.replacement)
    && match (p.conditions == [] || (p.replacement.Some? && p.replacement.value != 0.0), p.kind)
       case (true, _) => converted.replacement == p.replacement
       case (false, Categorical) => converted.replacement
         == Some(p.categoricalValues[|p.categoricalValues| - 1] as real)
       case (false, _) =>
         converted.replacement == Some(if p.gridValues != [] then p.gridValues[|p.gridValues| - 1] else p.maximum)
  }

  datatype Conversion = Converted(parameters: seq<Parameter>) | NoCategory(name: string)

  method ConvertToUnconditionedExperiment(
    parameters: seq<Parameter>, conditionals: seq<Conditional>) returns (result: Conversion)
    ensures result.Converted? <==> forall k :: 0 <= k < |parameters| ==> Convertible(parameters[k])
    ensures result.Converted? ==> IsConversion(parameters, conditionals, result.parameters)
  {
    var converted := parameters;
    for k := 0 to |parameters|
      invariant |converted| == |parameters|
      invariant forall j :: 0 <= j < k ==> ConvertedFrom(parameters[j], converted[j])
      invariant forall j :: k <= j < |parameters| ==> converted[j] == parameters[j]
    {
      var p := converted[k];
      if p.conditions != [] && (p.replacement.None? || p.replacement.value == 0.0) {
        if p.kind == Categorical {
          if p.categoricalValues == [] {
            return NoCategory(p.name);
          }
          converted := converted[k := p.(replacement := Some(p.categoricalValues[|p.categoricalValues| - 1] as real))];
        } else if p.gridValues != [] {
          converted := converted[k := p.(replacement := Some(p.gridValues[|p.gridValues| - 1]))];
        } else {
          converted := converted[k := p.(replacement := Some(p.maximum))];
        }
      }
    }
    result := Converted(converted
      + seq(|conditionals|, k requires 0 <= k < |conditionals| => ConditionalAsParameter(conditionals[k])));
  }

  // ---------- The value array ----------

  /** The replacement that a name gets: that of the first parameter of the name that has one. */
  function Replacement(parameters: seq<Parameter>, name: string): Option<real> {
    if parameters == [] then None
    else
      var earlier, last := Replacement(parameters[..|parameters| - 1], name), parameters[|parameters| - 1];
      if earlier.Some? then earlier else if last.name == name then last.replacement else None
  }

  /** The value of a name: what is assigned, else its replacement. */
  function ValueOf(assignments: Assignments, parameters: seq<Parameter>, name: string): Option<real> {
    if name in assignments then Some(assignments[name]) else Replacement(parameters, name)
  }

  predicate DistinctNames(parameters: seq<Parameter>) {
    forall j, k :: 0 <= j < k < |parameters| ==> parameters[j].name != parameters[k].name
  }

  lemma {:induction false} OwnReplacement(parameters: seq<Parameter>, j: nat)
    requires DistinctNames(parameters) && j < |parameters|
    ensures Replacement(parameters, parameters[j].name) == parameters[j].replacement
  {
    var init := parameters[..|parameters| - 1];
    if j < |init| {
      OwnReplacement(init, j);
      assert init[j] == parameters[j];
    } else {
      NoReplacement(init, parameters[j].name);
    }
  }

  lemma {:induction false} NoReplacement(parameters: seq<Parameter>, name: string)
    requires forall k :: 0 <= k < |parameters| ==> parameters[k].name != name
    ensures Replacement(parameters, name) == None
  {
    if parameters != [] {
      NoReplacement(parameters[..|parameters| - 1], name);
    }
  }

  /** The base-10 logarithm, of which nothing is assumed. */
  type Log10 = real -> real

  /** The array cell for a value: on the log scale, a log-transformed parameter is seen through its logarithm. */
  function Cell(p: Parameter, value: real, logScale: bool, log10: Log10): real {
    if logScale && p.logTransformed then log10(value) else value
  }

  /**
   Either every parameter has a value and the array lists their cells in order, or the call reports a missing value.
   The array is the one given, or a new one.
   */
  method MakeExperimentAssignmentValueArray(
    assignments: Assignments, parameters: seq<Parameter>, given: array?<real>, logScale: bool, log10: Log10)
    returns (ok: bool, vals: array<real>)
    requires given == null || given.Length == |parameters|
    modifies if given == null then {} else {given}
    ensures if given == null then fresh(vals) else vals == given
    ensures ok <==> forall j :: 0 <= j < |parameters| ==> ValueOf(assignments, parameters, parameters[j].name).Some?
    ensures vals.Length == |parameters|
    ensures ok ==> forall j :: 0 <= j < |parameters| && !(logScale && parameters[j].logTransformed) ==>
              ValueOf(assignments, parameters, parameters[j].name) == Some(vals[j])
    ensures ok ==> forall j :: 0 <= j < |parameters| && logScale && parameters[j].logTransformed ==>
              vals[j] == log10(ValueOf(assignments, parameters, parameters[j].name).value)
    ensures ok ==> forall j :: 0 <= j < |parameters| ==>
              vals[j] == Cell(parameters[j], ValueOf(assignments, parameters, parameters[j].name).value, logScale,
                log10)
  {
    var valuesDict := WithReplacements(assignments, parameters);
    if given == null {
      vals := new real[|parameters|](_ => 0.0);
    } else {
      vals := given;
    }
    for j := 0 to |parameters|
      invariant forall i :: 0 <= i < j ==> ValueOf(assignments, parameters, parameters[i].name).Some?
      invariant forall i :: 0 <= i < j ==>
                  vals[i] == Cell(parameters[i], ValueOf(assignments, parameters, parameters[i].name).value, logScale,
                    log10)
    {
      if parameters[j].name !in valuesDict {
        return false, vals;
      }
      if logScale && parameters[j].logTransformed {
        vals[j] := log10(valuesDict[parameters[j].name]);
      } else {
        vals[j] := valuesDict[parameters[j].name];
      }
    }
    ok := true;
  }

  /** The assignments with the replacements of parameters that have none. */
  method WithReplacements(assignments: Assignments, parameters: seq<Parameter>) returns (valuesDict: Assignments)
    ensures forall n :: n in valuesDict <==> ValueOf(assignments, parameters, n).Some?
    ensures forall n :: n in valuesDict ==> ValueOf(assignments, parameters, n) == Some(valuesDict[n])
  {
    valuesDict := assignments;
    for k := 0 to |parameters|
      invariant forall n :: n in valuesDict <==> ValueOf(assignments, parameters[..k], n).Some?
      invariant forall n :: n in valuesDict ==> ValueOf(assignments, parameters[..k], n) == Some(valuesDict[n])
    {
      var p := parameters[k];
      assert parameters[..k + 1][..k] == parameters[..k];
      if p.name !in valuesDict {
        if p.replacement.Some? {
          valuesDict := valuesDict[p.name := p.replacement.value];
        }
      }
    }
    assert parameters[..|parameters|] == parameters;
  }

  // ---------- No value is missing ----------

  /** The value the optimizer must see for a parameter of the conditional experiment. */
  function Expected(assignments: Assignments, p: Parameter): real
    requires Convertible(p) && (p.conditions == [] ==> p.name in assignments)
  {
    if p.name in assignments then assignments[p.name]
    else if p.replacement.Some? && p.replacement.value != 0.0 then p.replacement.value
    else StandIn(p)
  }

  /** The parameters of an experiment without conditionals, followed by its conditionals. */
  predicate IsConversion(parameters: seq<Parameter>, conditionals: seq<Conditional>, converted: seq<Parameter>) {
    && |converted| == |parameters| + |conditionals|
    && (forall k :: 0 <= k < |parameters| ==> ConvertedFrom(parameters[k], converted[k]))
    && (forall k :: 0 <= k < |conditionals| ==> converted[|parameters| + k] == ConditionalAsParameter(conditionals[k]))
  }

  /** Some of n positions in some order, none twice: sorting, and dropping what is deleted. */
  predicate IsArrangement(order: seq<nat>, n: nat) {
    (forall j :: 0 <= j < |order| ==> order[j] < n) && forall i, j :: 0 <= i < j < |order| ==> order[i] != order[j]
  }

  function Arranged(parameters: seq<Parameter>, order: seq<nat>): seq<Parameter>
    requires IsArrangement(order, |parameters|)
  {
    seq(|order|, j requires 0 <= j < |order| => parameters[order[j]])
  }

  /** The assignment names every conditional and every unconditional parameter in the arrangement. */
  predicate CoversUnconditional(
    assignments: Assignments, parameters: seq<Parameter>, conditionals: seq<Conditional>, order: seq<nat>)
    requires IsArrangement(order, |parameters| + |conditionals|)
  {
    forall j :: 0 <= j < |order| ==>
      if order[j] < |parameters| then parameters[order[j]].conditions == [] ==> parameters[order[j]].name in assignments
      else conditionals[order[j] - |parameters|].name in assignments
  }

  /**
   Removing the conditionals leaves no value missing, in whatever order the experiment keeps its parameters: an
   assignment that is complete for the conditional experiment gives each one the assigned value, its own nonzero
   replacement, or its stand-in.
   */
  lemma UnconditionedValuesAreTotal(
    assignments: Assignments, parameters: seq<Parameter>, conditionals: seq<Conditional>, converted: seq<Parameter>,
    order: seq<nat>, j: nat)
    requires IsConversion(parameters, conditionals, converted) && DistinctNames(converted)
    requires IsArrangement(order, |converted|) && j < |order|
    requires CoversUnconditional(assignments, parameters, conditionals, order)
    ensures ValueOf(assignments, Arranged(converted, order), converted[order[j]].name)
         == Some(if order[j] < |parameters| then Expected(assignments, parameters[order[j]])
                 else assignments[conditionals[order[j] - |parameters|].name])
  {
    var arranged := Arranged(converted, order);
    forall a, b | 0 <= a < b < |arranged| ensures arranged[a].name != arranged[b].name {
      assert order[a] != order[b];
    }
    OwnReplacement(arranged, j);
    if order[j] < |parameters| {
      assert ConvertedFrom(parameters[order[j]], arranged[j]);
    } else {
      assert converted[|parameters| + (order[j] - |parameters|)]
        == ConditionalAsParameter(conditionals[order[j] - |parameters|]);
    }
  }

  /** What the optimizer reads for one position of an arrangement. */
  function ExpectedCell(
    assignments: Assignments, parameters: seq<Parameter>, conditionals: seq<Conditional>, k: nat, logScale: bool,
      log10: Log10): real
    requires k < |parameters| + |conditionals|
    requires k < |parameters| ==>
               Convertible(parameters[k]) && (parameters[k].conditions == [] ==> parameters[k].name in assignments)
    requires k >= |parameters| ==> conditionals[k - |parameters|].name in assignments
  {
    if k < |parameters| then Cell(parameters[k], Expected(assignments, parameters[k]), logScale, log10)
    else assignments[conditionals[k - |parameters|].name]
  }

  lemma ConvertedCell(
    assignments: Assignments, parameters: seq<Parameter>, conditionals: seq<Conditional>, converted: seq<Parameter>,
      order: seq<nat>,
    j: nat, logScale: bool, log10: Log10)
    requires IsConversion(parameters, conditionals, converted) && DistinctNames(converted)
    requires IsArrangement(order, |converted|) && j < |order|
    requires CoversUnconditional(assignments, parameters, conditionals, order)
    ensures var value := ValueOf(assignments, Arranged(converted, order), converted[order[j]].name);
            && value.Some?
            && Cell(converted[order[j]], value.value, logScale, log10)
               == ExpectedCell(assignments, parameters, conditionals, order[j], logScale, log10)
  {
    UnconditionedValuesAreTotal(assignments, parameters, conditionals, converted, order, j);
    if order[j] < |parameters| {
      assert ConvertedFrom(parameters[order[j]], converted[order[j]]);
    } else {
      assert converted[|parameters| + (order[j] - |parameters|)]
        == ConditionalAsParameter(conditionals[order[j] - |parameters|]);
    }
  }

  /** Converted, arranged, and read into an array, on either scale, without a missing value. */
  method ReadUnconditioned(
    assignments: Assignments, parameters: seq<Parameter>, conditionals: seq<Conditional>, order: seq<nat>,
    given: array?<real>, logScale: bool, log10: Log10)
    returns (vals: array<real>)
    requires forall k :: 0 <= k < |parameters| ==> Convertible(parameters[k])
    requires DistinctNames(
               parameters + seq(|conditionals|, k requires 0 <= k < |conditionals| =>
                 ConditionalAsParameter(conditionals[k])))
    requires IsArrangement(order, |parameters| + |conditionals|)
    requires CoversUnconditional(assignments, parameters, conditionals, order)
    requires given == null || given.Length == |order|
    modifies if given == null then {} else {given}
    ensures if given == null then fresh(vals) else vals == given
    ensures vals.Length == |order|
    ensures forall j :: 0 <= j < |order| ==>
              vals[j] == ExpectedCell(assignments, parameters, conditionals, order[j], logScale, log10)
  {
    var experiment := ConvertToUnconditionedExperiment(parameters, conditionals);
    var converted := experiment.parameters;
    ghost var before :=
      parameters + seq(|conditionals|, k requires 0 <= k < |conditionals| => ConditionalAsParameter(conditionals[k]));
    forall j | 0 <= j < |converted| ensures converted[j].name == before[j].name {
      if j >= |parameters| {
        assert converted[|parameters| + (j - |parameters|)] == ConditionalAsParameter(conditionals[j - |parameters|]);
      } else {
        assert ConvertedFrom(parameters[j], converted[j]);
      }
    }
    var arranged := Arranged(converted, order);
    forall j | 0 <= j < |order|
      ensures var value := ValueOf(assignments, arranged, arranged[j].name);
              && value.Some?
              && Cell(arranged[j], value.value, logScale, log10)
                 == ExpectedCell(assignments, parameters, conditionals, order[j], logScale, log10)
    {
      ConvertedCell(assignments, parameters, conditionals, converted, order, j, logScale, log10);
    }
    var ok;
    ok, vals := MakeExperimentAssignmentValueArray(assignments, arranged, given, logScale, log10);
  }

  /** The array handed to the optimizer: a supplied row, always on the log scale. */
  method ExtractArrayForComputationFromAssignments(
    assignments: Assignments, parameters: seq<Parameter>, vals: array<real>, log10: Log10) returns (ok: bool)
    requires vals.Length == |parameters|
    modifies vals
    ensures ok <==> forall j :: 0 <= j < |parameters| ==> ValueOf(assignments, parameters, parameters[j].name).Some?
    ensures ok ==> forall j :: 0 <= j < |parameters| ==>
              vals[j] == Cell(parameters[j], ValueOf(assignments, parameters, parameters[j].name).value, true, log10)
  {
    var row;
    ok, row := MakeExperimentAssignmentValueArray(assignments, parameters, vals, true, log10);
  }
}
