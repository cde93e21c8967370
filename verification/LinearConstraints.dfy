/**
 Named linear constraints compiled to numbers: src/python/zigopt/experiment/constraints.py.
 The reference meaning of a constraint is the check an assignment has to pass,
 src/python/zigopt/handlers/validate/assignments.py. Coefficients and points are real.
 */
module LinearConstraints {
  import opened Sequences

  datatype ConstraintType = GreaterThan | LessThan

  datatype Term = Term(name: string, coeff: real)

  datatype Constraint = Constraint(kind: ConstraintType, terms: seq<Term>, rhs: real)

  datatype ParameterType = Double | Integer | Categorical

  datatype Parameter = Parameter(name: string, kind: ParameterType, minimum: real, maximum: real)

  /** A value for every name. */
  type Point = string -> real

  // ---------- Meaning ----------

  function TermSum(terms: seq<Term>, x: Point): real {
    if terms == [] then 0.0
    else TermSum(terms[..|terms| - 1], x) + terms[|terms| - 1].coeff * x(terms[|terms| - 1].name)
  }

  /** `constraint_satisfied`, which every reported assignment goes through. */
  predicate Satisfied(constraint: Constraint, x: Point) {
    match constraint.kind
    case GreaterThan => TermSum(constraint.terms, x) >= constraint.rhs
    case LessThan => TermSum(constraint.terms, x) <= constraint.rhs
  }

  predicate WithinBounds(p: Parameter, x: Point) {
    p.minimum <= x(p.name) <= p.maximum
  }

  /** The point passes every constraint and the bounds of every constrained parameter. */
  predicate Feasible(constraints: seq<Constraint>, constrained: seq<Parameter>, x: Point) {
    && (forall i :: 0 <= i < |constraints| ==> Satisfied(constraints[i], x))
    && (forall k :: 0 <= k < |constrained| ==> WithinBounds(constrained[k], x))
  }

  predicate Names(parameters: seq<Parameter>, name: string) {
    exists k :: 0 <= k < |parameters| && parameters[k].name == name
  }

  predicate DistinctParameters(parameters: seq<Parameter>) {
    forall j, k :: 0 <= j < k < |parameters| ==> parameters[j].name != parameters[k].name
  }

  predicate DistinctTerms(terms: seq<Term>) {
    forall j, k :: 0 <= j < k < |terms| ==> terms[j].name != terms[k].name
  }

  /** What experiment creation accepts: no variable twice in a constraint, and only known parameters. */
  predicate Validated(constraints: seq<Constraint>, parameters: seq<Parameter>) {
    && DistinctParameters(parameters)
    && forall i :: 0 <= i < |constraints| ==>
         && DistinctTerms(constraints[i].terms)
         && forall t :: t in constraints[i].terms ==> Names(parameters, t.name)
  }

  // ---------- Compilation ----------

  /** The dictionary a list of terms builds: a repeated name keeps its last coefficient. */
  function CoefMap(terms: seq<Term>): map<string, real> {
    if terms == [] then map[]
    else CoefMap(terms[..|terms| - 1])[terms[|terms| - 1].name := terms[|terms| - 1].coeff]
  }

  function Weight(coefs: map<string, real>, name: string): real {
    if name in coefs then coefs[name] else 0.0
  }

  function Coefficient(terms: seq<Term>, name: string): real {
    Weight(CoefMap(terms), name)
  }

  /** The value times the sign that turns a less-than constraint around. */
  function Signed(constraint: Constraint, value: real): real {
    if constraint.kind == LessThan then -value else value
  }

  predicate IsConstrained(constraints: seq<Constraint>, name: string) {
    exists i, k :: 0 <= i < |constraints| && 0 <= k < |constraints[i].terms| && constraints[i].terms[k].name == name
  }

  function ConstrainedParameters(constraints: seq<Constraint>, parameters: seq<Parameter>): seq<Parameter> {
    if parameters == [] then []
    else
      var last := parameters[|parameters| - 1];
      ConstrainedParameters(constraints, parameters[..|parameters| - 1])
      + (if IsConstrained(constraints, last.name) then [last] else [])
  }

  /** The matrix in the form [A; -b]: first a row for each constraint, then two for each constrained parameter. */
  function Entry(constraints: seq<Constraint>, ps: seq<Parameter>, i: nat, j: nat): real
    requires i < |constraints| + 2 * |ps| && j <= |ps|
  {
    if i < |constraints| then
      var c := constraints[i];
      if j == |ps| then Signed(c, c.rhs) else -Signed(c, Coefficient(c.terms, ps[j].name))
    else
      var index, lower := (i - |constraints|) / 2, (i - |constraints|) % 2 == 0;
      if j == |ps| then (if lower then ps[index].minimum else -ps[index].maximum)
      else if j != index then 0.0
      else if lower then -1.0 else 1.0
  }

  /** A·x plus the last column of one row, over the first `dim` columns. */
  function RowDot(h: array2<real>, i: nat, ps: seq<Parameter>, dim: nat, x: Point): real
    reads h
    requires i < h.Length0 && dim <= |ps| && |ps| < h.Length1
  {
    if dim == 0 then 0.0 else RowDot(h, i, ps, dim - 1, x) + h[i, dim - 1] * x(ps[dim - 1].name)
  }

  predicate RowHolds(h: array2<real>, i: nat, ps: seq<Parameter>, x: Point)
    reads h
    requires i < h.Length0 && h.Length1 == |ps| + 1
  {
    RowDot(h, i, ps, |ps|, x) + h[i, |ps|] <= 0.0
  }

  /** The point solves the stacked inequalities A·x <= b. */
  predicate InAllHalfspaces(h: array2<real>, ps: seq<Parameter>, x: Point)
    reads h
  {
    h.Length1 == |ps| + 1 && forall i :: 0 <= i < h.Length0 ==> RowHolds(h, i, ps, x)
  }

  method ParseConstraintsToHalfspaces(constraints: seq<Constraint>, parameters: seq<Parameter>)
    returns (halfspaces: array2<real>)
    ensures var ps := ConstrainedParameters(constraints, parameters);
            halfspaces.Length0 == 2 * |ps| + |constraints| && halfspaces.Length1 == |ps| + 1
    ensures forall i, j :: 0 <= i < halfspaces.Length0 && 0 <= j < halfspaces.Length1 ==>
              halfspaces[i, j] == Entry(constraints, ConstrainedParameters(constraints, parameters), i, j)
    ensures Validated(constraints, parameters) ==> forall x: Point ::
              InAllHalfspaces(halfspaces, ConstrainedParameters(constraints, parameters), x)
              <==> Feasible(constraints, ConstrainedParameters(constraints, parameters), x)
  {
    var ps := ConstrainedParameters(constraints, parameters);
    var dim, n := |ps|, |constraints|;
    halfspaces := new real[2 * dim + n, dim + 1]((i, j) => 0.0);

    for ic := 0 to n
      invariant forall i, j :: 0 <= i < ic && 0 <= j <= dim ==> halfspaces[i, j] == Entry(constraints, ps, i, j)
      invariant forall i, j :: ic <= i < 2 * dim + n && 0 <= j <= dim ==> halfspaces[i, j] == 0.0
    {
      FillConstraintRow(halfspaces, constraints, ps, ic);
    }
    for index := 0 to dim
      invariant forall i, j :: 0 <= i < n + 2 * index && 0 <= j <= dim ==>
                  halfspaces[i, j] == Entry(constraints, ps, i, j)
      invariant forall i, j :: n + 2 * index <= i < 2 * dim + n && 0 <= j <= dim ==> halfspaces[i, j] == 0.0
    {
      var imin, imax := n + 2 * index, n + 2 * index + 1;
      halfspaces[imin, dim] := ps[index].minimum;
      halfspaces[imax, dim] := -ps[index].maximum;
      halfspaces[imin, index] := -1.0;
      halfspaces[imax, index] := 1.0;
    }

    if Validated(constraints, parameters) {
      forall x: Point ensures InAllHalfspaces(halfspaces, ps, x) <==> Feasible(constraints, ps, x) {
        HalfspacesMeanConstraints(halfspaces, constraints, parameters, x);
      }
    }
  }

  method FillConstraintRow(halfspaces: array2<real>, constraints: seq<Constraint>, ps: seq<Parameter>, ic: nat)
    requires ic < |constraints| && halfspaces.Length0 == 2 * |ps| + |constraints| && halfspaces.Length1 == |ps| + 1
    requires forall j :: 0 <= j <= |ps| ==> halfspaces[ic, j] == 0.0
    modifies halfspaces
    ensures forall j :: 0 <= j <= |ps| ==> halfspaces[ic, j] == Entry(constraints, ps, ic, j)
    ensures forall i, j :: 0 <= i < halfspaces.Length0 && i != ic && 0 <= j <= |ps| ==>
              halfspaces[i, j] == old(halfspaces[i, j])
  {
    var constraint := constraints[ic];
    var sign := if constraint.kind == LessThan then -1.0 else 1.0;
    halfspaces[ic, |ps|] := sign * constraint.rhs;
    var nonzeroCoefMap := CoefMap(constraint.terms);
    for ip := 0 to |ps|
      invariant halfspaces[ic, |ps|] == Entry(constraints, ps, ic, |ps|)
      invariant forall j :: 0 <= j < ip ==> halfspaces[ic, j] == Entry(constraints, ps, ic, j)
      invariant forall j :: ip <= j < |ps| ==> halfspaces[ic, j] == 0.0
      invariant forall i, j :: 0 <= i < halfspaces.Length0 && i != ic && 0 <= j <= |ps| ==>
                  halfspaces[i, j] == old(halfspaces[i, j])
    {
      if ps[ip].name in nonzeroCoefMap {
        halfspaces[ic, ip] := -sign * nonzeroCoefMap[ps[ip].name];
      }
    }
  }

  // ---------- The sum over terms is the dot product in parameter order ----------

  function WeightedSum(coefs: map<string, real>, ps: seq<Parameter>, x: Point): real {
    if ps == [] then 0.0
    else
      var name := ps[|ps| - 1].name;
      WeightedSum(coefs, ps[..|ps| - 1], x) + Weight(coefs, name) * x(name)
  }

  lemma {:induction false} WeightedSumUpdate(
    coefs: map<string, real>, ps: seq<Parameter>, name: string, coeff: real, x: Point)
    requires DistinctParameters(ps) && name !in coefs
    ensures WeightedSum(coefs[name := coeff], ps, x)
         == WeightedSum(coefs, ps, x) + (if Names(ps, name) then coeff * x(name) else 0.0)
  {
    if ps != [] {
      var init, last := ps[..|ps| - 1], ps[|ps| - 1];
      WeightedSumUpdate(coefs, init, name, coeff, x);
      assert Names(ps, name) <==> Names(init, name) || last.name == name by {
        if Names(init, name) {
          var k :| 0 <= k < |init| && init[k].name == name;
          assert ps[k].name == name;
        }
        if Names(ps, name) && last.name != name {
          var k :| 0 <= k < |ps| && ps[k].name == name;
          assert init[k].name == name;
        }
      }
    }
  }

  lemma {:induction false} CoefMapNames(terms: seq<Term>, name: string)
    ensures name in CoefMap(terms) <==> exists k :: 0 <= k < |terms| && terms[k].name == name
  {
    if terms != [] {
      var init, last := terms[..|terms| - 1], terms[|terms| - 1];
      CoefMapNames(init, name);
      if exists k :: 0 <= k < |init| && init[k].name == name {
        var k :| 0 <= k < |init| && init[k].name == name;
        assert terms[k].name == name;
      }
      if name in CoefMap(terms) && name != last.name {
        var k :| 0 <= k < |init| && init[k].name == name;
        assert terms[k].name == name;
      }
      if exists k :: 0 <= k < |terms| && terms[k].name == name {
        var k :| 0 <= k < |terms| && terms[k].name == name;
        if k < |init| {
          assert init[k].name == name;
        }
      }
    }
  }

  lemma {:induction false} TermSumIsWeightedSum(terms: seq<Term>, ps: seq<Parameter>, x: Point)
    requires DistinctTerms(terms) && DistinctParameters(ps)
    requires forall t :: t in terms ==> Names(ps, t.name)
    ensures TermSum(terms, x) == WeightedSum(CoefMap(terms), ps, x)
  {
    if terms == [] {
      EmptyWeightedSum(ps, x);
    } else {
      var init, last := terms[..|terms| - 1], terms[|terms| - 1];
      TermSumIsWeightedSum(init, ps, x);
      CoefMapNames(init, last.name);
      assert last in terms;
      WeightedSumUpdate(CoefMap(init), ps, last.name, last.coeff, x);
      assert CoefMap(terms) == CoefMap(init)[last.name := last.coeff];
    }
  }

  lemma {:induction false} EmptyWeightedSum(ps: seq<Parameter>, x: Point)
    ensures WeightedSum(map[], ps, x) == 0.0
  {
    if ps != [] {
      EmptyWeightedSum(ps[..|ps| - 1], x);
    }
  }

  // ---------- Which parameters get a column ----------

  /** The columns are the parameters, that some term names. */
  lemma {:induction false} ConstrainedColumns(constraints: seq<Constraint>, parameters: seq<Parameter>, name: string)
    requires DistinctParameters(parameters)
    ensures var ps := ConstrainedParameters(constraints, parameters);
            && (Names(ps, name) <==>
                  && Names(parameters, name)
                  && exists i, k ::
                       && 0 <= i < |constraints| && 0 <= k < |constraints[i].terms|
                       && constraints[i].terms[k].name == name)
            && (forall p :: p in ps ==> p in parameters)
            && DistinctParameters(ps)
  {
    if parameters != [] {
      var init, last := parameters[..|parameters| - 1], parameters[|parameters| - 1];
      var ps, ps' := ConstrainedParameters(constraints, parameters), ConstrainedParameters(constraints, init);
      ConstrainedColumns(constraints, init, name);
      NamesAppend(init, last, name);
      NamesAppend(ps', last, name);
      assert parameters == init + [last];
      assert ps == if IsConstrained(constraints, last.name) then ps' + [last] else ps';
      forall j | 0 <= j < |ps'| ensures ps'[j].name != last.name {
        assert ps'[j] in init;
      }
    }
  }

  /** The column of a constrained parameter. */
  lemma {:induction false} ColumnOf(constraints: seq<Constraint>, parameters: seq<Parameter>, a: nat) returns (j: nat)
    requires a < |parameters| && IsConstrained(constraints, parameters[a].name)
    ensures j < |ConstrainedParameters(constraints, parameters)|
              && ConstrainedParameters(constraints, parameters)[j] == parameters[a]
  {
    var k := |parameters| - 1;
    if a < k {
      j := ColumnOf(constraints, parameters[..k], a);
    } else {
      j := |ConstrainedParameters(constraints, parameters[..k])|;
    }
  }

  /** The columns keep the order of the parameters. */
  lemma {:induction false} ColumnsInOrder(
    constraints: seq<Constraint>, parameters: seq<Parameter>, a: nat, b: nat) returns (j: nat, k: nat)
    requires a < b < |parameters|
    requires IsConstrained(constraints, parameters[a].name) && IsConstrained(constraints, parameters[b].name)
    ensures var ps := ConstrainedParameters(constraints, parameters);
            j < k < |ps| && ps[j] == parameters[a] && ps[k] == parameters[b]
  {
    var last := |parameters| - 1;
    if b < last {
      j, k := ColumnsInOrder(constraints, parameters[..last], a, b);
    } else {
      j := ColumnOf(constraints, parameters[..last], a);
      k := |ConstrainedParameters(constraints, parameters[..last])|;
    }
  }

  lemma NamesAppend(ps: seq<Parameter>, p: Parameter, name: string)
    ensures Names(ps + [p], name) <==> Names(ps, name) || p.name == name
  {
    var all := ps + [p];
    if Names(ps, name) {
      var k :| 0 <= k < |ps| && ps[k].name == name;
      assert all[k].name == name;
    }
    if p.name == name {
      assert all[|ps|].name == name;
    }
  }

  // ---------- Rows ----------

  ghost predicate Compiled(h: array2<real>, constraints: seq<Constraint>, ps: seq<Parameter>)
    reads h
  {
    && h.Length0 == 2 * |ps| + |constraints| && h.Length1 == |ps| + 1
    && forall i, j :: 0 <= i < h.Length0 && 0 <= j < h.Length1 ==> h[i, j] == Entry(constraints, ps, i, j)
  }

  lemma NegatedProduct(a: real, b: real)
    ensures (-a) * b == -(a * b)
  {
  }

  function Negated(weights: seq<real>): seq<real> {
    seq(|weights|, j requires 0 <= j < |weights| => -weights[j])
  }

  lemma {:induction false} NegatedDot(weights: seq<real>, ps: seq<Parameter>, x: Point)
    requires |weights| == |ps|
    ensures Dot(Negated(weights), ps, x) == -Dot(weights, ps, x)
  {
    if weights != [] {
      var k := |weights| - 1;
      NegatedDot(weights[..k], ps[..k], x);
      assert Negated(weights)[..k] == Negated(weights[..k]);
      NegatedProduct(weights[k], x(ps[k].name));
    }
  }

  lemma {:induction false} RowIsDot(h: array2<real>, row: seq<real>, ps: seq<Parameter>, i: nat, dim: nat, x: Point)
    requires i < h.Length0 && h.Length1 == |ps| + 1 && dim <= |ps| == |row|
    requires forall j :: 0 <= j < |ps| ==> h[i, j] == row[j]
    ensures RowDot(h, i, ps, dim, x) == Dot(row[..dim], ps[..dim], x)
  {
    if dim > 0 {
      RowIsDot(h, row, ps, i, dim - 1, x);
      assert row[..dim][..dim - 1] == row[..dim - 1] && ps[..dim][..dim - 1] == ps[..dim - 1];
    }
  }

  lemma ExplicitRowMeansConstraint(
    h: array2<real>, constraints: seq<Constraint>, parameters: seq<Parameter>, i: nat, x: Point)
    requires Validated(constraints, parameters) && i < |constraints|
    requires Compiled(h, constraints, ConstrainedParameters(constraints, parameters))
    ensures RowHolds(h, i, ConstrainedParameters(constraints, parameters), x) <==> Satisfied(constraints[i], x)
  {
    var ps, terms := ConstrainedParameters(constraints, parameters), constraints[i].terms;
    ConstrainedColumns(constraints, parameters, "");
    forall t | t in terms ensures Names(ps, t.name) {
      var k :| 0 <= k < |terms| && terms[k] == t;
      assert constraints[i].terms[k].name == t.name;
      ConstrainedColumns(constraints, parameters, t.name);
    }
    TermSumIsWeightedSum(terms, ps, x);
    var row := Negated(Weights(constraints[i], ps));
    RowIsDot(h, row, ps, i, |ps|, x);
    NegatedDot(Weights(constraints[i], ps), ps, x);
    WeightsDot(constraints[i], ps, x);
    assert row[..|ps|] == row && ps[..|ps|] == ps;
    assert h[i, |ps|] == Signed(constraints[i], constraints[i].rhs);
  }

  /** A bound row has one nonzero column. */
  lemma {:induction false} BoundRowDot(
    h: array2<real>, constraints: seq<Constraint>, ps: seq<Parameter>, index: nat, dim: nat, x: Point)
    requires Compiled(h, constraints, ps) && index < |ps| && dim <= |ps|
    ensures RowDot(h, |constraints| + 2 * index, ps, dim, x) == if index < dim then -x(ps[index].name) else 0.0
    ensures RowDot(h, |constraints| + 2 * index + 1, ps, dim, x) == if index < dim then x(ps[index].name) else 0.0
  {
    if dim > 0 {
      BoundRowDot(h, constraints, ps, index, dim - 1, x);
    }
  }

  lemma BoundRowsMeanBounds(h: array2<real>, constraints: seq<Constraint>, ps: seq<Parameter>, index: nat, x: Point)
    requires Compiled(h, constraints, ps) && index < |ps|
    ensures RowHolds(h, |constraints| + 2 * index, ps, x) && RowHolds(h, |constraints| + 2 * index + 1, ps, x)
            <==> WithinBounds(ps[index], x)
  {
    BoundRowDot(h, constraints, ps, index, |ps|, x);
  }

  /**
   A point lies in every halfspace exactly when it passes every named constraint and every bound of a constrained
   parameter.
   */
  lemma HalfspacesMeanConstraints(h: array2<real>, constraints: seq<Constraint>, parameters: seq<Parameter>, x: Point)
    requires Validated(constraints, parameters)
    requires Compiled(h, constraints, ConstrainedParameters(constraints, parameters))
    ensures InAllHalfspaces(h, ConstrainedParameters(constraints, parameters), x)
       <==> Feasible(constraints, ConstrainedParameters(constraints, parameters), x)
  {
    ExplicitRows(h, constraints, parameters, x);
    BoundRows(h, constraints, ConstrainedParameters(constraints, parameters), x);
    RowsByKind(h, constraints, ConstrainedParameters(constraints, parameters), x);
  }

  lemma ExplicitRows(h: array2<real>, constraints: seq<Constraint>, parameters: seq<Parameter>, x: Point)
    requires Validated(constraints, parameters)
    requires Compiled(h, constraints, ConstrainedParameters(constraints, parameters))
    ensures forall i :: 0 <= i < |constraints| ==>
              (RowHolds(h, i, ConstrainedParameters(constraints, parameters), x) <==> Satisfied(constraints[i], x))
  {
    forall i | 0 <= i < |constraints|
      ensures RowHolds(h, i, ConstrainedParameters(constraints, parameters), x) <==> Satisfied(constraints[i], x)
    {
      ExplicitRowMeansConstraint(h, constraints, parameters, i, x);
    }
  }

  lemma BoundRows(h: array2<real>, constraints: seq<Constraint>, ps: seq<Parameter>, x: Point)
    requires Compiled(h, constraints, ps)
    ensures forall k :: 0 <= k < |ps| ==>
              (RowHolds(h, |constraints| + 2 * k, ps, x) && RowHolds(h, |constraints| + 2 * k + 1, ps, x)
               <==> WithinBounds(ps[k], x))
  {
    forall k | 0 <= k < |ps|
      ensures RowHolds(h, |constraints| + 2 * k, ps, x) && RowHolds(h, |constraints| + 2 * k + 1, ps, x)
         <==> WithinBounds(ps[k], x)
    {
      BoundRowsMeanBounds(h, constraints, ps, k, x);
    }
  }

  lemma RowsByKind(h: array2<real>, constraints: seq<Constraint>, ps: seq<Parameter>, x: Point)
    requires h.Length0 == 2 * |ps| + |constraints| && h.Length1 == |ps| + 1
    requires forall i :: 0 <= i < |constraints| ==> (RowHolds(h, i, ps, x) <==> Satisfied(constraints[i], x))
    requires forall k :: 0 <= k < |ps| ==>
               (RowHolds(h, |constraints| + 2 * k, ps, x) && RowHolds(h, |constraints| + 2 * k + 1, ps, x)
                <==> WithinBounds(ps[k], x))
    ensures InAllHalfspaces(h, ps, x) <==> Feasible(constraints, ps, x)
  {
    var n := |constraints|;
    if Feasible(constraints, ps, x) {
      forall i | n <= i < h.Length0 ensures RowHolds(h, i, ps, x) {
        var k := (i - n) / 2;
        assert WithinBounds(ps[k], x);
        assert i == n + 2 * k || i == n + 2 * k + 1;
      }
    }
    if InAllHalfspaces(h, ps, x) {
      forall k | 0 <= k < |ps| ensures WithinBounds(ps[k], x) {
        assert RowHolds(h, n + 2 * k, ps, x) && RowHolds(h, n + 2 * k + 1, ps, x);
      }
    }
  }

  // ---------- The function list handed to the optimizer ----------

  datatype Func = Func(weights: seq<real>, rhs: real, kind: Option<ParameterType>)

  datatype FuncList = Funcs(funcs: seq<Func>) | WrongParameterType(constraint: nat)

  function Weights(constraint: Constraint, parameters: seq<Parameter>): seq<real> {
    seq(|parameters|, j requires 0 <= j < |parameters| =>
      Signed(constraint, Coefficient(constraint.terms, parameters[j].name)))
  }

  /** Some weighed parameter is neither a double nor an integer. */
  predicate WeighsCategorical(constraint: Constraint, parameters: seq<Parameter>) {
    exists j :: 0 <= j < |parameters| && parameters[j].name in CoefMap(constraint.terms)
      && parameters[j].kind == Categorical
  }

  predicate NamedIn(constraint: Constraint, name: string) {
    exists k :: 0 <= k < |constraint.terms| && constraint.terms[k].name == name
  }

  /** The type that goes with a constraint: that of the last parameter which some term names, or none. */
  predicate IsKindOfLastNamed(constraint: Constraint, parameters: seq<Parameter>, kind: Option<ParameterType>) {
    match kind
    case None => forall j :: 0 <= j < |parameters| ==> !NamedIn(constraint, parameters[j].name)
    case Some(k) =>
      exists j ::
        && 0 <= j < |parameters| && NamedIn(constraint, parameters[j].name) && parameters[j].kind == k
        && forall later :: j < later < |parameters| ==> !NamedIn(constraint, parameters[later].name)
  }

  lemma {:induction false} LastKindIsLastNamed(constraint: Constraint, parameters: seq<Parameter>)
    ensures IsKindOfLastNamed(constraint, parameters, LastKind(constraint, parameters))
  {
    if parameters != [] {
      var k := |parameters| - 1;
      CoefMapNames(constraint.terms, parameters[k].name);
      LastKindIsLastNamed(constraint, parameters[..k]);
      if NamedIn(constraint, parameters[k].name) {
        assert parameters[k].kind == LastKind(constraint, parameters).value;
      } else if LastKind(constraint, parameters).Some? {
        var j :| && 0 <= j < k && NamedIn(constraint, parameters[..k][j].name)
                 && parameters[..k][j].kind == LastKind(constraint, parameters).value
                 && forall later :: j < later < k ==> !NamedIn(constraint, parameters[..k][later].name);
        forall later | j < later < |parameters| ensures !NamedIn(constraint, parameters[later].name) {
          assert later < k ==> parameters[..k][later] == parameters[later];
        }
        assert parameters[j] == parameters[..k][j];
      } else {
        forall j | 0 <= j < |parameters| ensures !NamedIn(constraint, parameters[j].name) {
          assert j < k ==> parameters[..k][j] == parameters[j];
        }
      }
    }
  }

  /** A constraint weighs a categorical parameter exactly if some term names one. */
  lemma WeighsCategoricalIs(constraint: Constraint, parameters: seq<Parameter>)
    ensures WeighsCategorical(constraint, parameters)
       <==> exists j ::
              0 <= j < |parameters| && parameters[j].kind == Categorical && NamedIn(constraint, parameters[j].name)
  {
    forall j | 0 <= j < |parameters|
      ensures parameters[j].name in CoefMap(constraint.terms) <==> NamedIn(constraint, parameters[j].name)
    {
      CoefMapNames(constraint.terms, parameters[j].name);
    }
  }

  function LastKind(constraint: Constraint, parameters: seq<Parameter>): Option<ParameterType> {
    if parameters == [] then None
    else
      var last := parameters[|parameters| - 1];
      if last.name in CoefMap(constraint.terms)
        then Some(last.kind) else LastKind(constraint, parameters[..|parameters| - 1])
  }

  method ParseExperimentConstraintsToFuncList(
    constraints: seq<Constraint>, parameters: seq<Parameter>) returns (result: FuncList)
    ensures result.WrongParameterType?
       <==> exists i :: 0 <= i < |constraints| && WeighsCategorical(constraints[i], parameters)
    ensures result.WrongParameterType? ==>
              && result.constraint < |constraints| && WeighsCategorical(constraints[result.constraint], parameters)
              && forall i :: 0 <= i < result.constraint ==> !WeighsCategorical(constraints[i], parameters)
    ensures result.Funcs? ==> |result.funcs| == |constraints|
    ensures result.Funcs? ==> forall i :: 0 <= i < |constraints| ==>
              && result.funcs[i].weights == Weights(constraints[i], parameters)
              && result.funcs[i].rhs == Signed(constraints[i], constraints[i].rhs)
              && result.funcs[i].kind == LastKind(constraints[i], parameters)
              && IsKindOfLastNamed(constraints[i], parameters, result.funcs[i].kind)
  {
    var funcs: seq<Func> := [];
    for i := 0 to |constraints|
      invariant |funcs| == i
      invariant forall k :: 0 <= k < i ==> !WeighsCategorical(constraints[k], parameters)
      invariant forall k :: 0 <= k < i ==> IsKindOfLastNamed(constraints[k], parameters, funcs[k].kind)
      invariant forall k :: 0 <= k < i ==>
                  funcs[k] == Func(Weights(constraints[k], parameters), Signed(constraints[k], constraints[k].rhs),
                    LastKind(constraints[k], parameters))
    {
      var vec, kind, ok := ParseTerms(constraints[i], parameters);
      if !ok {
        return WrongParameterType(i);
      }
      LastKindIsLastNamed(constraints[i], parameters);
      var sign := if constraints[i].kind == LessThan then -1.0 else 1.0;
      var weights := seq(|vec|, j requires 0 <= j < |vec| => sign * vec[j]);
      assert weights == Weights(constraints[i], parameters);
      funcs := funcs + [Func(weights, sign * constraints[i].rhs, kind)];
    }
    result := Funcs(funcs);
  }

  method ParseTerms(
    constraint: Constraint, parameters: seq<Parameter>) returns (vec: seq<real>, kind: Option<ParameterType>, ok: bool)
    ensures ok <==> !WeighsCategorical(constraint, parameters)
    ensures ok ==> |vec| == |parameters| && kind == LastKind(constraint, parameters)
    ensures ok ==> forall j :: 0 <= j < |vec| ==> vec[j] == Coefficient(constraint.terms, parameters[j].name)
  {
    var nonzeroCoefMap := CoefMap(constraint.terms);
    vec := seq(|parameters|, _ => 0.0);
    kind := None;
    for index := 0 to |parameters|
      invariant |vec| == |parameters| && kind == LastKind(constraint, parameters[..index])
      invariant forall j :: 0 <= j < index ==> vec[j] == Coefficient(constraint.terms, parameters[j].name)
      invariant forall j :: index <= j < |vec| ==> vec[j] == 0.0
      invariant !WeighsCategorical(constraint, parameters[..index])
    {
      var p := parameters[index];
      assert parameters[..index + 1][..index] == parameters[..index];
      if p.name in nonzeroCoefMap {
        vec := vec[index := nonzeroCoefMap[p.name]];
        if p.kind == Categorical {
          return vec, kind, false;
        }
        kind := Some(p.kind);
      }
      forall j | 0 <= j < index + 1 && parameters[..index + 1][j].name in nonzeroCoefMap
        ensures parameters[j].kind != Categorical {
        if j < index {
          assert parameters[..index][j] == parameters[j];
        }
      }
    }
    assert parameters[..|parameters|] == parameters;
    ok := true;
  }

  function Dot(weights: seq<real>, parameters: seq<Parameter>, x: Point): real
    requires |weights| == |parameters|
  {
    if weights == [] then 0.0
    else
      var k := |weights| - 1;
      Dot(weights[..k], parameters[..k], x) + weights[k] * x(parameters[k].name)
  }

  lemma {:induction false} WeightsDot(constraint: Constraint, parameters: seq<Parameter>, x: Point)
    ensures Dot(Weights(constraint, parameters), parameters, x)
              == Signed(constraint, WeightedSum(CoefMap(constraint.terms), parameters, x))
  {
    if parameters != [] {
      var k := |parameters| - 1;
      WeightsDot(constraint, parameters[..k], x);
      assert Weights(constraint, parameters)[..k] == Weights(constraint, parameters[..k]);
      NegatedProduct(Coefficient(constraint.terms, parameters[k].name), x(parameters[k].name));
    }
  }

  /** The optimizer's form, weights·x >= rhs, means the same constraint. */
  lemma WeightsMeanConstraint(constraint: Constraint, parameters: seq<Parameter>, x: Point)
    requires Validated([constraint], parameters)
    ensures Dot(Weights(constraint, parameters), parameters, x) >= Signed(constraint, constraint.rhs)
       <==> Satisfied(constraint, x)
  {
    assert [constraint][0] == constraint;
    WeightsDot(constraint, parameters, x);
    TermSumIsWeightedSum(constraint.terms, parameters, x);
  }

  /**
   Column by column, an explicit halfspace row is the negation of the weights, and the columns left out weigh
   nothing.
   */
  lemma RowNegatesWeights(constraints: seq<Constraint>, parameters: seq<Parameter>, i: nat, k: nat)
    requires Validated(constraints, parameters) && i < |constraints| && k < |parameters|
    ensures var ps, weight := ConstrainedParameters(constraints, parameters), Weights(constraints[i], parameters)[k];
            && Entry(constraints, ps, i, |ps|) == Signed(constraints[i], constraints[i].rhs)
            && (forall j :: 0 <= j < |ps| && ps[j] == parameters[k] ==> Entry(constraints, ps, i, j) == -weight)
            && (parameters[k] !in ps ==> weight == 0.0)
  {
    var ps, name := ConstrainedParameters(constraints, parameters), parameters[k].name;
    if name in CoefMap(constraints[i].terms) {
      CoefMapNames(constraints[i].terms, name);
      var t :| 0 <= t < |constraints[i].terms| && constraints[i].terms[t].name == name;
      assert IsConstrained(constraints, name);
      ConstrainedColumns(constraints, parameters, name);
      var j :| 0 <= j < |ps| && ps[j].name == name;
      assert ps[j] in parameters;
      assert ps[j] == parameters[k];
    }
  }
}
