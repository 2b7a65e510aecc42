/** The problem being built: objective, constraints and the variables they
    mention (src/dsl/problem.rs).
 */
module Problem {
  import opened Wrappers
  import opened Tree
  import opened Arena
  import opened Simplify
  import opened Constraints

  /** `LpObjective`. */
  datatype LpObjective = Minimize | Maximize

  /** `LpProblem`. `uniqueName` is the name followed by a random identifier. */
  datatype LpProblem = LpProblem(
    name: string,
    uniqueName: string,
    objectiveType: LpObjective,
    objective: Option<LpExpression>,
    constraints: seq<LpConstraint>)

  /** `LpProblem::new`; the random UUID the source draws is the parameter `id`. */
  function NewProblem(name: string, objective: LpObjective, id: string): (p: LpProblem)
    ensures p.name == name && p.objectiveType == objective
    ensures |p.uniqueName| == |name| + 1 + |id|
    ensures p.uniqueName[..|name|] == name && p.uniqueName[|name|..] == "_" + id
    ensures p.objective.None? && |p.constraints| == 0
  {
    LpProblem(name, name + "_" + id, objective, None, [])
  }

  // variables

  /** `LpProblem::variables` over the first `n` constraints: every variable
      reached from a left-hand side, mapped to the index of the last
      constraint mentioning it and its index in that constraint's arena. */
  function VariablesUpTo(cs: seq<LpConstraint>, n: nat): (r: Result<map<string, (nat, nat)>>)
    requires n <= |cs|
    ensures r.Ok? ==> forall v :: v in r.value ==>
      r.value[v].0 < n && NamesAt(cs[r.value[v].0].lhs.arena, r.value[v].1, v)
    ensures !r.Err?
    ensures (exists k :: 0 <= k < n && cs[k].lhs.root >= |cs[k].lhs.arena|) ==> r.Panic?
  {
    if n == 0 then Ok(map[])
    else
      var lst :- VariablesUpTo(cs, n - 1);
      var c := cs[n - 1];
      VarWalk(c.lhs, c.lhs.root, n - 1, lst, |c.lhs.arena|)
  }

  /** `LpProblem::variables`. A walk longer than its arena repeats an index,
      so the arena's length is enough fuel for every walk that ends. */
  function Variables(p: LpProblem): (r: Result<map<string, (nat, nat)>>)
    ensures r.Ok? ==> forall v :: v in r.value ==>
      r.value[v].0 < |p.constraints| && NamesAt(p.constraints[r.value[v].0].lhs.arena, r.value[v].1, v)
    ensures !r.Err?
    ensures (exists k :: 0 <= k < |p.constraints| && p.constraints[k].lhs.root >= |p.constraints[k].lhs.arena|) ==>
      r.Panic?
  {
    VariablesUpTo(p.constraints, |p.constraints|)
  }

  /** A constraint whose left-hand side `split_off_constant` emptied, such
      as `5.0.ge(3.0)`, makes `variables` panic with `expr_ref_at`'s
      out-of-bound message. */
  lemma EmptiedLhsPanics(p: LpProblem)
    requires |p.constraints| == 1 && p.constraints[0].lhs.arena == []
    ensures Variables(p) == Panic(OutOfBound)
  {
    assert VariablesUpTo(p.constraints, 0) == Ok(map[]);
  }

  predicate AllValid(cs: seq<LpConstraint>) {
    forall k :: 0 <= k < |cs| ==> Valid(cs[k].lhs)
  }

  /** The names `var` collects from the left-hand sides of the constraints. */
  function AllNames(cs: seq<LpConstraint>): set<string>
    requires AllValid(cs)
  {
    if |cs| == 0 then {}
    else
      var last := cs[|cs| - 1];
      assert Valid(last.lhs);
      AllNames(cs[..|cs| - 1]) + VarNames(Denote(last.lhs).value)
  }

  /** When every left-hand side holds a tree, the variables are exactly the
      names met in them. */
  lemma {:induction false} VariablesKeys(cs: seq<LpConstraint>, n: nat)
    requires n <= |cs| && AllValid(cs)
    ensures VariablesUpTo(cs, n).Ok?
    ensures VariablesUpTo(cs, n).value.Keys == AllNames(cs[..n])
  {
    if n > 0 {
      VariablesKeys(cs, n - 1);
      var c := cs[n - 1];
      assert Valid(c.lhs);
      VarWalkKeys(c.lhs, c.lhs.root, n - 1, VariablesUpTo(cs, n - 1).value, |c.lhs.arena|);
      assert cs[..n][..n - 1] == cs[..n - 1];
    }
  }

  /** A variable of the last constraint is mapped to that constraint:
      later constraints overwrite the entries of earlier ones. */
  lemma VariablesLatest(cs: seq<LpConstraint>, n: nat, v: string)
    requires 0 < n <= |cs| && AllValid(cs)
    requires Valid(cs[n - 1].lhs) && v in VarNames(Denote(cs[n - 1].lhs).value)
    ensures VariablesUpTo(cs, n).Ok? && v in VariablesUpTo(cs, n).value
    ensures VariablesUpTo(cs, n).value[v].0 == n - 1
  {
    VariablesKeys(cs, n - 1);
    var c := cs[n - 1];
    VarWalkKeys(c.lhs, c.lhs.root, n - 1, VariablesUpTo(cs, n - 1).value, |c.lhs.arena|);
  }

  // adding constraints and objectives

  /** `add_constraints` (and `problem += constraint`): appends a copy. */
  function AddConstraints(p: LpProblem, c: LpConstraint): (r: LpProblem)
    ensures r.constraints == p.constraints + [c]
    ensures r.(constraints := p.constraints) == p
  {
    p.(constraints := p.constraints + [c])
  }

  /** A new constraint adds the names of its left-hand side to the variables. */
  lemma AddConstraintVariables(p: LpProblem, c: LpConstraint)
    requires AllValid(p.constraints) && Valid(c.lhs)
    ensures Variables(AddConstraints(p, c)).Ok? && Variables(p).Ok?
    ensures Variables(AddConstraints(p, c)).value.Keys
         == Variables(p).value.Keys + VarNames(Denote(c.lhs).value)
  {
    var cs := AddConstraints(p, c).constraints;
    VariablesKeys(cs, |cs|);
    VariablesKeys(p.constraints, |p.constraints|);
    assert cs[..|cs|] == cs;
    assert cs[..|cs| - 1] == p.constraints;
    assert p.constraints[..|p.constraints|] == p.constraints;
  }

  /** The expression an objective becomes before simplification: the new
      expression, plus the current objective when there is one. */
  function Summed(p: LpProblem, expr: LpExpression): (r: Result<LpExpression>)
    ensures p.objective.None? ==> r == Ok(expr)
    ensures p.objective.Some? ==> (r.Ok? <==> Valid(p.objective.value))
    ensures p.objective.Some? && r.Ok? && Valid(expr) ==>
      Denote(r.value) == Some(Comp(Addition, Denote(expr).value, Denote(p.objective.value).value))
  {
    match p.objective
    case Some(e) => MergeClonedArenas(expr, e, Addition)
    case None => Ok(expr)
  }

  /** `add_objective_expression` (and `problem += expression`): the new
      expression, added to the current objective if there is one, simplified,
      with its constant term dropped. */
  function AddObjectiveExpression(p: LpProblem, expr: LpExpression, fmt: real -> string, fuel: nat)
    : (r: Result<LpProblem>)
    ensures r.Ok? ==> r.value.(objective := p.objective) == p && r.value.objective.Some?
    ensures p.objective.None? ==> (r.Ok? <==> Valid(expr) && SimplifyTree(Denote(expr).value, fmt, fuel).Some?)
    ensures p.objective.Some? && Valid(expr) && Valid(p.objective.value) ==>
      (r.Ok? <==> SimplifyTree(Comp(Addition, Denote(expr).value, Denote(p.objective.value).value), fmt, fuel).Some?)
    ensures r.Ok? && Valid(expr) && (p.objective.Some? ==> Valid(p.objective.value)) ==>
      forall env1, env2 ::
        Value(r.value.objective.value, env1) - Value(r.value.objective.value, env2)
        == Objective(p, expr, env1) - Objective(p, expr, env2)
  {
    var merged :- Summed(p, expr);
    var simplified :- SimplifyExpr(merged, fmt, fuel);
    match SplitOffConstant(simplified)
    case Ok((rest, k)) =>
      if Valid(expr) && (p.objective.Some? ==> Valid(p.objective.value)) then
        ObjectiveValue(p, expr, merged, simplified, rest, k, fmt, fuel);
        Ok(p.(objective := Some(rest)))
      else
        Ok(p.(objective := Some(rest)))
    case Err(m) => Err(m)
    case Panic(m) => Panic(m)
  }

  /** What can be added to a problem with `+=`. */
  datatype Addend = ConstraintAddend(c: LpConstraint) | ExpressionAddend(e: LpExpression)

  /** `+=`: a constraint is appended to the constraints and leaves the
      objective alone; an expression becomes part of the objective and leaves
      the constraints alone. */
  function AddAssign(p: LpProblem, a: Addend, fmt: real -> string, fuel: nat): (r: Result<LpProblem>)
    ensures a.ConstraintAddend? ==> r.Ok? && r.value.objective == p.objective
                                    && r.value.constraints == p.constraints + [a.c]
    ensures a.ExpressionAddend? && r.Ok? ==> r.value.constraints == p.constraints && r.value.objective.Some?
    ensures a.ExpressionAddend? && p.objective.None? ==>
      (r.Ok? <==> Valid(a.e) && SimplifyTree(Denote(a.e).value, fmt, fuel).Some?)
    ensures a.ExpressionAddend? && p.objective.Some? && Valid(a.e) && Valid(p.objective.value) ==>
      (r.Ok? <==> SimplifyTree(Comp(Addition, Denote(a.e).value, Denote(p.objective.value).value), fmt, fuel).Some?)
    ensures a.ExpressionAddend? && r.Ok? && Valid(a.e) && (p.objective.Some? ==> Valid(p.objective.value)) ==>
      forall env1, env2 ::
        Value(r.value.objective.value, env1) - Value(r.value.objective.value, env2)
        == Objective(p, a.e, env1) - Objective(p, a.e, env2)
    ensures a.ExpressionAddend? ==> r == AddObjectiveExpression(p, a.e, fmt, fuel)
  {
    match a
    case ConstraintAddend(c) => Ok(AddConstraints(p, c))
    case ExpressionAddend(e) => AddObjectiveExpression(p, e, fmt, fuel)
  }

  /** The value the objective should have after adding `expr`, constant included. */
  function Objective(p: LpProblem, expr: LpExpression, env: map<string, real>): real {
    Value(expr, env) + (if p.objective.Some? then Value(p.objective.value, env) else 0.0)
  }

  lemma ObjectiveValue(p: LpProblem, expr: LpExpression, merged: LpExpression, simplified: LpExpression,
                       rest: LpExpression, k: real, fmt: real -> string, fuel: nat)
    requires Valid(expr) && (p.objective.Some? ==> Valid(p.objective.value))
    requires Summed(p, expr) == Ok(merged)
    requires SimplifyExpr(merged, fmt, fuel) == Ok(simplified)
    requires SplitOffConstant(simplified) == Ok((rest, k))
    ensures forall env :: Value(rest, env) + k == Objective(p, expr, env)
  {
    forall env
      ensures Value(rest, env) + k == Objective(p, expr, env)
    {
      var s := Denote(simplified).value;
      SplitTreeValue(s, env);
      assert !Valid(New());
      assert Eval(s, env) == Eval(Denote(merged).value, env);
    }
  }
}
