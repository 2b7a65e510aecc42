/** The backend for the pure-Rust `minilp` solver (src/solvers/minilp.rs):
    an expression is simplified and decomposed into one coefficient and a
    pair of bounds per continuous variable, the problem is handed over as
    columns and rows, and the solver's answer is read back by column index.

    The file is written against the boxed expression tree, which `Tree.Expr`
    models. The `simplify` it calls on such trees is not part of this model;
    the tree simplifier of module Simplify stands in for it. The tree
    `generalize` it calls is not part of this model either and is a
    parameter. The solver itself (`add_var`, `add_constraint`, `solve`) is a
    sink: the model builds what it is handed. */
module Minilp {
  import opened Wrappers
  import opened Vars
  import opened Tree
  import opened Simplify
  import opened Constraints
  import opened Problem
  import opened Solutions

  /** `direction_to_minilp`. */
  datatype Direction = MaximizeDirection | MinimizeDirection

  function DirectionToMinilp(objective: LpObjective): (d: Direction)
    ensures d == MaximizeDirection <==> objective == Maximize
  {
    match objective
    case Maximize => MaximizeDirection
    case Minimize => MinimizeDirection
  }

  /** `comparison_to_minilp`. */
  datatype Comparison = Ge | Le | Eq

  function ComparisonToMinilp(op: Constraint): (c: Comparison)
    ensures c == Ge <==> op == GreaterOrEqual
    ensures c == Le <==> op == LessOrEqual
    ensures c == Eq <==> op == Constraint.Equal
  {
    match op
    case GreaterOrEqual => Ge
    case LessOrEqual => Le
    case Equal => Eq
  }

  // VarList

  /** An f32 bound: finite, or one of the infinities. */
  datatype Bound = NegInf | Finite(value: real) | PosInf

  /** `f32::max` of a bound and a finite number. */
  function BoundMax(b: Bound, x: real): (r: Bound)
    ensures r.Finite? || r.PosInf?
    ensures r.Finite? ==> r.value >= x && (b.Finite? ==> r.value >= b.value)
    ensures r.Finite? ==> r.value == x || (b.Finite? && r.value == b.value)
  {
    match b
    case NegInf => Finite(x)
    case Finite(y) => Finite(if y >= x then y else x)
    case PosInf => PosInf
  }

  /** `f32::min` of a bound and a finite number. */
  function BoundMin(b: Bound, x: real): (r: Bound)
    ensures r.Finite? || r.NegInf?
    ensures r.Finite? ==> r.value <= x && (b.Finite? ==> r.value <= b.value)
    ensures r.Finite? ==> r.value == x || (b.Finite? && r.value == b.value)
  {
    match b
    case NegInf => NegInf
    case Finite(y) => Finite(if y <= x then y else x)
    case PosInf => Finite(x)
  }

  /** Whether bound `a` is at least as tight a lower bound as `b`. */
  predicate AtLeast(a: Bound, b: Bound) {
    match (a, b)
    case (_, NegInf) => true
    case (PosInf, _) => true
    case (Finite(x), Finite(y)) => x >= y
    case _ => false
  }

  /** `VarWithCoeff`. */
  datatype VarWithCoeff = VarWithCoeff(coefficient: real, min: Bound, max: Bound)

  /** `VarWithCoeff::default`: no coefficient yet, and no bounds. */
  const DefaultEntry := VarWithCoeff(0.0, NegInf, PosInf)

  /** `VarList`: the entries by name, in the order the names were first
      added (a hash map's order is unspecified; this is one of its orders). */
  type VarList = seq<(string, VarWithCoeff)>

  /** No name is listed twice. */
  predicate Distinct(l: VarList) {
    |l| == 0 || (l[0].0 !in Names(l[1..]) && Distinct(l[1..]))
  }

  /** The names listed. */
  function Names(l: VarList): set<string> {
    if |l| == 0 then {} else {l[0].0} + Names(l[1..])
  }

  /** A list without repeated names has a different name at every index. */
  lemma {:induction false} DistinctAt(l: VarList)
    requires Distinct(l)
    ensures forall i, j :: 0 <= i < j < |l| ==> l[i].0 != l[j].0
  {
    if |l| > 0 {
      DistinctAt(l[1..]);
      forall j | 0 < j < |l| ensures l[0].0 != l[j].0 {
        NameListed(l[1..], j - 1);
      }
    }
  }

  lemma {:induction false} NameListed(l: VarList, i: nat)
    requires i < |l|
    ensures l[i].0 in Names(l)
  {
    if i > 0 { NameListed(l[1..], i - 1); }
  }

  /** Whether `a` begins with `b`. */
  predicate StartsWith<T(==)>(a: seq<T>, b: seq<T>) {
    |b| <= |a| && a[..|b|] == b
  }

  lemma StartsWithTrans<T>(a: seq<T>, b: seq<T>, c: seq<T>)
    requires StartsWith(a, b) && StartsWith(b, c)
    ensures StartsWith(a, c)
  {
    assert a[..|c|] == a[..|b|][..|c|];
  }

  function Lookup(l: VarList, n: string): (r: Option<VarWithCoeff>)
    ensures r.Some? <==> n in Names(l)
  {
    if |l| == 0 then None
    else if l[0].0 == n then Some(l[0].1)
    else Lookup(l[1..], n)
  }

  /** The entry after `add`: the coefficient summed, the lower bound raised
      and the upper bound lowered to the variable's own bounds. */
  function Adjust(e: VarWithCoeff, v: LpContinuous, c: real): (r: VarWithCoeff)
    ensures r.coefficient == e.coefficient + c
    ensures AtLeast(r.min, e.min) && AtLeast(e.max, r.max)
    ensures v.lowerBound.None? ==> r.min == e.min
    ensures v.upperBound.None? ==> r.max == e.max
    ensures v.lowerBound.Some? ==> AtLeast(r.min, Finite(v.lowerBound.value))
    ensures v.upperBound.Some? ==> AtLeast(Finite(v.upperBound.value), r.max)
  {
    VarWithCoeff(
      e.coefficient + c,
      if v.lowerBound.Some? then BoundMax(e.min, v.lowerBound.value) else e.min,
      if v.upperBound.Some? then BoundMin(e.max, v.upperBound.value) else e.max)
  }

  /** `VarList::add`: the variable's entry, a default one if it has none,
      adjusted; every other entry unchanged. */
  function AddVar(l: VarList, v: LpContinuous, c: real): (r: VarList)
    ensures Lookup(r, v.name) == Some(Adjust(Lookup(l, v.name).GetOr(DefaultEntry), v, c))
    ensures forall n :: n != v.name ==> Lookup(r, n) == Lookup(l, n)
    ensures Names(r) == Names(l) + {v.name}
    ensures Distinct(l) ==> Distinct(r)
  {
    if |l| == 0 then [(v.name, Adjust(DefaultEntry, v, c))]
    else if l[0].0 == v.name then
      var r := [(v.name, Adjust(l[0].1, v, c))] + l[1..];
      assert r[1..] == l[1..];
      r
    else
      var rest := AddVar(l[1..], v, c);
      var r := [l[0]] + rest;
      assert r[1..] == rest;
      r
  }

  /** Adding the same variable twice sums the two coefficients. */
  lemma AddVarTwice(l: VarList, v: LpContinuous, c: real, d: real)
    ensures Lookup(AddVar(AddVar(l, v, c), v, d), v.name).value.coefficient
         == Lookup(l, v.name).GetOr(DefaultEntry).coefficient + c + d
  {
  }

  /** What one entry adds to the linear form. */
  function EntryValue(entry: (string, VarWithCoeff), env: map<string, real>): real {
    entry.1.coefficient * Get(env, entry.0)
  }

  /** The linear form a list stands for, under an assignment. */
  function LinearValue(l: VarList, env: map<string, real>): real {
    if |l| == 0 then 0.0 else EntryValue(l[0], env) + LinearValue(l[1..], env)
  }

  lemma {:induction false} AddVarValue(l: VarList, v: LpContinuous, c: real, env: map<string, real>)
    ensures LinearValue(AddVar(l, v, c), env) == LinearValue(l, env) + c * Get(env, v.name)
  {
    var x := Get(env, v.name);
    if |l| == 0 {
      assert LinearValue(AddVar(l, v, c), env) == (0.0 + c) * x;
    } else if l[0].0 == v.name {
      var r := AddVar(l, v, c);
      assert r[1..] == l[1..];
      assert EntryValue(r[0], env) == (l[0].1.coefficient + c) * x;
      assert (l[0].1.coefficient + c) * x == l[0].1.coefficient * x + c * x;
    } else {
      AddVarValue(l[1..], v, c, env);
      assert AddVar(l, v, c)[1..] == AddVar(l[1..], v, c);
    }
  }

  // decomposition

  /** The text of `{:?}` on a tree, which the error messages quote. */
  type DebugText = Expr -> string

  /** `decompose_expression_recursive`: a continuous variable counts once, a
      literal times a continuous variable counts the literal, a sum both of
      its sides; any other product or node is an error. */
  function Decompose(t: Expr, acc: VarList, debug: DebugText): (r: Result<VarList>)
    ensures r.Ok? ==> Names(acc) <= Names(r.value)
    ensures r.Ok? && Distinct(acc) ==> Distinct(r.value)
    ensures r.Panic? == false
  {
    match t
    case Leaf(ConsCont(v)) => Ok(AddVar(acc, v, 1.0))
    case Comp(Multiplication, a, b) =>
      if a.Leaf? && a.leaf.LitVal? && b.Leaf? && b.leaf.ConsCont? then
        Ok(AddVar(acc, b.leaf.contVar, a.leaf.lit))
      else Err("Non-simplified multiplication: " + debug(a) + " * " + debug(b))
    case Comp(Addition, l, r) =>
      var d :- Decompose(l, acc, debug);
      Decompose(r, d, debug)
    case _ => Err("Unsupported expression: " + debug(t))
  }

  /** A decomposition is exact: the list it ends with, under any
      assignment, is the list it started from plus the tree's value. */
  lemma {:induction false} DecomposeValue(t: Expr, acc: VarList, debug: DebugText, env: map<string, real>)
    requires Decompose(t, acc, debug).Ok?
    ensures LinearValue(Decompose(t, acc, debug).value, env) == LinearValue(acc, env) + Eval(t, env)
  {
    if t.Comp? && t.op == Addition {
      var a, b := t.left, t.right;
      DecomposeValue(a, acc, debug, env);
      var d := Decompose(a, acc, debug).value;
      assert Decompose(t, acc, debug) == Decompose(b, d, debug);
      DecomposeValue(b, d, debug, env);
    } else {
      TermValue(t, acc, debug, env);
    }
  }

  /** The same for a single term: a variable, or a literal times one. */
  lemma TermValue(t: Expr, acc: VarList, debug: DebugText, env: map<string, real>)
    requires Decompose(t, acc, debug).Ok? && !(t.Comp? && t.op == Addition)
    ensures LinearValue(Decompose(t, acc, debug).value, env) == LinearValue(acc, env) + Eval(t, env)
  {
    if t.Leaf? {
      var v := t.leaf.contVar;
      assert Decompose(t, acc, debug).value == AddVar(acc, v, 1.0);
      AddVarValue(acc, v, 1.0, env);
    } else {
      var k, v := t.left.leaf.lit, t.right.leaf.contVar;
      assert Decompose(t, acc, debug).value == AddVar(acc, v, k);
      assert Eval(t, env) == k * Get(env, v.name);
      AddVarValue(acc, v, k, env);
    }
  }

  /** `decompose_expression`: simplify, then decompose from an empty list.
      A simplification that does not settle within the fuel is the model's
      own cut-off. */
  function DecomposeExpression(e: Expr, fmt: real -> string, fuel: nat, debug: DebugText): (r: Result<VarList>)
    ensures SimplifyTree(e, fmt, fuel).None? ==> r == Panic(NoFixpoint)
    ensures r.Ok? ==> Distinct(r.value)
    ensures r.Ok? ==> forall env :: LinearValue(r.value, env) == Eval(e, env)
  {
    match SimplifyTree(e, fmt, fuel)
    case None => Panic(NoFixpoint)
    case Some(s) =>
      var r := Decompose(s, [], debug);
      if r.Ok? then
        forall env
          ensures LinearValue(r.value, env) == Eval(e, env)
        {
          DecomposeValue(s, [], debug, env);
          SimplifyEval(e, fmt, fuel, env);
        }
        r
      else r
  }

  /** The simplified form of (4 (3 a - 2 b + a)) 1 + b decomposes into the
      coefficients 16 for `a` and -7 for `b`, summed over repeated names. */
  lemma DecomposeExample(a: LpContinuous, b: LpContinuous, debug: DebugText)
    requires a.name != b.name
    requires a.lowerBound.None? && a.upperBound.None? && b.lowerBound.None? && b.upperBound.None?
    ensures var s := Comp(Addition,
                       Comp(Addition,
                         Comp(Addition, Comp(Multiplication, Lit(12.0), Leaf(ConsCont(a))),
                                        Comp(Multiplication, Lit(-8.0), Leaf(ConsCont(b)))),
                         Comp(Multiplication, Lit(4.0), Leaf(ConsCont(a)))),
                       Leaf(ConsCont(b)));
            Decompose(s, [], debug) == Ok([(a.name, VarWithCoeff(16.0, NegInf, PosInf)),
                                           (b.name, VarWithCoeff(-7.0, NegInf, PosInf))])
  {
    var free := VarWithCoeff(0.0, NegInf, PosInf);
    var l1 := AddVar([], a, 12.0);
    assert l1 == [(a.name, free.(coefficient := 12.0))];
    var l2 := AddVar(l1, b, -8.0);
    assert AddVar(l1[1..], b, -8.0) == [(b.name, free.(coefficient := -8.0))];
    assert l2 == [(a.name, free.(coefficient := 12.0)), (b.name, free.(coefficient := -8.0))];
    var l3 := AddVar(l2, a, 4.0);
    assert l3 == [(a.name, free.(coefficient := 16.0)), (b.name, free.(coefficient := -8.0))];
    var l4 := AddVar(l3, b, 1.0);
    assert AddVar(l3[1..], b, 1.0) == [(b.name, free.(coefficient := -7.0))];
    assert l4 == [(a.name, free.(coefficient := 16.0)), (b.name, free.(coefficient := -7.0))];
    var ta := Comp(Multiplication, Lit(12.0), Leaf(ConsCont(a)));
    var tb := Comp(Multiplication, Lit(-8.0), Leaf(ConsCont(b)));
    var tc := Comp(Multiplication, Lit(4.0), Leaf(ConsCont(a)));
    assert Decompose(ta, [], debug) == Ok(l1);
    assert Decompose(Comp(Addition, ta, tb), [], debug) == Ok(l2);
    assert Decompose(Comp(Addition, Comp(Addition, ta, tb), tc), [], debug) == Ok(l3);
  }

  // building the problem

  /** A column of the minilp problem: objective coefficient and bounds. */
  datatype Column = Column(objective: real, min: Bound, max: Bound)

  /** A row: (column index, coefficient) terms, comparison, right-hand side. */
  datatype Row = Row(terms: seq<(nat, real)>, op: Comparison, rhs: real)

  /** What `minilp::Problem` is handed. */
  datatype MiniProblem = MiniProblem(direction: Direction, columns: seq<Column>, rows: seq<Row>)

  /** The problem of the boxed expression layer: objective sense, objective
      and constraints. */
  datatype TreeProblem = TreeProblem(objectiveType: LpObjective, objective: Option<Expr>, constraints: seq<TreeConstraint>)

  const MissingObjective := "Missing objective"
  const GeneralizationFailed := "constraint generalization failed"
  const MissingName := "missing variable name"

  /** The columns known so far, by name: column `k` belongs to `names[k]`. */
  predicate Registry(names: seq<string>, pb: MiniProblem) {
    |names| == |pb.columns| && forall i, j :: 0 <= i < j < |names| ==> names[i] != names[j]
  }

  function IndexOf(names: seq<string>, n: string): (k: nat)
    requires n in names
    ensures k < |names| && names[k] == n
    ensures forall j :: 0 <= j < k ==> names[j] != n
  {
    if names[0] == n then 0 else 1 + IndexOf(names[1..], n)
  }

  /** `add_objective_to_minilp`: one column per decomposed variable, with its
      coefficient and bounds. */
  function ObjectiveColumns(vars: VarList): (cols: seq<Column>)
    ensures |cols| == |vars|
    ensures forall k :: 0 <= k < |vars| ==>
      cols[k] == Column(vars[k].1.coefficient, vars[k].1.min, vars[k].1.max)
  {
    seq(|vars|, k requires 0 <= k < |vars| => Column(vars[k].1.coefficient, vars[k].1.min, vars[k].1.max))
  }

  /** The terms of a constraint row, registering a free column with no
      objective coefficient for each name not seen before. Only the summed
      coefficient is used: bounds met in a constraint are dropped. */
  function RowTerms(vars: VarList, names: seq<string>, columns: seq<Column>)
    : (r: (seq<(nat, real)>, seq<string>, seq<Column>))
    requires |names| == |columns|
    ensures |r.0| == |vars| && |r.1| == |r.2|
    ensures StartsWith(r.1, names) && StartsWith(r.2, columns)
    ensures forall k :: |names| <= k < |r.1| ==> r.2[k] == Column(0.0, NegInf, PosInf)
    ensures forall k :: 0 <= k < |vars| ==>
      r.0[k].0 < |r.1| && r.1[r.0[k].0] == vars[k].0 && r.0[k].1 == vars[k].1.coefficient
    ensures (forall i, j :: 0 <= i < j < |names| ==> names[i] != names[j]) ==>
      forall i, j :: 0 <= i < j < |r.1| ==> r.1[i] != r.1[j]
    decreases |vars|
  {
    if |vars| == 0 then ([], names, columns)
    else
      var (n, e) := vars[0];
      var (k, names', columns') :=
        if n in names then (IndexOf(names, n), names, columns)
        else (|names|, names + [n], columns + [Column(0.0, NegInf, PosInf)]);
      var (terms, names'', columns'') := RowTerms(vars[1..], names', columns');
      StartsWithTrans(names'', names', names);
      StartsWithTrans(columns'', columns', columns);
      ([(k, e.coefficient)] + terms, names'', columns'')
  }

  /** `add_constraint_to_minilp`: generalize, insist on a literal right-hand
      side, decompose the left-hand side, and add the row. */
  function AddConstraint(c: TreeConstraint, generalize: TreeConstraint -> TreeConstraint,
                         names: seq<string>, pb: MiniProblem,
                         fmt: real -> string, fuel: nat, debug: DebugText)
    : (r: Result<(seq<string>, MiniProblem)>)
    requires Registry(names, pb)
    ensures r.Ok? ==> Registry(r.value.0, r.value.1)
    ensures r.Ok? ==> StartsWith(r.value.0, names) && StartsWith(r.value.1.columns, pb.columns)
    ensures r.Ok? ==> r.value.1.direction == pb.direction && StartsWith(r.value.1.rows, pb.rows)
                      && |r.value.1.rows| == |pb.rows| + 1
    ensures !generalize(c).rhs.Leaf? || !generalize(c).rhs.leaf.LitVal? ==> r == Err(GeneralizationFailed)
    ensures r.Ok? ==> var g := generalize(c);
      g.rhs.Leaf? && g.rhs.leaf.LitVal? && DecomposeExpression(g.lhs, fmt, fuel, debug).Ok?
      && r.value.1.rows[|pb.rows|].op == ComparisonToMinilp(g.op)
      && r.value.1.rows[|pb.rows|].rhs == g.rhs.leaf.lit
      && var terms := RowTerms(DecomposeExpression(g.lhs, fmt, fuel, debug).value, names, pb.columns);
         r.value.1.rows[|pb.rows|].terms == terms.0 && r.value.0 == terms.1
  {
    var g := generalize(c);
    if g.rhs.Leaf? && g.rhs.leaf.LitVal? then
      var vars :- DecomposeExpression(g.lhs, fmt, fuel, debug);
      var (terms, names', columns') := RowTerms(vars, names, pb.columns);
      var row := Row(terms, ComparisonToMinilp(g.op), g.rhs.leaf.lit);
      Ok((names', MiniProblem(pb.direction, columns', pb.rows + [row])))
    else Err(GeneralizationFailed)
  }

  /** Whether `x op y` holds for a minilp comparison. */
  predicate Satisfies(op: Comparison, x: real, y: real) {
    match op
    case Ge => x >= y
    case Le => x <= y
    case Eq => x == y
  }

  /** The value of a row's terms when column `k` takes the value the
      assignment gives the variable named `names[k]`. */
  function RowValue(terms: seq<(nat, real)>, names: seq<string>, env: map<string, real>): real {
    if |terms| == 0 then 0.0
    else
      (if terms[0].0 < |names| then terms[0].1 * Get(env, names[terms[0].0]) else 0.0)
      + RowValue(terms[1..], names, env)
  }

  /** Whether the columns' values, taken from an assignment through the
      names, satisfy a row. */
  predicate RowHolds(row: Row, names: seq<string>, env: map<string, real>) {
    Satisfies(row.op, RowValue(row.terms, names, env), row.rhs)
  }

  /** Terms pointing at the columns of the list's names, with its
      coefficients, are worth the list's linear form. */
  lemma {:induction false} TermsValue(terms: seq<(nat, real)>, vars: VarList, names: seq<string>, env: map<string, real>)
    requires |terms| == |vars|
    requires forall k :: 0 <= k < |vars| ==>
      terms[k].0 < |names| && names[terms[k].0] == vars[k].0 && terms[k].1 == vars[k].1.coefficient
    ensures RowValue(terms, names, env) == LinearValue(vars, env)
  {
    if |vars| > 0 {
      assert forall k :: 0 <= k < |vars| - 1 ==> terms[1..][k] == terms[k + 1] && vars[1..][k] == vars[k + 1];
      TermsValue(terms[1..], vars[1..], names, env);
    }
  }

  /** The row `add_constraint_to_minilp` adds holds, for the columns' values
      taken from an assignment, exactly when the generalized constraint does;
      and so exactly when the constraint does, for a `generalize` that keeps
      which assignments satisfy it. */
  lemma AddConstraintHolds(c: TreeConstraint, generalize: TreeConstraint -> TreeConstraint,
                           names: seq<string>, pb: MiniProblem,
                           fmt: real -> string, fuel: nat, debug: DebugText, env: map<string, real>)
    requires Registry(names, pb)
    requires AddConstraint(c, generalize, names, pb, fmt, fuel, debug).Ok?
    ensures var r := AddConstraint(c, generalize, names, pb, fmt, fuel, debug).value;
      RowHolds(r.1.rows[|pb.rows|], r.0, env) <==> TreeHolds(generalize(c), env)
    ensures (TreeHolds(generalize(c), env) <==> TreeHolds(c, env)) ==>
      var r := AddConstraint(c, generalize, names, pb, fmt, fuel, debug).value;
      RowHolds(r.1.rows[|pb.rows|], r.0, env) <==> TreeHolds(c, env)
  {
    var g := generalize(c);
    var r := AddConstraint(c, generalize, names, pb, fmt, fuel, debug).value;
    var vars := DecomposeExpression(g.lhs, fmt, fuel, debug).value;
    var terms := RowTerms(vars, names, pb.columns);
    TermsValue(terms.0, vars, terms.1, env);
    assert RowValue(r.1.rows[|pb.rows|].terms, r.0, env) == Eval(g.lhs, env);
  }

  /** The constraints, one after the other; the first failure ends it. */
  function AddConstraints(cs: seq<TreeConstraint>, generalize: TreeConstraint -> TreeConstraint,
                          names: seq<string>, pb: MiniProblem,
                          fmt: real -> string, fuel: nat, debug: DebugText)
    : (r: Result<(seq<string>, MiniProblem)>)
    requires Registry(names, pb)
    ensures r.Ok? ==> Registry(r.value.0, r.value.1)
    ensures r.Ok? ==> StartsWith(r.value.0, names) && StartsWith(r.value.1.columns, pb.columns)
    ensures r.Ok? ==> r.value.1.direction == pb.direction && |r.value.1.rows| == |pb.rows| + |cs|
    decreases |cs|
  {
    if |cs| == 0 then Ok((names, pb))
    else
      var (names', pb') :- AddConstraint(cs[0], generalize, names, pb, fmt, fuel, debug);
      var (names'', pb'') :- AddConstraints(cs[1..], generalize, names', pb', fmt, fuel, debug);
      StartsWithTrans(names'', names', names);
      StartsWithTrans(pb''.columns, pb'.columns, pb.columns);
      Ok((names'', pb''))
  }

  /** `problem_to_minilp`: the direction, the objective's columns, then the
      rows, and the name of every column by index. */
  function ProblemToMinilp(p: TreeProblem, generalize: TreeConstraint -> TreeConstraint,
                           fmt: real -> string, fuel: nat, debug: DebugText)
    : (r: Result<(MiniProblem, seq<Option<string>>)>)
    ensures p.objective.None? ==> r == Err(MissingObjective)
    ensures r.Ok? ==> r.value.0.direction == DirectionToMinilp(p.objectiveType)
    ensures r.Ok? ==> |r.value.0.rows| == |p.constraints|
    ensures r.Ok? ==> |r.value.1| == |r.value.0.columns|
    ensures r.Ok? ==> forall k :: 0 <= k < |r.value.1| ==> r.value.1[k].Some?
    ensures r.Ok? ==> forall i, j :: 0 <= i < j < |r.value.1| ==> r.value.1[i] != r.value.1[j]
    ensures r.Ok? ==> DecomposeExpression(p.objective.value, fmt, fuel, debug).Ok?
    ensures r.Ok? ==> var vars := DecomposeExpression(p.objective.value, fmt, fuel, debug).value;
      |vars| <= |r.value.1| && forall k :: 0 <= k < |vars| ==>
        r.value.1[k] == Some(vars[k].0) && r.value.0.columns[k] == Column(vars[k].1.coefficient, vars[k].1.min, vars[k].1.max)
  {
    var direction := DirectionToMinilp(p.objectiveType);
    var objective :- if p.objective.Some? then Ok(p.objective.value) else Err(MissingObjective);
    var vars :- DecomposeExpression(objective, fmt, fuel, debug);
    var names := seq(|vars|, k requires 0 <= k < |vars| => vars[k].0);
    DistinctAt(vars);
    var pb := MiniProblem(direction, ObjectiveColumns(vars), []);
    var (names', pb') :- AddConstraints(p.constraints, generalize, names, pb, fmt, fuel, debug);
    assert forall k :: 0 <= k < |vars| ==> names'[k] == names'[..|names|][k];
    assert forall k :: 0 <= k < |vars| ==> pb'.columns[k] == pb'.columns[..|pb.columns|][k];
    Ok((pb', seq(|names'|, k requires 0 <= k < |names'| => Some(names'[k]))))
  }

  // reading the answer

  /** What `solve` gives back: a value per column, or the reason there is
      none. */
  datatype MiniResult = Solved(values: seq<real>) | UnboundedResult | InfeasibleResult

  const IndexOutOfBounds := "index out of bounds"

  /** The values from column `i` on, named through `names`; the first column
      without a name ends it. */
  function NameValues(values: seq<real>, names: seq<Option<string>>, i: nat, acc: map<string, real>)
    : (r: Result<map<string, real>>)
    requires i <= |values|
    ensures r.Ok? <==> (i < |values| ==> |values| <= |names|)
                       && forall k :: i <= k < |values| && k < |names| ==> names[k].Some?
    ensures r.Ok? ==> acc.Keys <= r.value.Keys
    decreases |values| - i
  {
    if i == |values| then Ok(acc)
    else if i >= |names| then Panic(IndexOutOfBounds)
    else match names[i]
      case None => Err(MissingName)
      case Some(n) => NameValues(values, names, i + 1, acc[n := values[i]])
  }

  lemma {:induction false} NameValuesAt(values: seq<real>, names: seq<Option<string>>, i: nat, acc: map<string, real>, k: nat)
    requires i <= k < |values| <= |names|
    requires forall j :: i <= j < |values| ==> names[j].Some?
    requires forall a, b :: i <= a < b < |values| ==> names[a] != names[b]
    ensures names[k].value in NameValues(values, names, i, acc).value
    ensures NameValues(values, names, i, acc).value[names[k].value] == values[k]
    decreases |values| - i
  {
    if i < k {
      NameValuesAt(values, names, i + 1, acc[names[i].value := values[i]], k);
    } else {
      NameValuesKeep(values, names, i + 1, acc[names[i].value := values[i]], names[i].value);
    }
  }

  lemma {:induction false} NameValuesKeep(values: seq<real>, names: seq<Option<string>>, i: nat, acc: map<string, real>, n: string)
    requires i <= |values| <= |names|
    requires forall j :: i <= j < |values| ==> names[j].Some? && names[j].value != n
    requires n in acc
    ensures NameValues(values, names, i, acc).Ok? && NameValues(values, names, i, acc).value[n] == acc[n]
    decreases |values| - i
  {
    if i < |values| {
      NameValuesKeep(values, names, i + 1, acc[names[i].value := values[i]], n);
    }
  }

  /** `solution_from_minilp`: every column's value under its name, marked
      optimal; an empty, unbounded or infeasible solution otherwise. */
  function SolutionFromMinilp(result: MiniResult, names: seq<Option<string>>): (r: Result<Solution>)
    ensures result.UnboundedResult? ==> r == Ok(Solution(Unbounded, map[], None))
    ensures result.InfeasibleResult? ==> r == Ok(Solution(Infeasible, map[], None))
    ensures result.Solved? ==>
      (r.Ok? <==> |result.values| <= |names| && forall k :: 0 <= k < |result.values| ==> names[k].Some?)
    ensures result.Solved? && r.Ok? ==> r.value.status == Optimal && r.value.relatedProblem.None?
  {
    match result
    case Solved(values) =>
      var results :- NameValues(values, names, 0, map[]);
      Ok(NewSolution(Optimal, results))
    case UnboundedResult => Ok(NewSolution(Unbounded, map[]))
    case InfeasibleResult => Ok(NewSolution(Infeasible, map[]))
  }

  /** The names `problem_to_minilp` hands over always name the solver's
      answer: a value for every column reads back under that column's
      name. */
  lemma NamesReadBack(p: TreeProblem, generalize: TreeConstraint -> TreeConstraint,
                      fmt: real -> string, fuel: nat, debug: DebugText, values: seq<real>, k: nat)
    requires ProblemToMinilp(p, generalize, fmt, fuel, debug).Ok?
    requires |values| == |ProblemToMinilp(p, generalize, fmt, fuel, debug).value.0.columns|
    requires k < |values|
    ensures var names := ProblemToMinilp(p, generalize, fmt, fuel, debug).value.1;
            var s := SolutionFromMinilp(Solved(values), names);
            s.Ok? && names[k].value in s.value.results && s.value.results[names[k].value] == values[k]
  {
    var names := ProblemToMinilp(p, generalize, fmt, fuel, debug).value.1;
    NameValuesAt(values, names, 0, map[], k);
  }
}
