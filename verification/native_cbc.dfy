/** The in-process CBC backend (src/solvers/native_cbc.rs): how a problem's
    constraints and objective become rows and coefficients for the solver
    library. The library itself (building its model, solving) is not
    modelled; what it is handed is. */
module NativeCbc {
  import opened Wrappers
  import opened Vars
  import opened Tree
  import opened Arena
  import opened Simplify
  import opened Constraints
  import opened Problem
  import opened Solutions

  /** `NativeCbcSolver`. */
  datatype NativeCbcSolver = NativeCbcSolver(name: string, threads: Option<nat>, seconds: Option<nat>)

  /** `NativeCbcSolver::new`. */
  function NewNativeCbc(): (s: NativeCbcSolver)
    ensures s.name == "CbcNative" && s.threads.None? && s.seconds.None?
  {
    NativeCbcSolver("CbcNative", None, None)
  }

  /** `with_max_seconds`: only the time limit changes. */
  function WithMaxSeconds(s: NativeCbcSolver, seconds: nat): (r: NativeCbcSolver)
    ensures r.seconds == Some(seconds)
    ensures r.(seconds := s.seconds) == s
  {
    s.(seconds := Some(seconds))
  }

  /** `with_nb_threads`: only the thread count changes. */
  function WithNbThreads(s: NativeCbcSolver, threads: nat): (r: NativeCbcSolver)
    ensures r.threads == Some(threads)
    ensures r.(threads := s.threads) == s
  {
    s.(threads := Some(threads))
  }

  // coefficients

  const NonLiteralFactor := "This Multiplication expression has a non-`LitVal()` left-hand side.\nDid you call `simplify()` before `var_lit()`? If not:\nThis could point to a bug in LpExpression::simplify()."
  const NonVariableFactor := "This Multiplication expression has a non-`Cons*()` right-hand side.\nDid you call `simplify()` before `var_lit()`? If not:\nThis could point to a bug in LpExpression::simplify()."

  /** The coefficient of a variable under a literal factor. */
  function Scale(mul: real, lit: real): real {
    mul * lit
  }

  /** `var_lit` on the tree an arena index denotes: the (name, coefficient)
      pairs in the order they are met. A variable gets the multiplier
      handed down; a product must be a literal times a variable; a sum
      restarts both sides at 1 and a difference its sides at 1 and -1, the
      multiplier handed down being dropped; literals and `EmptyExpr` give
      nothing. */
  function VarLitTree(t: Expr, mul: real): (r: Result<seq<(string, real)>>)
  {
    match t
    case Leaf(l) =>
      if VarName(l).Some? then Ok([(VarName(l).value, mul)]) else Ok([])
    case Comp(Multiplication, f, v) =>
      if v.Leaf? && VarName(v.leaf).Some? then
        if IsLit(f) then Ok([(VarName(v.leaf).value, Scale(mul, f.leaf.lit))]) else Panic(NonLiteralFactor)
      else Panic(NonVariableFactor)
    case Comp(Addition, l, r) =>
      var a :- VarLitTree(l, 1.0);
      var b :- VarLitTree(r, 1.0);
      Ok(a + b)
    case Comp(Subtraction, l, r) =>
      var a :- VarLitTree(l, 1.0);
      var b :- VarLitTree(r, -1.0);
      Ok(a + b)
  }

  /** `var_lit` as written, over the arena from index `i`; `fuel` cuts off a
      cycle, which the source would follow until its stack overflows. */
  function VarLit(e: LpExpression, i: nat, mul: real, fuel: nat): (r: Result<seq<(string, real)>>)
    ensures i >= |e.arena| ==> r == Panic(OutOfBound)
    decreases fuel
  {
    var node :- ExprRefAt(e, i);
    if fuel == 0 then Panic(StackOverflow)
    else
      match node
      case LeafNode(l) =>
        if VarName(l).Some? then Ok([(VarName(l).value, mul)]) else Ok([])
      case LpCompExpr(Multiplication, fi, vi) =>
        var v :- ExprRefAt(e, vi);
        if v.LeafNode? && VarName(v.leaf).Some? then
          var f :- ExprRefAt(e, fi);
          if f.LeafNode? && f.leaf.LitVal? then Ok([(VarName(v.leaf).value, Scale(mul, f.leaf.lit))])
          else Panic(NonLiteralFactor)
        else Panic(NonVariableFactor)
      case LpCompExpr(Addition, li, ri) =>
        var a :- VarLit(e, li, 1.0, fuel - 1);
        var b :- VarLit(e, ri, 1.0, fuel - 1);
        Ok(a + b)
      case LpCompExpr(Subtraction, li, ri) =>
        var a :- VarLit(e, li, 1.0, fuel - 1);
        var b :- VarLit(e, ri, -1.0, fuel - 1);
        Ok(a + b)
  }

  /** On an index that holds a tree, the arena walk is the tree walk. */
  lemma {:induction false} VarLitDenotes(e: LpExpression, i: nat, mul: real, fuel: nat)
    requires TreeAt(e.arena, i, fuel).Some?
    ensures VarLit(e, i, mul, fuel) == VarLitTree(TreeAt(e.arena, i, fuel).value, mul)
    decreases fuel
  {
    match e.arena[i]
    case LeafNode(l) =>
    case LpCompExpr(op, li, ri) =>
      if op != Multiplication {
        VarLitDenotes(e, li, 1.0, fuel - 1);
        VarLitDenotes(e, ri, 1.0, fuel - 1);
        VarLitDenotes(e, ri, -1.0, fuel - 1);
      } else {
        var v := TreeAt(e.arena, ri, fuel - 1).value;
        var f := TreeAt(e.arena, li, fuel - 1).value;
        assert ri < |e.arena| && li < |e.arena|;
        assert v.Leaf? <==> e.arena[ri].LeafNode?;
        assert v.Leaf? ==> v.leaf == e.arena[ri].leaf;
        assert IsLit(f) <==> e.arena[li].LeafNode? && e.arena[li].leaf.LitVal?;
        assert IsLit(f) ==> f.leaf == e.arena[li].leaf;
        assert TreeAt(e.arena, i, fuel).value == Comp(Multiplication, f, v);
        if v.Leaf? && VarName(v.leaf).Some? {
          assert ExprRefAt(e, ri) == Ok(LeafNode(v.leaf));
          assert ExprRefAt(e, li) == Ok(e.arena[li]);
          assert ExprRefAt(e, i) == Ok(LpCompExpr(Multiplication, li, ri));
          if IsLit(f) {
            var n := VarName(e.arena[ri].leaf).value;
            var c := e.arena[li].leaf.lit;
            assert VarLit(e, i, mul, fuel) == Ok([(n, Scale(mul, c))]);
            assert VarLitTree(Comp(Multiplication, f, v), mul) == Ok([(n, Scale(mul, c))]);
          }
        } else {
          assert ExprRefAt(e, ri) == Ok(e.arena[ri]);
        }
      }
  }

  /** The linear form the pairs stand for, under an assignment. */
  function Weighted(lst: seq<(string, real)>, env: map<string, real>): real {
    if |lst| == 0 then 0.0 else Contribution(lst[0], env) + Weighted(lst[1..], env)
  }

  /** What one pair adds to the linear form. */
  function Contribution(pair: (string, real), env: map<string, real>): real {
    pair.1 * Get(env, pair.0)
  }

  lemma {:induction false} WeightedAppend(a: seq<(string, real)>, b: seq<(string, real)>, env: map<string, real>)
    ensures Weighted(a + b, env) == Weighted(a, env) + Weighted(b, env)
  {
    if |a| > 0 {
      assert (a + b)[0] == a[0];
      assert (a + b)[1..] == a[1..] + b;
      WeightedAppend(a[1..], b, env);
    } else {
      assert a + b == b;
    }
  }

  /** A term of a simplified linear expression: a variable, a literal times
      a variable, a literal or `EmptyExpr`. */
  predicate Term(t: Expr) {
    match t
    case Leaf(_) => true
    case Comp(op, f, v) => op == Multiplication && IsLit(f) && v.Leaf? && VarName(v.leaf).Some?
  }

  /** The shape `var_lit` expects of its input: sums of linear shapes, and
      differences whose right side is a single term. */
  predicate Linear(t: Expr) {
    match t
    case Leaf(_) => true
    case Comp(Multiplication, _, _) => Term(t)
    case Comp(Addition, l, r) => Linear(l) && Linear(r)
    case Comp(Subtraction, l, r) => Linear(l) && Term(r)
  }

  /** The literal part of a linear shape. */
  function Constant(t: Expr): real {
    match t
    case Leaf(LitVal(c)) => c
    case Leaf(_) => 0.0
    case Comp(Multiplication, _, _) => 0.0
    case Comp(Addition, l, r) => Constant(l) + Constant(r)
    case Comp(Subtraction, l, r) => Constant(l) - Constant(r)
  }

  /** A term contributes its variable part, scaled by the multiplier. */
  lemma TermVarLit(t: Expr, mul: real, env: map<string, real>)
    requires Term(t)
    ensures VarLitTree(t, mul).Ok?
    ensures Weighted(VarLitTree(t, mul).value, env) == mul * (Eval(t, env) - Constant(t))
  {
    match t
    case Leaf(l) =>
      if VarName(l).Some? {
        assert Weighted(VarLitTree(t, mul).value, env) == mul * Get(env, VarName(l).value);
      }
    case Comp(_, f, v) =>
      var lit := f.leaf.lit;
      var x := Get(env, VarName(v.leaf).value);
      assert Weighted(VarLitTree(t, mul).value, env) == (mul * lit) * x;
      assert Eval(t, env) == lit * x;
      assert (mul * lit) * x == mul * (lit * x);
  }

  /** On a linear shape `var_lit` succeeds, and its pairs plus the literal
      part give back the value of the expression under every assignment. */
  lemma {:induction false} VarLitLinear(t: Expr, env: map<string, real>)
    requires Linear(t)
    ensures VarLitTree(t, 1.0).Ok?
    ensures Eval(t, env) == Weighted(VarLitTree(t, 1.0).value, env) + Constant(t)
  {
    match t
    case Leaf(_) => TermVarLit(t, 1.0, env);
    case Comp(Multiplication, _, _) => TermVarLit(t, 1.0, env);
    case Comp(Addition, l, r) =>
      VarLitLinear(l, env);
      VarLitLinear(r, env);
      WeightedAppend(VarLitTree(l, 1.0).value, VarLitTree(r, 1.0).value, env);
    case Comp(Subtraction, l, r) =>
      VarLitLinear(l, env);
      TermVarLit(r, -1.0, env);
      WeightedAppend(VarLitTree(l, 1.0).value, VarLitTree(r, -1.0).value, env);
  }

  lemma VarLitLinearAll(t: Expr)
    requires Linear(t)
    ensures VarLitTree(t, 1.0).Ok?
    ensures forall env :: Eval(t, env) == Weighted(VarLitTree(t, 1.0).value, env) + Constant(t)
  {
    forall env
      ensures VarLitTree(t, 1.0).Ok? && Eval(t, env) == Weighted(VarLitTree(t, 1.0).value, env) + Constant(t)
    {
      VarLitLinear(t, env);
    }
    VarLitLinear(t, map[]);
  }

  /** Outside the linear shapes the dropped multiplier shows: `x - (y + z)`
      gives `y` and `z` the coefficient 1. */
  lemma VarLitDropsMultiplier(x: LpContinuous, y: LpContinuous, z: LpContinuous)
    ensures var t := Comp(Subtraction, Leaf(ConsCont(x)), Comp(Addition, Leaf(ConsCont(y)), Leaf(ConsCont(z))));
            !Linear(t) && VarLitTree(t, 1.0) == Ok([(x.name, 1.0), (y.name, 1.0), (z.name, 1.0)])
  {
    var sum := Comp(Addition, Leaf(ConsCont(y)), Leaf(ConsCont(z)));
    assert VarLitTree(sum, -1.0) == Ok([(y.name, 1.0)] + [(z.name, 1.0)]);
    assert [(x.name, 1.0)] + ([(y.name, 1.0)] + [(z.name, 1.0)]) == [(x.name, 1.0), (y.name, 1.0), (z.name, 1.0)];
  }

  // rows

  const WrongGeneralization := "wrong generalization"

  /** `always_literal`: the literal at the root of a generalized right-hand
      side. */
  function AlwaysLiteral(e: LpExpression): (r: Result<real>)
    ensures e.root >= |e.arena| ==> r == Panic(OutOfBound)
    ensures Valid(e) ==> (r.Ok? <==> IsLit(Denote(e).value))
    ensures Valid(e) && r.Ok? ==> forall env :: Value(e, env) == r.value
    ensures !r.Ok? && e.root < |e.arena| ==> r == Panic(WrongGeneralization)
  {
    var node :- ExprRefAt(e, e.root);
    if node.LeafNode? && node.leaf.LitVal? then Ok(node.leaf.lit) else Panic(WrongGeneralization)
  }

  /** The bound a row gets: the solver's row lower bound for `>=`, upper
      bound for `<=`, both for `=`. */
  datatype RowBound = AtLeast(bound: real) | AtMost(bound: real) | Exactly(bound: real)

  function RowBoundOf(op: Constraint, x: real): (b: RowBound)
    ensures b.bound == x
    ensures forall v :: Satisfies(b, v) <==> Compare(op, v, x)
  {
    match op
    case GreaterOrEqual => AtLeast(x)
    case LessOrEqual => AtMost(x)
    case Equal => Exactly(x)
  }

  predicate Satisfies(b: RowBound, v: real) {
    match b
    case AtLeast(x) => v >= x
    case AtMost(x) => v <= x
    case Exactly(x) => v == x
  }

  /** The message of the panic when a `HashMap` is indexed with a name it
      does not hold. */
  const NoEntry := "no entry found for key"

  /** Every name in `lst` has a column. */
  predicate Covered(lst: seq<(string, real)>, cols: set<string>) {
    forall k :: 0 <= k < |lst| ==> lst[k].0 in cols
  }

  /** Handing the coefficients to the solver one by one: each name is looked
      up in the columns, `cols[n]`, which panics on the first name without
      one. */
  function WithColumns(lst: seq<(string, real)>, cols: set<string>): (r: Result<seq<(string, real)>>)
    ensures r.Ok? <==> Covered(lst, cols)
    ensures r.Ok? ==> r.value == lst
    ensures !r.Ok? ==> r == Panic(NoEntry)
  {
    if |lst| == 0 then Ok([])
    else if lst[0].0 !in cols then Panic(NoEntry)
    else
      var rest :- WithColumns(lst[1..], cols);
      assert forall k :: 1 <= k < |lst| ==> lst[k] == lst[1..][k - 1];
      Ok([lst[0]] + rest)
  }

  /** The coefficients of a row, as read: the constraint generalized, its
      bound from the literal right-hand side, then its left-hand side
      simplified again and walked. */
  function RowWalk(c: LpConstraint, fmt: real -> string, fuel: nat): (r: Result<(RowBound, seq<(string, real)>)>)
    ensures r.Ok? ==> Generalize(c, fmt, fuel).Ok?
    ensures r.Ok? ==> r.value.0 == RowBoundOf(c.op, AlwaysLiteral(Generalize(c, fmt, fuel).value.rhs).value)
  {
    var g :- Generalize(c, fmt, fuel);
    var x := AlwaysLiteral(g.rhs).value;
    var s :- SimplifyExpr(g.lhs, fmt, fuel);
    var lst :- VarLit(s, s.root, 1.0, |s.arena|);
    Ok((RowBoundOf(g.op, x), lst))
  }

  /** One row of `run`: the row as read, its coefficients then set on the
      columns of `cols`. */
  function NativeRow(c: LpConstraint, cols: set<string>, fmt: real -> string, fuel: nat)
    : (r: Result<(RowBound, seq<(string, real)>)>)
    ensures r.Ok? ==> Generalize(c, fmt, fuel).Ok?
    ensures r.Ok? ==> r.value.0 == RowBoundOf(c.op, AlwaysLiteral(Generalize(c, fmt, fuel).value.rhs).value)
    ensures r.Ok? ==> Covered(r.value.1, cols)
    ensures RowWalk(c, fmt, fuel).Ok? ==>
      (r.Ok? <==> Covered(RowWalk(c, fmt, fuel).value.1, cols))
      && (!r.Ok? ==> r == Panic(NoEntry))
  {
    var (b, lst) :- RowWalk(c, fmt, fuel);
    var w :- WithColumns(lst, cols);
    Ok((b, w))
  }

  /** When the simplified left-hand side is linear, the row is read, and
      it is the constraint: an assignment satisfies the constraint exactly
      when the row's coefficients, plus the literal part left on the
      left-hand side, meet the row's bound. The row is set exactly when
      every name in it has a column. */
  lemma NativeRowHolds(c: LpConstraint, cols: set<string>, fmt: real -> string, fuel: nat, env: map<string, real>)
    requires Valid(c.lhs) && Generalize(c, fmt, fuel).Ok?
    requires SimplifyExpr(Generalize(c, fmt, fuel).value.lhs, fmt, fuel).Ok?
    requires Linear(Denote(SimplifyExpr(Generalize(c, fmt, fuel).value.lhs, fmt, fuel).value).value)
    ensures RowWalk(c, fmt, fuel).Ok?
    ensures NativeRow(c, cols, fmt, fuel).Ok? <==> Covered(RowWalk(c, fmt, fuel).value.1, cols)
    ensures var (b, lst) := RowWalk(c, fmt, fuel).value;
            var t := Denote(SimplifyExpr(Generalize(c, fmt, fuel).value.lhs, fmt, fuel).value).value;
            Holds(c, env) <==> Satisfies(b, Weighted(lst, env) + Constant(t))
  {
    var g := Generalize(c, fmt, fuel).value;
    var s := SimplifyExpr(g.lhs, fmt, fuel).value;
    var t := Denote(s).value;
    VarLitDenotes(s, s.root, 1.0, |s.arena|);
    VarLitLinear(t, env);
    GeneralizeHolds(c, fmt, fuel, env);
    var x := AlwaysLiteral(g.rhs).value;
    assert Value(g.rhs, env) == x;
    assert Value(g.lhs, env) == Eval(t, env);
  }

  /** The rows of `run`, one per constraint in order; the first that fails
      stops the run. */
  function NativeRows(cs: seq<LpConstraint>, cols: set<string>, fmt: real -> string, fuel: nat)
    : (r: Result<seq<(RowBound, seq<(string, real)>)>>)
    ensures r.Ok? <==> forall k :: 0 <= k < |cs| ==> NativeRow(cs[k], cols, fmt, fuel).Ok?
    ensures r.Ok? ==> |r.value| == |cs|
                      && forall k :: 0 <= k < |cs| ==> r.value[k] == NativeRow(cs[k], cols, fmt, fuel).value
  {
    if |cs| == 0 then Ok([])
    else
      var row :- NativeRow(cs[0], cols, fmt, fuel);
      var rest :- NativeRows(cs[1..], cols, fmt, fuel);
      assert forall k :: 1 <= k < |cs| ==> cs[k] == cs[1..][k - 1];
      Ok([row] + rest)
  }

  /** The objective's coefficients, as read: none without an objective,
      otherwise those of its simplified copy. */
  function ObjectiveWalk(p: LpProblem, fmt: real -> string, fuel: nat): (r: Result<seq<(string, real)>>)
    ensures p.objective.None? ==> r == Ok([])
    ensures p.objective.Some? && r.Ok? ==> SimplifyExpr(p.objective.value, fmt, fuel).Ok?
    ensures p.objective.Some? && SimplifyExpr(p.objective.value, fmt, fuel).Ok?
            && Linear(Denote(SimplifyExpr(p.objective.value, fmt, fuel).value).value) ==>
      r.Ok? && forall env ::
        Value(p.objective.value, env)
        == Weighted(r.value, env) + Constant(Denote(SimplifyExpr(p.objective.value, fmt, fuel).value).value)
  {
    match p.objective
    case None => Ok([])
    case Some(o) =>
      var s :- SimplifyExpr(o, fmt, fuel);
      VarLitDenotes(s, s.root, 1.0, |s.arena|);
      var t := Denote(s).value;
      if Linear(t) then
        VarLitLinearAll(t);
        VarLit(s, s.root, 1.0, |s.arena|)
      else
        VarLit(s, s.root, 1.0, |s.arena|)
  }

  /** The objective of `run`: its coefficients as read, set on the columns
      of `cols`. A linear objective is worth its coefficients plus its
      constant, and is set exactly when every name in it has a column. */
  function NativeObjective(p: LpProblem, cols: set<string>, fmt: real -> string, fuel: nat)
    : (r: Result<seq<(string, real)>>)
    ensures p.objective.None? ==> r == Ok([])
    ensures r.Ok? ==> Covered(r.value, cols)
    ensures ObjectiveWalk(p, fmt, fuel).Ok? ==>
      (r.Ok? <==> Covered(ObjectiveWalk(p, fmt, fuel).value, cols))
      && (!r.Ok? ==> r == Panic(NoEntry))
    ensures p.objective.Some? && SimplifyExpr(p.objective.value, fmt, fuel).Ok?
            && Linear(Denote(SimplifyExpr(p.objective.value, fmt, fuel).value).value)
            && r.Ok? ==>
      forall env ::
        Value(p.objective.value, env)
        == Weighted(r.value, env) + Constant(Denote(SimplifyExpr(p.objective.value, fmt, fuel).value).value)
  {
    var lst :- ObjectiveWalk(p, fmt, fuel);
    WithColumns(lst, cols)
  }

  // columns and results

  /** A column of the solver's model, as `add_variable` creates it. */
  datatype Column =
    | IntegerColumn(lower: Option<real>, upper: Option<real>)
    | ContinuousColumn(lower: Option<real>, upper: Option<real>)
    | BinaryColumn

  const UnexpectedVariable := "Unexpected LpExpression on LpProblem.variables()!"

  /** `add_variable`: the column for the node a variable was found at. */
  function ColumnOf(node: LpExprNode): (r: Result<Column>)
    ensures r.Ok? <==> node.LeafNode? && VarName(node.leaf).Some?
    ensures !r.Ok? ==> r == Panic(UnexpectedVariable)
    ensures r.Ok? ==> (r.value.BinaryColumn? <==> node.leaf.ConsBin?)
  {
    match node
    case LeafNode(ConsInt(v)) => Ok(IntegerColumn(v.lowerBound, v.upperBound))
    case LeafNode(ConsCont(v)) => Ok(ContinuousColumn(v.lowerBound, v.upperBound))
    case LeafNode(ConsBin(_)) => Ok(BinaryColumn)
    case _ => Panic(UnexpectedVariable)
  }

  /** The columns of `run`: one per variable of the problem. The panic of
      `add_variable` never happens, since `variables` records only indices
      of variable nodes. */
  function NativeColumns(p: LpProblem): (r: Result<map<string, Column>>)
    ensures r.Ok? <==> Variables(p).Ok?
    ensures r.Ok? ==> r.value.Keys == Variables(p).value.Keys
  {
    var vars :- Variables(p);
    Ok(map n | n in vars :: ColumnOf(p.constraints[vars[n].0].lhs.arena[vars[n].1]).value)
  }

  /** What `run` hands the solver library: a column per variable, then a
      row per constraint, then the objective's coefficients, each
      coefficient set on the column of its name. */
  function NativeModel(p: LpProblem, fmt: real -> string, fuel: nat)
    : (r: Result<(map<string, Column>, seq<(RowBound, seq<(string, real)>)>, seq<(string, real)>)>)
    ensures r.Ok? ==> Variables(p).Ok? && r.value.0.Keys == Variables(p).value.Keys
    ensures r.Ok? ==> |r.value.1| == |p.constraints|
                      && (forall k :: 0 <= k < |p.constraints| ==> Covered(r.value.1[k].1, r.value.0.Keys))
                      && Covered(r.value.2, r.value.0.Keys)
    ensures r.Ok? ==> forall k :: 0 <= k < |p.constraints| ==>
                        NativeRow(p.constraints[k], r.value.0.Keys, fmt, fuel) == Ok(r.value.1[k])
  {
    var columns :- NativeColumns(p);
    var rows :- NativeRows(p.constraints, columns.Keys, fmt, fuel);
    var objective :- NativeObjective(p, columns.Keys, fmt, fuel);
    Ok((columns, rows, objective))
  }

  /** An objective naming a variable that no constraint mentions (say
      `maximize x + y` subject only to `x <= 5`) has no column for it, and
      `run` panics when it sets that coefficient. */
  lemma UncoveredObjectivePanics(p: LpProblem, fmt: real -> string, fuel: nat, k: nat)
    requires Variables(p).Ok?
    requires NativeRows(p.constraints, Variables(p).value.Keys, fmt, fuel).Ok?
    requires ObjectiveWalk(p, fmt, fuel).Ok?
    requires k < |ObjectiveWalk(p, fmt, fuel).value|
    requires ObjectiveWalk(p, fmt, fuel).value[k].0 !in Variables(p).value
    ensures NativeModel(p, fmt, fuel) == Panic(NoEntry)
  {
    var columns := NativeColumns(p).value;
    assert columns.Keys == Variables(p).value.Keys;
    assert !Covered(ObjectiveWalk(p, fmt, fuel).value, columns.Keys);
  }

  /** The status the solver library reports. */
  datatype RawStatus = Unlaunched | Finished | Stopped | Abandoned | UserEvent

  function NativeStatus(raw: RawStatus): (st: Status)
    ensures st == Optimal <==> raw == Finished
    ensures st == Infeasible <==> raw == Abandoned
    ensures st == NotSolved <==> raw != Finished && raw != Abandoned
  {
    match raw
    case Finished => Optimal
    case Abandoned => Infeasible
    case _ => NotSolved
  }

  /** The solution of `run`: every column's value, and the problem. `col`
      is the solver library's value of a column. */
  function NativeSolution(p: LpProblem, raw: RawStatus, col: string -> real): (r: Result<Solution>)
    ensures r.Ok? <==> Variables(p).Ok?
    ensures r.Ok? ==> r.value.status == NativeStatus(raw) && r.value.relatedProblem == Some(p)
    ensures r.Ok? ==> r.value.results.Keys == Variables(p).value.Keys
                      && forall n :: n in r.value.results ==> r.value.results[n] == col(n)
  {
    var columns :- NativeColumns(p);
    Ok(Solution(NativeStatus(raw), map n | n in columns :: col(n), Some(p)))
  }
}
