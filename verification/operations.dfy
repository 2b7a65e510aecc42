/** The operator syntax for building expressions and constraints
    (src/dsl/operations.rs).

    The operators in that file build boxed trees (`AddExpr(Box, Box)` and so
    on), which `Tree.Expr` models; the constraints they end in are arena
    constraints, so `le`, `ge` and `equal` lay each side out as an arena
    first (`FromTree`).
 */
module Operations {
  import opened Wrappers
  import opened Vars
  import opened Tree
  import opened Arena
  import opened Simplify
  import opened Constraints

  /** The `Into<LpExpression>` conversions: a number becomes a literal, a
      variable its leaf. */
  function FromNumber(n: real): (e: Expr)
    ensures IsLit(e) && forall env :: Eval(e, env) == n
  {
    Leaf(LitVal(n))
  }

  function FromInteger(v: LpInteger): (e: Expr)
    ensures e.Leaf? && VarName(e.leaf) == Some(v.name)
  {
    Leaf(ConsInt(v))
  }

  function FromBinary(v: LpBinary): (e: Expr)
    ensures e.Leaf? && VarName(e.leaf) == Some(v.name)
  {
    Leaf(ConsBin(v))
  }

  function FromContinuous(v: LpContinuous): (e: Expr)
    ensures e.Leaf? && VarName(e.leaf) == Some(v.name)
  {
    Leaf(ConsCont(v))
  }

  /** `expr + rhs`, `expr - rhs`, `expr * rhs`: the expression on the left,
      the converted argument on the right. */
  function Binary(op: Op, lhs: Expr, rhs: Expr): (e: Expr)
    ensures e.Comp? && e.op == op && e.left == lhs && e.right == rhs
    ensures forall env :: Eval(e, env) == Apply(op, Eval(lhs, env), Eval(rhs, env))
  {
    Comp(op, lhs, rhs)
  }

  /** `expr += rhs`, `expr -= rhs`, `expr *= rhs`: the expression is replaced
      by the operation applied to its old value. */
  function Assign(op: Op, self: Expr, rhs: Expr): (e: Expr)
    ensures e.Comp? && e.left == self && e.right == rhs && e.op == op
    ensures forall env :: Eval(e, env) == Apply(op, Eval(self, env), Eval(rhs, env))
  {
    Comp(op, self, rhs)
  }

  /** `e op= r` leaves `e` as `e op r` would. */
  lemma AssignIsBinary(op: Op, self: Expr, rhs: Expr)
    ensures Assign(op, self, rhs) == Binary(op, self, rhs)
  {
  }

  /** `variable op rhs`: the variable on the left; the source then calls a
      `normalize` method whose definition is not part of this model, so it
      is a parameter. */
  function VarBinary(op: Op, v: Leaf, rhs: Expr, normalize: Expr -> Expr): (e: Expr)
    requires VarName(v).Some?
    ensures e == normalize(Binary(op, Leaf(v), rhs))
    ensures (forall t, env :: Eval(normalize(t), env) == Eval(t, env)) ==>
      forall env :: Eval(e, env) == Apply(op, LeafValue(v, env), Eval(rhs, env))
  {
    normalize(Comp(op, Leaf(v), rhs))
  }

  /** `number op expr` and `number op variable`: the number, as a literal,
      on the left. */
  function NumberBinary(op: Op, n: real, rhs: Expr): (e: Expr)
    ensures e.Comp? && e.op == op && e.left == FromNumber(n) && e.right == rhs
    ensures forall env :: Eval(e, env) == Apply(op, n, Eval(rhs, env))
  {
    Comp(op, Leaf(LitVal(n)), rhs)
  }

  /** Negation of an expression or a variable: multiplication by -1. */
  function Neg(e: Expr): (r: Expr)
    ensures r.Comp? && r.op == Multiplication && r.left == Lit(-1.0) && r.right == e
  {
    Comp(Multiplication, Lit(-1.0), e)
  }

  /** Negation negates the value. */
  lemma NegEval(e: Expr, env: map<string, real>)
    ensures Eval(Neg(e), env) == -Eval(e, env)
  {
  }

  /** A tree laid out as a compact arena, children before parents. */
  function FromTree(t: Expr): (e: LpExpression)
    ensures Denote(e) == Some(t)
  {
    var a := PostOrder(t, 0);
    assert a[0 .. Size(t)] == a;
    PostOrderDenotes(a, t, 0, |a|);
    LpExpression(Size(t) - 1, a)
  }

  /** `le`, `ge` and `equal`: the constraint `self op other`, generalized. */
  function Relate(self: Expr, op: Constraint, other: Expr, fmt: real -> string, fuel: nat): (r: Result<LpConstraint>)
    ensures r.Ok? <==> SimplifyTree(Comp(Subtraction, self, other), fmt, fuel).Some?
    ensures r.Ok? ==> r.value.op == op && Valid(r.value.rhs) && IsLit(Denote(r.value.rhs).value)
    ensures r.Ok? ==> forall env :: Holds(r.value, env) <==> Compare(op, Eval(self, env), Eval(other, env))
  {
    var c := LpConstraint(FromTree(self), op, FromTree(other));
    var g :- Generalize(c, fmt, fuel);
    forall env
      ensures Holds(g, env) <==> Compare(op, Eval(self, env), Eval(other, env))
    {
      GeneralizeHolds(c, fmt, fuel, env);
    }
    Ok(g)
  }

  function Le(self: Expr, other: Expr, fmt: real -> string, fuel: nat): (r: Result<LpConstraint>)
    ensures r.Ok? ==> r.value.op == LessOrEqual
    ensures r.Ok? ==> forall env :: Holds(r.value, env) <==> Eval(self, env) <= Eval(other, env)
  {
    Relate(self, LessOrEqual, other, fmt, fuel)
  }

  function Ge(self: Expr, other: Expr, fmt: real -> string, fuel: nat): (r: Result<LpConstraint>)
    ensures r.Ok? ==> r.value.op == GreaterOrEqual
    ensures r.Ok? ==> forall env :: Holds(r.value, env) <==> Eval(self, env) >= Eval(other, env)
  {
    Relate(self, GreaterOrEqual, other, fmt, fuel)
  }

  function Equal(self: Expr, other: Expr, fmt: real -> string, fuel: nat): (r: Result<LpConstraint>)
    ensures r.Ok? ==> r.value.op == Constraint.Equal
    ensures r.Ok? ==> forall env :: Holds(r.value, env) <==> Eval(self, env) == Eval(other, env)
  {
    Relate(self, Constraint.Equal, other, fmt, fuel)
  }
}
