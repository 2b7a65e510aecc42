/** The older expression layer of src/variables.rs and src/operations.rs,
    whose expressions are reference-counted trees (modelled by `Tree.Expr`;
    sharing a subtree through `Rc` does not change what it denotes).

    Its `generalize` moves the right-hand side of a constraint to the left
    and takes the constant part off to the right. As written it gets the
    constant part wrong in two ways, exhibited below: a literal minus an
    expression loses its sign, and a literal factor does not scale the
    constants under it. `GeneralizeExact` is the split it evidently
    intends, and the constraint builders use it. */
module Legacy {
  import opened Wrappers
  import opened Vars
  import opened Tree
  import opened Constraints

  /** The shape the left-hand side of a generalized constraint has: no
      literal added or subtracted anywhere, literals only as the left
      factor of a product. */
  predicate NoConstantTerm(e: Expr) {
    match e
    case Leaf(l) => !l.LitVal?
    case Comp(Multiplication, a, b) => !IsLit(b) && (if IsLit(a) then NoConstantTerm(b) else true)
    case Comp(_, a, b) => NoConstantTerm(a) && NoConstantTerm(b)
  }

  // as written

  /** `dfs_remove_constant`: literals dropped from sums and differences, a
      literal factor moved to the left. */
  function RemoveConstant(e: Expr): (r: Expr)
    ensures e.Leaf? ==> r == e
    ensures !IsLit(e) ==> NoConstantTerm(r)
  {
    match e
    case Leaf(_) => e
    case Comp(Multiplication, a, b) =>
      if IsLit(a) then
        if IsLit(b) then Leaf(EmptyExpr) else Comp(Multiplication, a, RemoveConstant(b))
      else if IsLit(b) then Comp(Multiplication, b, RemoveConstant(a))
      else Comp(Multiplication, RemoveConstant(a), RemoveConstant(b))
    case Comp(op, a, b) =>
      if IsLit(a) then
        if IsLit(b) then Leaf(EmptyExpr) else RemoveConstant(b)
      else if IsLit(b) then RemoveConstant(a)
      else Comp(op, RemoveConstant(a), RemoveConstant(b))
  }

  /** `dfs_constant`: the constant part, accumulated on top of `acc`. */
  function DfsConstant(e: Expr, acc: real): real {
    match e
    case Leaf(_) => acc
    case Comp(Multiplication, a, b) =>
      if IsLit(a) then
        if IsLit(b) then acc + a.leaf.lit * b.leaf.lit else DfsConstant(b, acc)
      else if IsLit(b) then DfsConstant(a, acc + b.leaf.lit)
      else DfsConstant(b, acc) + DfsConstant(a, 0.0)
    case Comp(Addition, a, b) =>
      if IsLit(a) then
        if IsLit(b) then acc + a.leaf.lit + b.leaf.lit else DfsConstant(b, acc + a.leaf.lit)
      else if IsLit(b) then DfsConstant(a, acc + b.leaf.lit)
      else DfsConstant(b, acc) + DfsConstant(a, 0.0)
    case Comp(Subtraction, a, b) =>
      if IsLit(a) then
        if IsLit(b) then acc + a.leaf.lit - b.leaf.lit else DfsConstant(b, acc + a.leaf.lit)
      else if IsLit(b) then DfsConstant(a, acc - b.leaf.lit)
      else DfsConstant(a, acc) - DfsConstant(b, 0.0)
  }

  /** The accumulator only shifts the result. */
  lemma {:induction false} DfsConstantShifts(e: Expr, acc: real)
    ensures DfsConstant(e, acc) == acc + DfsConstant(e, 0.0)
  {
    match e
    case Leaf(_) =>
    case Comp(op, a, b) =>
      if IsLit(a) && IsLit(b) {
      } else if IsLit(a) {
        DfsConstantShifts(b, acc);
        if op != Multiplication {
          DfsConstantShifts(b, acc + a.leaf.lit);
          DfsConstantShifts(b, a.leaf.lit);
        }
      } else if IsLit(b) {
        DfsConstantShifts(a, acc + b.leaf.lit);
        DfsConstantShifts(a, acc - b.leaf.lit);
        DfsConstantShifts(a, b.leaf.lit);
        DfsConstantShifts(a, -b.leaf.lit);
      } else {
        DfsConstantShifts(a, acc);
        DfsConstantShifts(b, acc);
      }
  }

  /** `LpConstraint::generalize` as written: a constraint whose right-hand
      side is the literal 0 is kept; any other becomes
      `remove-constants(lhs - rhs) op -constant(lhs - rhs)`. */
  function Generalize(c: TreeConstraint): (r: TreeConstraint)
    ensures r.op == c.op
    ensures c.rhs == Lit(0.0) ==> r == c
    ensures c.rhs != Lit(0.0) ==> IsLit(r.rhs) && NoConstantTerm(r.lhs)
  {
    if c.rhs == Lit(0.0) then c
    else
      var moved := Comp(Subtraction, c.lhs, c.rhs);
      TreeConstraint(RemoveConstant(moved), c.op, Lit(-DfsConstant(moved, 0.0)))
  }

  /** `5 >= x` generalizes to `x >= -5`, which `x = 10` satisfies although
      `5 >= 10` is false: the sign of the subtracted side is lost. */
  lemma GeneralizeLosesSign(x: LpContinuous)
    ensures var c := TreeConstraint(Lit(5.0), GreaterOrEqual, Leaf(ConsCont(x)));
            var env := map[x.name := 10.0];
            Generalize(c) == TreeConstraint(Leaf(ConsCont(x)), GreaterOrEqual, Lit(-5.0))
            && !TreeHolds(c, env) && TreeHolds(Generalize(c), env)
  {
    var c := TreeConstraint(Lit(5.0), GreaterOrEqual, Leaf(ConsCont(x)));
    var moved := Comp(Subtraction, c.lhs, c.rhs);
    assert DfsConstant(moved, 0.0) == 5.0;
    assert RemoveConstant(moved) == Leaf(ConsCont(x));
  }

  /** `2 (x + 3) >= 1` generalizes to `2 x >= -2`, which `x = -2` violates
      although `2 (-2 + 3) >= 1` holds: the 3 is not scaled by the 2. */
  lemma GeneralizeDoesNotScale(x: LpContinuous)
    ensures var lhs := Comp(Multiplication, Lit(2.0), Comp(Addition, Leaf(ConsCont(x)), Lit(3.0)));
            var c := TreeConstraint(lhs, GreaterOrEqual, Lit(1.0));
            var env := map[x.name := -2.0];
            Generalize(c) == TreeConstraint(Comp(Multiplication, Lit(2.0), Leaf(ConsCont(x))), GreaterOrEqual, Lit(-2.0))
            && TreeHolds(c, env) && !TreeHolds(Generalize(c), env)
  {
    var inner := Comp(Addition, Leaf(ConsCont(x)), Lit(3.0));
    var lhs := Comp(Multiplication, Lit(2.0), inner);
    var moved := Comp(Subtraction, lhs, Lit(1.0));
    assert DfsConstant(inner, -1.0) == 2.0;
    assert DfsConstant(moved, 0.0) == 2.0;
    assert RemoveConstant(inner) == Leaf(ConsCont(x));
    assert RemoveConstant(lhs) == Comp(Multiplication, Lit(2.0), Leaf(ConsCont(x)));
    assert RemoveConstant(moved) == Comp(Multiplication, Lit(2.0), Leaf(ConsCont(x)));
    var env := map[x.name := -2.0];
    assert Eval(Leaf(ConsCont(x)), env) == -2.0;
    assert Eval(inner, env) == 1.0;
    assert Eval(lhs, env) == 2.0;
  }

  // corrected

  /** The constant part of an expression, scaled by literal factors and
      negated under a subtraction. A product of two non-literals is left
      whole, so it contributes no constant. */
  function ExactConstant(e: Expr): real {
    match e
    case Leaf(_) => 0.0
    case Comp(Multiplication, a, b) =>
      if IsLit(a) then
        if IsLit(b) then a.leaf.lit * b.leaf.lit else a.leaf.lit * ExactConstant(b)
      else if IsLit(b) then b.leaf.lit * ExactConstant(a)
      else 0.0
    case Comp(Addition, a, b) =>
      if IsLit(a) then
        if IsLit(b) then a.leaf.lit + b.leaf.lit else a.leaf.lit + ExactConstant(b)
      else if IsLit(b) then ExactConstant(a) + b.leaf.lit
      else ExactConstant(a) + ExactConstant(b)
    case Comp(Subtraction, a, b) =>
      if IsLit(a) then
        if IsLit(b) then a.leaf.lit - b.leaf.lit else a.leaf.lit - ExactConstant(b)
      else if IsLit(b) then ExactConstant(a) - b.leaf.lit
      else ExactConstant(a) - ExactConstant(b)
  }

  /** What is left once the constant part is taken off. */
  function ExactRest(e: Expr): (r: Expr)
    ensures !IsLit(e) ==> NoConstantTerm(r)
  {
    match e
    case Leaf(_) => e
    case Comp(Multiplication, a, b) =>
      if IsLit(a) then
        if IsLit(b) then Leaf(EmptyExpr) else Comp(Multiplication, a, ExactRest(b))
      else if IsLit(b) then Comp(Multiplication, b, ExactRest(a))
      else e
    case Comp(Addition, a, b) =>
      if IsLit(a) then
        if IsLit(b) then Leaf(EmptyExpr) else ExactRest(b)
      else if IsLit(b) then ExactRest(a)
      else Comp(Addition, ExactRest(a), ExactRest(b))
    case Comp(Subtraction, a, b) =>
      if IsLit(a) then
        if IsLit(b) then Leaf(EmptyExpr) else Comp(Multiplication, Lit(-1.0), ExactRest(b))
      else if IsLit(b) then ExactRest(a)
      else Comp(Subtraction, ExactRest(a), ExactRest(b))
  }

  /** The split is exact: the rest plus the constant is the expression,
      under every assignment. */
  lemma {:induction false} SplitExact(e: Expr, env: map<string, real>)
    ensures Split(e, env)
  {
    match e
    case Leaf(_) =>
    case Comp(op, a, b) =>
      SplitExact(a, env);
      SplitExact(b, env);
      match op
      case Multiplication => SplitProduct(a, b, env);
      case Addition => SplitSum(a, b, env);
      case Subtraction => SplitDifference(a, b, env);
  }

  predicate Split(e: Expr, env: map<string, real>) {
    Eval(e, env) == Eval(ExactRest(e), env) + ExactConstant(e)
  }

  lemma SplitProduct(a: Expr, b: Expr, env: map<string, real>)
    requires Split(a, env) && Split(b, env)
    ensures Split(Comp(Multiplication, a, b), env)
  {
    if IsLit(a) && !IsLit(b) {
      SplitLiteralTimes(a, b, env);
    } else if !IsLit(a) && IsLit(b) {
      SplitTimesLiteral(a, b, env);
    }
  }

  lemma SplitLiteralTimes(a: Expr, b: Expr, env: map<string, real>)
    requires IsLit(a) && !IsLit(b) && Split(b, env)
    ensures Split(Comp(Multiplication, a, b), env)
  {
    var e := Comp(Multiplication, a, b);
    var k := a.leaf.lit;
    assert Eval(a, env) == k;
    assert ExactRest(e) == Comp(Multiplication, a, ExactRest(b));
    ScaleSplit(k, Eval(b, env), Eval(ExactRest(b), env), ExactConstant(b));
  }

  lemma SplitTimesLiteral(a: Expr, b: Expr, env: map<string, real>)
    requires !IsLit(a) && IsLit(b) && Split(a, env)
    ensures Split(Comp(Multiplication, a, b), env)
  {
    var e := Comp(Multiplication, a, b);
    var k := b.leaf.lit;
    assert Eval(b, env) == k;
    assert ExactRest(e) == Comp(Multiplication, b, ExactRest(a));
    ScaleSplit(k, Eval(a, env), Eval(ExactRest(a), env), ExactConstant(a));
  }

  lemma SplitSum(a: Expr, b: Expr, env: map<string, real>)
    requires Split(a, env) && Split(b, env)
    ensures Split(Comp(Addition, a, b), env)
  {
  }

  lemma SplitDifference(a: Expr, b: Expr, env: map<string, real>)
    requires Split(a, env) && Split(b, env)
    ensures Split(Comp(Subtraction, a, b), env)
  {
  }

  lemma ScaleSplit(k: real, v: real, rest: real, c: real)
    requires v == rest + c
    ensures k * v == k * rest + k * c && v * k == k * rest + k * c
  {
  }

  /** `generalize` with the constant split exactly. */
  function GeneralizeExact(c: TreeConstraint): (r: TreeConstraint)
    ensures r.op == c.op
    ensures c.rhs == Lit(0.0) ==> r == c
    ensures c.rhs != Lit(0.0) ==> IsLit(r.rhs) && NoConstantTerm(r.lhs)
    ensures forall env :: TreeHolds(r, env) <==> TreeHolds(c, env)
  {
    if c.rhs == Lit(0.0) then c
    else
      var moved := Comp(Subtraction, c.lhs, c.rhs);
      var r := TreeConstraint(ExactRest(moved), c.op, Lit(-ExactConstant(moved)));
      assert forall env :: TreeHolds(r, env) <==> TreeHolds(c, env) by {
        forall env
          ensures TreeHolds(r, env) <==> TreeHolds(c, env)
        {
          SplitExact(moved, env);
        }
      }
      r
  }

  /** An expression with no literal anywhere. */
  predicate NoLiterals(e: Expr) {
    match e
    case Leaf(l) => !l.LitVal?
    case Comp(_, a, b) => NoLiterals(a) && NoLiterals(b)
  }

  lemma {:induction false} LiteralFreeSplit(e: Expr)
    requires NoLiterals(e)
    ensures RemoveConstant(e) == e == ExactRest(e)
    ensures DfsConstant(e, 0.0) == 0.0 == ExactConstant(e)
  {
    match e
    case Leaf(_) =>
    case Comp(op, a, b) =>
      LiteralFreeSplit(a);
      LiteralFreeSplit(b);
      DfsConstantShifts(b, 0.0);
  }

  /** Where the written `generalize` is right: between two sides without
      literals, it agrees with the exact split. */
  lemma GeneralizeAgreesWithoutLiterals(c: TreeConstraint)
    requires NoLiterals(c.lhs) && NoLiterals(c.rhs)
    ensures Generalize(c) == GeneralizeExact(c)
  {
    LiteralFreeSplit(Comp(Subtraction, c.lhs, c.rhs));
  }

  // building constraints and sums

  /** `le`, `ge` and `equal` of `LpOperations`: the constraint
      `self op other`, generalized by the `generalize` as written. It means
      `self op other` when neither side holds a literal; otherwise it can
      mean something else, as `RelateLosesSign` shows. */
  function Relate(self: Expr, op: Constraint, other: Expr): (c: TreeConstraint)
    ensures c.op == op
    ensures other == Lit(0.0) ==> c == TreeConstraint(self, op, other)
    ensures other != Lit(0.0) ==> IsLit(c.rhs) && NoConstantTerm(c.lhs)
    ensures NoLiterals(self) && NoLiterals(other) ==>
      forall env :: TreeHolds(c, env) <==> Compare(op, Eval(self, env), Eval(other, env))
  {
    var written := TreeConstraint(self, op, other);
    if NoLiterals(self) && NoLiterals(other) then
      GeneralizeAgreesWithoutLiterals(written);
      Generalize(written)
    else Generalize(written)
  }

  /** `5.0.ge(x)` builds `x >= -5`, which `x = 10` satisfies though
      `5 >= 10` is false. */
  lemma RelateLosesSign(x: LpContinuous)
    ensures var c := Relate(Lit(5.0), GreaterOrEqual, Leaf(ConsCont(x)));
            var env := map[x.name := 10.0];
            TreeHolds(c, env) && !Compare(GreaterOrEqual, 5.0, Eval(Leaf(ConsCont(x)), env))
  {
    GeneralizeLosesSign(x);
  }

  /** `le`, `ge` and `equal` with the exact generalization: the constraint
      holds exactly when `self op other` does. */
  function RelateIntended(self: Expr, op: Constraint, other: Expr): (c: TreeConstraint)
    ensures c.op == op
    ensures other != Lit(0.0) ==> IsLit(c.rhs) && NoConstantTerm(c.lhs)
    ensures forall env :: TreeHolds(c, env) <==> Compare(op, Eval(self, env), Eval(other, env))
  {
    GeneralizeExact(TreeConstraint(self, op, other))
  }

  /** The `Into<LpExpression>` of an `i32`: its literal. */
  function FromI32(n: int): (e: Expr)
    requires -0x8000_0000 <= n < 0x8000_0000
    ensures IsLit(e) && forall env :: Eval(e, env) == n as real
  {
    Lit(n as real)
  }

  /** `lp_sum`: nothing for no expressions, the expression itself for one,
      and otherwise the last one added to the sum of the others. */
  function LpSum(xs: seq<Expr>): (r: Expr)
    ensures |xs| == 0 ==> r == Leaf(EmptyExpr)
    ensures |xs| == 1 ==> r == xs[0]
    ensures |xs| >= 2 ==> r.Comp? && r.op == Addition && r.left == xs[|xs| - 1]
    decreases |xs|
  {
    if |xs| == 0 then Leaf(EmptyExpr)
    else if |xs| == 1 then xs[0]
    else Comp(Addition, xs[|xs| - 1], LpSum(xs[..|xs| - 1]))
  }

  /** The sum of the values of some expressions, first to last. */
  function SumOf(xs: seq<Expr>, env: map<string, real>): real {
    if |xs| == 0 then 0.0 else Eval(xs[0], env) + SumOf(xs[1..], env)
  }

  lemma {:induction false} SumOfLast(xs: seq<Expr>, env: map<string, real>)
    requires |xs| > 0
    ensures SumOf(xs, env) == SumOf(xs[..|xs| - 1], env) + Eval(xs[|xs| - 1], env)
  {
    if |xs| > 1 {
      SumOfLast(xs[1..], env);
      assert xs[1..][..|xs[1..]| - 1] == xs[..|xs| - 1][1..];
    }
  }

  /** A sum built by `lp_sum` is worth the sum of its parts. */
  lemma {:induction false} LpSumValue(xs: seq<Expr>, env: map<string, real>)
    ensures Eval(LpSum(xs), env) == SumOf(xs, env)
    decreases |xs|
  {
    if |xs| >= 2 {
      LpSumValue(xs[..|xs| - 1], env);
      SumOfLast(xs, env);
    } else if |xs| == 1 {
      assert xs[1..] == [];
    }
  }
}
