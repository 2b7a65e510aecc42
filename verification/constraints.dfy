/** Constraints over arena expressions, and sums of expressions
    (the constraint and `lp_sum` parts of src/dsl/variables.rs).
 */
module Constraints {
  import opened Wrappers
  import opened Tree
  import opened Arena
  import opened Simplify

  /** `Constraint`: the relation between the two sides. */
  datatype Constraint = GreaterOrEqual | LessOrEqual | Equal

  /** `LpConstraint(lhs, op, rhs)`. */
  datatype LpConstraint = LpConstraint(lhs: LpExpression, op: Constraint, rhs: LpExpression)

  /** The value of an expression under an assignment; an arena that holds
      no tree (such as the one `split_off_constant` leaves behind when the
      whole expression was a constant) counts as 0. */
  function Value(e: LpExpression, env: map<string, real>): real {
    if Valid(e) then Eval(Denote(e).value, env) else 0.0
  }

  predicate Compare(op: Constraint, x: real, y: real) {
    match op
    case GreaterOrEqual => x >= y
    case LessOrEqual => x <= y
    case Equal => x == y
  }

  /** Whether an assignment satisfies a constraint. */
  predicate Holds(c: LpConstraint, env: map<string, real>) {
    Compare(c.op, Value(c.lhs, env), Value(c.rhs, env))
  }

  /** A constraint between two expression trees: the boxed trees of
      src/dsl/operations.rs and src/solvers/minilp.rs, and the
      reference-counted trees of src/variables.rs. */
  datatype TreeConstraint = TreeConstraint(lhs: Expr, op: Constraint, rhs: Expr)

  predicate TreeHolds(c: TreeConstraint, env: map<string, real>) {
    Compare(c.op, Eval(c.lhs, env), Eval(c.rhs, env))
  }

  /** Two constraints with the same relation and the same difference between
      their sides are satisfied by the same assignments. */
  lemma SameDifference(c: LpConstraint, d: LpConstraint, env: map<string, real>)
    requires c.op == d.op
    requires Value(c.lhs, env) - Value(c.rhs, env) == Value(d.lhs, env) - Value(d.rhs, env)
    ensures Holds(c, env) <==> Holds(d, env)
  {
  }

  // generalize

  /** `LpConstraint::generalize`: moves everything to the left (`lhs - rhs`),
      simplifies, and takes the constant off to the right, negated. */
  function Generalize(c: LpConstraint, fmt: real -> string, fuel: nat): (r: Result<LpConstraint>)
    ensures !Valid(c.rhs) ==> r.Panic?
    ensures Valid(c.lhs) && Valid(c.rhs) ==>
      (r.Ok? <==> SimplifyTree(Comp(Subtraction, Denote(c.lhs).value, Denote(c.rhs).value), fmt, fuel).Some?)
    ensures r.Ok? ==> r.value.op == c.op
    ensures r.Ok? ==> Valid(r.value.rhs) && IsLit(Denote(r.value.rhs).value)
    ensures r.Ok? && Valid(c.lhs) ==>
      forall env :: Value(r.value.lhs, env) - Value(r.value.rhs, env) == Value(c.lhs, env) - Value(c.rhs, env)
  {
    var merged :- MergeClonedArenas(c.lhs, c.rhs, Subtraction);
    var simplified :- SimplifyExpr(merged, fmt, fuel);
    match SplitOffConstant(simplified)
    case Ok((rest, k)) =>
      var rhs := FromLeaf(LitVal(-k));
      assert Denote(rhs) == Some(Lit(-k));
      if Valid(c.lhs) then
        GeneralizeValue(merged, simplified, rest, k, c, fmt, fuel);
        Ok(LpConstraint(rest, c.op, rhs))
      else
        Ok(LpConstraint(rest, c.op, rhs))
    case Err(m) => Err(m)
    case Panic(m) => Panic(m)
  }

  lemma GeneralizeValue(merged: LpExpression, simplified: LpExpression, rest: LpExpression, k: real,
                        c: LpConstraint, fmt: real -> string, fuel: nat)
    requires Valid(c.lhs) && Valid(c.rhs)
    requires MergeClonedArenas(c.lhs, c.rhs, Subtraction) == Ok(merged)
    requires SimplifyExpr(merged, fmt, fuel) == Ok(simplified)
    requires SplitOffConstant(simplified) == Ok((rest, k))
    ensures forall env :: Value(rest, env) + k == Value(c.lhs, env) - Value(c.rhs, env)
  {
    forall env
      ensures Value(rest, env) + k == Value(c.lhs, env) - Value(c.rhs, env)
    {
      var s := Denote(simplified).value;
      SplitTreeValue(s, env);
      assert !Valid(New());
      assert Eval(s, env) == Eval(Denote(merged).value, env);
    }
  }

  /** A generalized constraint is satisfied by exactly the assignments that
      satisfy the original one. */
  lemma GeneralizeHolds(c: LpConstraint, fmt: real -> string, fuel: nat, env: map<string, real>)
    requires Valid(c.lhs)
    requires Generalize(c, fmt, fuel).Ok?
    ensures Holds(Generalize(c, fmt, fuel).value, env) <==> Holds(c, env)
  {
    SameDifference(Generalize(c, fmt, fuel).value, c, env);
  }

  // var

  const StackOverflow := "thread has overflowed its stack"

  /** Names of the variables `var` records from a tree: the right operand
      of a product only, both operands of a sum or a difference. */
  function VarNames(t: Expr): set<string> {
    match t
    case Leaf(l) => if VarName(l).Some? then {VarName(l).value} else {}
    case Comp(Multiplication, _, r) => VarNames(r)
    case Comp(_, l, r) => VarNames(l) + VarNames(r)
  }

  /** Whether the node at index `j` is a variable named `n`. */
  predicate NamesAt(a: seq<LpExprNode>, j: nat, n: string) {
    j < |a| && a[j].LeafNode? && VarName(a[j].leaf) == Some(n)
  }

  /** `LpConstraint::var`: records, for every variable reached from index
      `i` of the left-hand side, the constraint's index and the variable's
      arena index. A cycle in the arena, which the source follows until its
      stack overflows, is cut off by `fuel`. */
  function VarWalk(e: LpExpression, i: nat, ci: nat, lst: map<string, (nat, nat)>, fuel: nat)
    : (r: Result<map<string, (nat, nat)>>)
    ensures i >= |e.arena| ==> r == Panic(OutOfBound)
    ensures !r.Err?
    ensures r.Ok? ==> lst.Keys <= r.value.Keys
    ensures r.Ok? ==> forall n :: n in r.value ==>
      (n in lst && r.value[n] == lst[n]) || (r.value[n].0 == ci && NamesAt(e.arena, r.value[n].1, n))
    decreases fuel
  {
    var node :- ExprRefAt(e, i);
    if fuel == 0 then Panic(StackOverflow)
    else
      match node
      case LeafNode(l) =>
        if VarName(l).Some? then Ok(lst[VarName(l).value := (ci, i)]) else Ok(lst)
      case LpCompExpr(Multiplication, _, ri) => VarWalk(e, ri, ci, lst, fuel - 1)
      case LpCompExpr(_, li, ri) =>
        var m :- VarWalk(e, li, ci, lst, fuel - 1);
        VarWalk(e, ri, ci, m, fuel - 1)
  }

  /** On a tree, `var` adds exactly the names `VarNames` collects. */
  lemma {:induction false} VarWalkKeys(e: LpExpression, i: nat, ci: nat, lst: map<string, (nat, nat)>, fuel: nat)
    requires TreeAt(e.arena, i, fuel).Some?
    ensures VarWalk(e, i, ci, lst, fuel).Ok?
    ensures VarWalk(e, i, ci, lst, fuel).value.Keys == lst.Keys + VarNames(TreeAt(e.arena, i, fuel).value)
    ensures forall n :: n in VarNames(TreeAt(e.arena, i, fuel).value) ==> VarWalk(e, i, ci, lst, fuel).value[n].0 == ci
    decreases fuel
  {
    match e.arena[i]
    case LeafNode(l) =>
    case LpCompExpr(op, li, ri) =>
      VarWalkKeys(e, ri, ci, lst, fuel - 1);
      if op != Multiplication {
        VarWalkKeys(e, li, ci, lst, fuel - 1);
        var m := VarWalk(e, li, ci, lst, fuel - 1).value;
        VarWalkKeys(e, ri, ci, m, fuel - 1);
      }
  }

  // lp_sum

  const EmptySum := "vector should have at least one element"

  /** `lp_sum`: the first expression, then each following one added to the
      running sum with `merge_cloned_arenas`. */
  function LpSum(xs: seq<LpExpression>): (r: Result<LpExpression>)
    ensures |xs| == 0 ==> r == Panic(EmptySum)
    ensures |xs| == 1 ==> r == Ok(xs[0])
    ensures r.Ok? <==> |xs| > 0 && forall k :: 1 <= k < |xs| ==> Valid(xs[k])
    ensures r.Ok? && Valid(xs[0]) ==> Valid(r.value)
  {
    if |xs| == 0 then Panic(EmptySum)
    else if |xs| == 1 then Ok(xs[0])
    else
      var acc :- LpSum(xs[..|xs| - 1]);
      MergeClonedArenas(acc, xs[|xs| - 1], Addition)
  }

  /** The trees of a sequence of valid expressions. */
  function Trees(xs: seq<LpExpression>): (ts: seq<Expr>)
    requires forall k :: 0 <= k < |xs| ==> Valid(xs[k])
    ensures |ts| == |xs|
    ensures forall k :: 0 <= k < |xs| ==> Denote(xs[k]) == Some(ts[k])
  {
    if |xs| == 0 then []
    else
      var last := xs[|xs| - 1];
      assert Valid(last);
      Trees(xs[..|xs| - 1]) + [Denote(last).value]
  }

  /** The left-nested sum `((t0 + t1) + t2) + ...` */
  function SumTree(ts: seq<Expr>): Expr
    requires |ts| > 0
  {
    if |ts| == 1 then ts[0] else Comp(Addition, SumTree(ts[..|ts| - 1]), ts[|ts| - 1])
  }

  /** The sum of the values of the trees, first to last. */
  function Total(ts: seq<Expr>, env: map<string, real>): real {
    if |ts| == 0 then 0.0 else Eval(ts[0], env) + Total(ts[1..], env)
  }

  /** The sum of valid expressions stands for their left-nested sum. */
  lemma {:induction false} LpSumDenotes(xs: seq<LpExpression>)
    requires |xs| > 0 && forall k :: 0 <= k < |xs| ==> Valid(xs[k])
    ensures LpSum(xs).Ok? && Denote(LpSum(xs).value) == Some(SumTree(Trees(xs)))
  {
    if |xs| > 1 {
      var init := xs[..|xs| - 1];
      LpSumDenotes(init);
      assert Trees(xs)[..|xs| - 1] == Trees(init);
    }
  }

  lemma {:induction false} TotalAppend(ts: seq<Expr>, t: Expr, env: map<string, real>)
    ensures Total(ts + [t], env) == Total(ts, env) + Eval(t, env)
  {
    if |ts| > 0 {
      assert (ts + [t])[1..] == ts[1..] + [t];
      TotalAppend(ts[1..], t, env);
    }
  }

  /** The left-nested sum has the value of all its terms added up. */
  lemma {:induction false} SumTreeEval(ts: seq<Expr>, env: map<string, real>)
    requires |ts| > 0
    ensures Eval(SumTree(ts), env) == Total(ts, env)
  {
    if |ts| == 1 {
      assert Total(ts[1..], env) == 0.0;
    } else {
      var init := ts[..|ts| - 1];
      SumTreeEval(init, env);
      TotalAppend(init, ts[|ts| - 1], env);
      assert init + [ts[|ts| - 1]] == ts;
    }
  }

  /** `lp_sum` as the source writes it: a loop over the rest of the vector. */
  method LpSumLoop(xs: seq<LpExpression>) returns (r: Result<LpExpression>)
    ensures r == LpSum(xs)
  {
    if |xs| == 0 {
      return Panic(EmptySum);
    }
    var arena := xs[0];
    var i := 1;
    assert xs[..1] == [xs[0]];
    while i < |xs|
      invariant 1 <= i <= |xs|
      invariant LpSum(xs[..i]) == Ok(arena)
    {
      LpSumStep(xs, i, arena);
      var next := MergeClonedArenas(arena, xs[i], Addition);
      if next.IsFailure() {
        LpSumFails(xs, i + 1);
        return next;
      }
      arena := next.value;
      i := i + 1;
    }
    assert xs[..i] == xs;
    return Ok(arena);
  }

  /** One more term: the sum so far merged with it. */
  lemma LpSumStep(xs: seq<LpExpression>, i: nat, arena: LpExpression)
    requires 1 <= i < |xs| && LpSum(xs[..i]) == Ok(arena)
    ensures LpSum(xs[..i + 1]) == MergeClonedArenas(arena, xs[i], Addition)
  {
    assert xs[..i + 1][..i] == xs[..i];
  }

  /** Once a prefix of the sum fails, the whole sum fails the same way. */
  lemma {:induction false} LpSumFails(xs: seq<LpExpression>, n: nat)
    requires 0 < n <= |xs|
    requires LpSum(xs[..n]).IsFailure()
    ensures LpSum(xs) == LpSum(xs[..n])
    decreases |xs|
  {
    if n < |xs| {
      var init := xs[..|xs| - 1];
      assert init[..n] == xs[..n];
      LpSumFails(init, n);
      assert LpSum(init).IsFailure();
    } else {
      assert xs[..n] == xs;
    }
  }

  /** `sum(v, f)`: the sum of the images of the elements. */
  function Sum<T>(xs: seq<T>, f: T -> LpExpression): (r: Result<LpExpression>)
    ensures |xs| == 0 ==> r == Panic(EmptySum)
    ensures r.Ok? <==> |xs| > 0 && forall k :: 1 <= k < |xs| ==> Valid(f(xs[k]))
  {
    var images := seq(|xs|, k requires 0 <= k < |xs| => f(xs[k]));
    assert forall k :: 0 <= k < |xs| ==> images[k] == f(xs[k]);
    LpSum(images)
  }
}
