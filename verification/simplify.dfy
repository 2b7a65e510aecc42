/** `LpExpression::simplify` (src/dsl/variables.rs): rewriting an expression
    with algebraic rules until its text stops changing.

    The source walks the arena with a stack of node indices, rewriting the
    node it pops in place (overwriting it and its children, appending fresh
    nodes) and pushing the indices it wants to revisit. Every index it pushes
    is the handled node itself or one of its children after the rewrite, and a
    rewrite only touches the handled node's own subtree, so the pending
    entries always hang from disjoint subtrees. The model therefore keeps the
    tree the root denotes and a stack of paths from the root: popping a path,
    rewriting the subtree found there, and pushing the paths of the handled
    node or of its new children is the same walk, read on the tree.
 */
module Simplify {
  import opened Wrappers
  import opened Tree
  import opened Arena
  import opened Show

  /** A step from an operation node to one of its operands. */
  datatype Dir = Left | Right

  /** The subtree at a path, if the path stays inside the tree. */
  function At(t: Expr, p: seq<Dir>): Option<Expr>
    decreases |p|
  {
    if |p| == 0 then Some(t)
    else if t.Leaf? then None
    else At(if p[0] == Left then t.left else t.right, p[1..])
  }

  /** The tree with the subtree at path `p` replaced by `s` (unchanged when
      the path leaves the tree). */
  function Put(t: Expr, p: seq<Dir>, s: Expr): Expr
    decreases |p|
  {
    if |p| == 0 then s
    else if t.Leaf? then t
    else if p[0] == Left then Comp(t.op, Put(t.left, p[1..], s), t.right)
    else Comp(t.op, t.left, Put(t.right, p[1..], s))
  }

  /** Where a rule asks to look again, relative to the node it handled. */
  const Here: seq<Dir> := []
  const LeftChild: seq<Dir> := [Left]
  const RightChild: seq<Dir> := [Right]

  predicate IsLitOf(e: Expr, c: real) {
    e == Lit(c)
  }

  /** The rules for a product `l * r`: the rewritten node and the places to
      revisit, in the order they are pushed. */
  function MulRule(l: Expr, r: Expr): (Expr, seq<seq<Dir>>) {
    var same := Comp(Multiplication, l, r);
    if IsLitOf(r, 0.0) || IsLitOf(l, 0.0) then (Lit(0.0), [])
    else if IsLit(l) && IsLit(r) then (Lit(l.leaf.lit * r.leaf.lit), [])
    // distributivity
    else if r.Comp? && r.op == Addition then
      (Comp(Addition, Comp(Multiplication, l, r.left), Comp(Multiplication, l, r.right)), [Here])
    else if l.Comp? && l.op == Addition then
      (Comp(Addition, Comp(Multiplication, r, l.left), Comp(Multiplication, r, l.right)), [Here])
    else if l.Comp? && l.op == Subtraction then
      (Comp(Subtraction, Comp(Multiplication, r, l.left), Comp(Multiplication, r, l.right)), [Here])
    else if r.Comp? && r.op == Subtraction then
      (Comp(Subtraction, Comp(Multiplication, l, r.left), Comp(Multiplication, l, r.right)), [Here])
    // gathering constant factors
    else if IsLit(l) && r.Comp? && r.op == Multiplication then
      if IsLit(r.left) then (Comp(Multiplication, Lit(l.leaf.lit * r.left.leaf.lit), r.right), [Here])
      else if IsLit(r.right) then (Comp(Multiplication, Lit(l.leaf.lit * r.right.leaf.lit), r.left), [Here])
      else (Comp(Multiplication, Comp(Multiplication, l, r.left), r.right), [Here])
    else if r.Comp? && r.op == Multiplication then
      (Comp(Multiplication, Comp(Multiplication, l, r.left), r.right), [Here])
    // the literal goes first
    else if IsLit(r) then (Comp(Multiplication, r, l), [Here])
    else if IsLit(l) then (same, [])
    else if l.Comp? then (same, [LeftChild])
    else (same, [])
  }

  /** The places to revisit when no rule applies to `l + r` or `l - r`: the
      operands that are operations, left first. */
  function Descend(l: Expr, r: Expr): seq<seq<Dir>> {
    if l.Comp? && r.Comp? then [LeftChild, RightChild]
    else if l.Comp? then [LeftChild]
    else if r.Comp? then [RightChild]
    else []
  }

  /** The rules for a sum `l + r`. */
  function AddRule(l: Expr, r: Expr): (Expr, seq<seq<Dir>>) {
    var same := Comp(Addition, l, r);
    if IsLitOf(l, 0.0) then (r, [Here])
    else if IsLitOf(r, 0.0) then (l, [Here])
    else if IsLit(l) && IsLit(r) then (Lit(l.leaf.lit + r.leaf.lit), [])
    // the literal goes last
    else if IsLit(l) then (Comp(Addition, r, l), [LeftChild])
    // associativity
    else if r.Comp? && r.op == Addition then
      (Comp(Addition, Comp(Addition, l, r.left), r.right), [Here])
    else if r.Comp? && r.op == Subtraction then
      (Comp(Subtraction, Comp(Addition, l, r.left), r.right), [Here])
    // gathering constant terms
    else if l.Comp? && l.op == Addition && IsLit(r) then
      if IsLit(l.right) then (Comp(Addition, l.left, Lit(l.right.leaf.lit + r.leaf.lit)), [Here])
      else (same, [LeftChild])
    else if l.Comp? && l.op == Subtraction && IsLit(r) then
      if IsLit(l.right) then (Comp(Addition, l.left, Lit(r.leaf.lit - l.right.leaf.lit)), [LeftChild])
      else if IsLit(l.left) then
        (Comp(Addition, Comp(Multiplication, Lit(-1.0), l.right), Lit(l.left.leaf.lit + r.leaf.lit)), [Here])
      else (same, [LeftChild])
    // moving a constant term outwards
    else if l.Comp? && l.op == Addition then
      if IsLit(l.right) then (Comp(Addition, Comp(Addition, l.left, r), l.right), [LeftChild])
      else (same, [RightChild, LeftChild])
    else if l.Comp? && l.op == Subtraction then
      if IsLit(l.right) then (Comp(Subtraction, Comp(Addition, l.left, r), l.right), [LeftChild])
      else if IsLit(l.left) then (Comp(Addition, Comp(Subtraction, r, l.right), l.left), [LeftChild])
      else (same, [LeftChild, RightChild])
    // a + a = 2 a
    else if l.Leaf? && r.Leaf? && l == r then (Comp(Multiplication, Lit(2.0), l), [RightChild])
    else (same, Descend(l, r))
  }

  /** The rules for a difference `l - r`. */
  function SubRule(l: Expr, r: Expr): (Expr, seq<seq<Dir>>) {
    var same := Comp(Subtraction, l, r);
    if IsLitOf(r, 0.0) then (l, [Here])
    else if r.Comp? && r.op == Addition then
      (Comp(Subtraction, Comp(Subtraction, l, r.left), r.right), [Here])
    else if r.Comp? && r.op == Subtraction then
      (Comp(Addition, Comp(Subtraction, l, r.left), r.right), [Here])
    // the literal goes last
    else if IsLit(l) then (Comp(Addition, Comp(Multiplication, Lit(-1.0), r), l), [Here])
    // gathering constant terms
    else if l.Comp? && l.op == Subtraction && IsLit(r) then
      if IsLit(l.right) then (Comp(Subtraction, l.left, Lit(l.right.leaf.lit + r.leaf.lit)), [Here])
      else if IsLit(l.left) then
        (Comp(Addition, Comp(Multiplication, Lit(-1.0), l.right), Lit(l.left.leaf.lit - r.leaf.lit)), [Here])
      else (same, [LeftChild])
    else if l.Comp? && l.op == Addition && IsLit(r) then
      if IsLit(l.right) then (Comp(Addition, l.left, Lit(l.right.leaf.lit - r.leaf.lit)), [Here])
      else (same, [LeftChild])
    // moving a constant term outwards
    else if l.Comp? && l.op == Addition then
      if IsLit(l.right) then (Comp(Addition, Comp(Subtraction, l.left, r), l.right), [Here])
      else (same, [LeftChild, RightChild])
    else if l.Comp? && l.op == Subtraction then
      if IsLit(l.right) then (Comp(Subtraction, Comp(Subtraction, l.left, r), l.right), [LeftChild])
      else if IsLit(l.left) then
        (Comp(Addition, Comp(Subtraction, Comp(Multiplication, Lit(-1.0), l.right), r), l.left), [LeftChild])
      else (same, [RightChild, LeftChild])
    // a - a = 0
    else if l.Leaf? && r.Leaf? && l == r then (Lit(0.0), [])
    else (same, Descend(l, r))
  }

  /** One visit of a node: its rewrite and the places to revisit. A leaf is
      left alone. */
  function Rule(n: Expr): (r: (Expr, seq<seq<Dir>>))
    ensures forall k :: 0 <= k < |r.1| ==> At(r.0, r.1[k]).Some?
  {
    match n
    case Leaf(_) => (n, [])
    case Comp(Multiplication, l, r) => MulRule(l, r)
    case Comp(Addition, l, r) => AddRule(l, r)
    case Comp(Subtraction, l, r) => SubRule(l, r)
  }

  /** Each rule is an identity of arithmetic: a rewritten node has the value
      of the node it replaces, under every assignment. */
  lemma RuleSound(n: Expr, env: map<string, real>)
    ensures Eval(Rule(n).0, env) == Eval(n, env)
  {
    match n
    case Leaf(_) =>
    case Comp(Multiplication, l, r) => MulSound(l, r, env);
    case Comp(Addition, l, r) => AddSound(l, r, env);
    case Comp(Subtraction, l, r) => SubSound(l, r, env);
  }

  lemma MulSound(l: Expr, r: Expr, env: map<string, real>)
    ensures Eval(MulRule(l, r).0, env) == Eval(Comp(Multiplication, l, r), env)
  {
    if IsLitOf(r, 0.0) || IsLitOf(l, 0.0) || (IsLit(l) && IsLit(r)) {
      MulLiterals(l, r, env);
    } else if r.Comp? && (r.op == Addition || r.op == Subtraction) && !(l.Comp? && l.op != Multiplication && r.op == Subtraction) {
      DistributeLeft(l, r, env);
    } else if l.Comp? && (l.op == Addition || l.op == Subtraction) {
      DistributeRight(l, r, env);
    } else if r.Comp? && r.op == Multiplication {
      Gather(l, r, env);
    } else {
      MulReorder(l, r, env);
    }
  }

  /** A product with a zero factor, and a product of two literals. */
  lemma MulLiterals(l: Expr, r: Expr, env: map<string, real>)
    requires IsLitOf(r, 0.0) || IsLitOf(l, 0.0) || (IsLit(l) && IsLit(r))
    ensures Eval(MulRule(l, r).0, env) == Eval(Comp(Multiplication, l, r), env)
  {
    if IsLitOf(r, 0.0) || IsLitOf(l, 0.0) {
      assert MulRule(l, r).0 == Lit(0.0);
    } else {
      assert MulRule(l, r).0 == Lit(l.leaf.lit * r.leaf.lit);
    }
  }

  /** The literal goes first, or nothing changes. */
  lemma MulReorder(l: Expr, r: Expr, env: map<string, real>)
    requires !IsLitOf(r, 0.0) && !IsLitOf(l, 0.0) && !(IsLit(l) && IsLit(r))
    requires !(l.Comp? && (l.op == Addition || l.op == Subtraction))
    requires !r.Comp?
    ensures Eval(MulRule(l, r).0, env) == Eval(Comp(Multiplication, l, r), env)
  {
    if IsLit(r) {
      assert MulRule(l, r).0 == Comp(Multiplication, r, l);
      assert Eval(r, env) * Eval(l, env) == Eval(l, env) * Eval(r, env);
    } else {
      assert MulRule(l, r).0 == Comp(Multiplication, l, r);
    }
  }

  lemma DistributeLeft(l: Expr, r: Expr, env: map<string, real>)
    requires !IsLitOf(r, 0.0) && !IsLitOf(l, 0.0) && !(IsLit(l) && IsLit(r))
    requires r.Comp? && (r.op == Addition || r.op == Subtraction)
    requires r.op == Subtraction ==> !(l.Comp? && l.op != Multiplication)
    ensures Eval(MulRule(l, r).0, env) == Eval(Comp(Multiplication, l, r), env)
  {
    DistributeLeftShape(l, r);
    DistributesOver(r.op, l, r.left, r.right, env);
  }

  lemma DistributeRight(l: Expr, r: Expr, env: map<string, real>)
    requires !IsLitOf(r, 0.0) && !IsLitOf(l, 0.0) && !(IsLit(l) && IsLit(r))
    requires l.Comp? && (l.op == Addition || l.op == Subtraction)
    requires !(r.Comp? && r.op == Addition)
    ensures Eval(MulRule(l, r).0, env) == Eval(Comp(Multiplication, l, r), env)
  {
    DistributeRightShape(l, r);
    DistributesOver(l.op, r, l.left, l.right, env);
  }

  lemma Gather(l: Expr, r: Expr, env: map<string, real>)
    requires !IsLitOf(r, 0.0) && !IsLitOf(l, 0.0)
    requires !(l.Comp? && (l.op == Addition || l.op == Subtraction))
    requires r.Comp? && r.op == Multiplication
    ensures Eval(MulRule(l, r).0, env) == Eval(Comp(Multiplication, l, r), env)
  {
    GatherFactorsShape(l, r);
    if IsLit(l) && IsLit(r.left) {
      GatherLeft(l, r, env);
    } else if IsLit(l) && IsLit(r.right) {
      GatherRight(l, r, env);
    } else {
      GatherNested(l, r, env);
    }
  }

  /** `i * (a + b)` and `i * (a - b)` distribute, except that `(x ± y) * (a - b)`
      is left to the next rule. */
  lemma DistributeLeftShape(l: Expr, r: Expr)
    requires !IsLitOf(r, 0.0) && !IsLitOf(l, 0.0) && !(IsLit(l) && IsLit(r))
    requires r.Comp? && (r.op == Addition || r.op == Subtraction)
    requires r.op == Subtraction ==> !(l.Comp? && l.op != Multiplication)
    ensures MulRule(l, r).0 == Comp(r.op, Comp(Multiplication, l, r.left), Comp(Multiplication, l, r.right))
  {
  }

  /** `(a + b) * i` and `(a - b) * i` distribute. */
  lemma DistributeRightShape(l: Expr, r: Expr)
    requires !IsLitOf(r, 0.0) && !IsLitOf(l, 0.0) && !(IsLit(l) && IsLit(r))
    requires l.Comp? && (l.op == Addition || l.op == Subtraction)
    requires !(r.Comp? && r.op == Addition)
    ensures MulRule(l, r).0 == Comp(l.op, Comp(Multiplication, r, l.left), Comp(Multiplication, r, l.right))
  {
  }

  /** `i * (a ± b)` is `i * a ± i * b`, whichever side `i` stands on. */
  lemma DistributesOver(op: Op, i: Expr, a: Expr, b: Expr, env: map<string, real>)
    requires op == Addition || op == Subtraction
    ensures Eval(Comp(op, Comp(Multiplication, i, a), Comp(Multiplication, i, b)), env)
            == Eval(Comp(Multiplication, i, Comp(op, a, b)), env)
            == Eval(Comp(Multiplication, Comp(op, a, b), i), env)
  {
    Distributes(Eval(i, env), Eval(a, env), Eval(b, env));
  }

  lemma Distributes(x: real, y: real, z: real)
    ensures x * (y + z) == x * y + x * z == (y + z) * x
    ensures x * (y - z) == x * y - x * z == (y - z) * x
  {
  }

  lemma Associates(x: real, a: real, b: real)
    ensures x * (a * b) == (x * a) * b
  {
  }

  lemma Swaps(x: real, a: real, b: real)
    ensures x * (a * b) == (x * b) * a
  {
  }

  /** `x * (a * b)` regrouped as `(x * a) * b`. */
  lemma GatherNested(l: Expr, r: Expr, env: map<string, real>)
    requires r.Comp? && r.op == Multiplication
    ensures Eval(Comp(Multiplication, Comp(Multiplication, l, r.left), r.right), env) == Eval(Comp(Multiplication, l, r), env)
  {
    Associates(Eval(l, env), Eval(r.left, env), Eval(r.right, env));
  }

  /** `c1 * (c2 * b)` folded to `(c1 * c2) * b`. */
  lemma GatherLeft(l: Expr, r: Expr, env: map<string, real>)
    requires r.Comp? && r.op == Multiplication && IsLit(l) && IsLit(r.left)
    ensures Eval(Comp(Multiplication, Lit(l.leaf.lit * r.left.leaf.lit), r.right), env) == Eval(Comp(Multiplication, l, r), env)
  {
    var c1, c2, b := l.leaf.lit, r.left.leaf.lit, Eval(r.right, env);
    assert Eval(l, env) == c1 && Eval(r.left, env) == c2;
    assert Eval(Comp(Multiplication, l, r), env) == c1 * (c2 * b);
    Associates(c1, c2, b);
  }

  /** `c1 * (a * c2)` folded to `(c1 * c2) * a`. */
  lemma GatherRight(l: Expr, r: Expr, env: map<string, real>)
    requires r.Comp? && r.op == Multiplication && IsLit(l) && IsLit(r.right)
    ensures Eval(Comp(Multiplication, Lit(l.leaf.lit * r.right.leaf.lit), r.left), env) == Eval(Comp(Multiplication, l, r), env)
  {
    var c1, a, c2 := l.leaf.lit, Eval(r.left, env), r.right.leaf.lit;
    assert Eval(l, env) == c1 && Eval(r.right, env) == c2;
    assert Eval(Comp(Multiplication, l, r), env) == c1 * (a * c2);
    Swaps(c1, a, c2);
  }

  /** The three rewrites of a product by a product. */
  lemma GatherFactorsShape(l: Expr, r: Expr)
    requires !IsLitOf(r, 0.0) && !IsLitOf(l, 0.0)
    requires !(l.Comp? && (l.op == Addition || l.op == Subtraction))
    requires r.Comp? && r.op == Multiplication
    ensures IsLit(l) && IsLit(r.left) ==>
      MulRule(l, r).0 == Comp(Multiplication, Lit(l.leaf.lit * r.left.leaf.lit), r.right)
    ensures IsLit(l) && !IsLit(r.left) && IsLit(r.right) ==>
      MulRule(l, r).0 == Comp(Multiplication, Lit(l.leaf.lit * r.right.leaf.lit), r.left)
    ensures !(IsLit(l) && (IsLit(r.left) || IsLit(r.right))) ==>
      MulRule(l, r).0 == Comp(Multiplication, Comp(Multiplication, l, r.left), r.right)
  {
    if IsLit(l) && IsLit(r.left) {
      var m := MulRule(l, r).0;
      assert m.Comp? && m.op == Multiplication && m.right == r.right;
      assert m.left.Leaf? && m.left.leaf.LitVal?;
      assert m.left.leaf.lit == l.leaf.lit * r.left.leaf.lit;
    } else if IsLit(l) && IsLit(r.right) {
      var m := MulRule(l, r).0;
      assert m.Comp? && m.op == Multiplication && m.right == r.left;
      assert m.left.Leaf? && m.left.leaf.LitVal?;
      assert m.left.leaf.lit == l.leaf.lit * r.right.leaf.lit;
    }
  }

  /** `-1 * e` is the negation of `e`. */
  lemma Negates(e: Expr, env: map<string, real>)
    ensures Eval(Comp(Multiplication, Lit(-1.0), e), env) == -Eval(e, env)
  {
  }

  lemma AddSound(l: Expr, r: Expr, env: map<string, real>)
    ensures Eval(AddRule(l, r).0, env) == Eval(Comp(Addition, l, r), env)
  {
    if IsLit(l) || IsLitOf(r, 0.0) {
      AddLiterals(l, r, env);
    } else if r.Comp? && r.op != Multiplication {
      AddAssociate(l, r, env);
    } else if l.Comp? && l.op != Multiplication && IsLit(r) {
      AddGather(l, r, env);
    } else if l.Comp? && l.op != Multiplication {
      AddExtract(l, r, env);
    } else {
      AddDouble(l, r, env);
    }
  }

  /** A zero term, two literals, and a literal moved last. */
  lemma AddLiterals(l: Expr, r: Expr, env: map<string, real>)
    requires IsLit(l) || IsLitOf(r, 0.0)
    ensures Eval(AddRule(l, r).0, env) == Eval(Comp(Addition, l, r), env)
  {
    AddLiteralsShape(l, r);
  }

  lemma AddLiteralsShape(l: Expr, r: Expr)
    requires IsLit(l) || IsLitOf(r, 0.0)
    ensures IsLitOf(l, 0.0) ==> AddRule(l, r).0 == r
    ensures !IsLitOf(l, 0.0) && IsLitOf(r, 0.0) ==> AddRule(l, r).0 == l
    ensures !IsLitOf(l, 0.0) && !IsLitOf(r, 0.0) && IsLit(r) ==> AddRule(l, r).0 == Lit(l.leaf.lit + r.leaf.lit)
    ensures !IsLitOf(l, 0.0) && !IsLit(r) ==> AddRule(l, r).0 == Comp(Addition, r, l)
  {
  }

  /** `a + (b + c)` and `a + (b - c)`. */
  lemma AddAssociate(l: Expr, r: Expr, env: map<string, real>)
    requires !IsLit(l) && r.Comp? && r.op != Multiplication
    ensures Eval(AddRule(l, r).0, env) == Eval(Comp(Addition, l, r), env)
  {
    assert AddRule(l, r).0 == Comp(r.op, Comp(Addition, l, r.left), r.right);
  }

  /** `(a + c1) + c2` and `(a - c1) + c2`, `(c1 - b) + c2`. */
  lemma AddGather(l: Expr, r: Expr, env: map<string, real>)
    requires !IsLit(l) && !IsLitOf(r, 0.0) && IsLit(r)
    requires l.Comp? && l.op != Multiplication
    ensures Eval(AddRule(l, r).0, env) == Eval(Comp(Addition, l, r), env)
  {
    AddGatherShape(l, r);
    assert Eval(l, env) == Apply(l.op, Eval(l.left, env), Eval(l.right, env));
    if l.op == Subtraction && !IsLit(l.right) && IsLit(l.left) {
      Negates(l.right, env);
    }
  }

  lemma AddGatherShape(l: Expr, r: Expr)
    requires !IsLit(l) && !IsLitOf(r, 0.0) && IsLit(r)
    requires l.Comp? && l.op != Multiplication
    ensures l.op == Addition && IsLit(l.right) ==>
      AddRule(l, r).0 == Comp(Addition, l.left, Lit(l.right.leaf.lit + r.leaf.lit))
    ensures l.op == Subtraction && IsLit(l.right) ==>
      AddRule(l, r).0 == Comp(Addition, l.left, Lit(r.leaf.lit - l.right.leaf.lit))
    ensures l.op == Subtraction && !IsLit(l.right) && IsLit(l.left) ==>
      AddRule(l, r).0 == Comp(Addition, Comp(Multiplication, Lit(-1.0), l.right), Lit(l.left.leaf.lit + r.leaf.lit))
    ensures !IsLit(l.right) && !(l.op == Subtraction && IsLit(l.left)) ==> AddRule(l, r).0 == Comp(Addition, l, r)
  {
  }

  /** `(a + c1) + x`, `(a - c1) + x` and `(c1 - b) + x`. */
  lemma AddExtract(l: Expr, r: Expr, env: map<string, real>)
    requires !IsLitOf(r, 0.0) && !IsLit(r) && !(r.Comp? && r.op != Multiplication)
    requires l.Comp? && l.op != Multiplication
    ensures Eval(AddRule(l, r).0, env) == Eval(Comp(Addition, l, r), env)
  {
    AddExtractShape(l, r);
    assert Eval(l, env) == Apply(l.op, Eval(l.left, env), Eval(l.right, env));
  }

  lemma AddExtractShape(l: Expr, r: Expr)
    requires !IsLitOf(r, 0.0) && !IsLit(r) && !(r.Comp? && r.op != Multiplication)
    requires l.Comp? && l.op != Multiplication
    ensures IsLit(l.right) ==> AddRule(l, r).0 == Comp(l.op, Comp(Addition, l.left, r), l.right)
    ensures l.op == Subtraction && !IsLit(l.right) && IsLit(l.left) ==>
      AddRule(l, r).0 == Comp(Addition, Comp(Subtraction, r, l.right), l.left)
    ensures !IsLit(l.right) && !(l.op == Subtraction && IsLit(l.left)) ==> AddRule(l, r).0 == Comp(Addition, l, r)
  {
  }

  /** `a + a` and the sums no rule rewrites. */
  lemma AddDouble(l: Expr, r: Expr, env: map<string, real>)
    requires !IsLit(l) && !IsLitOf(r, 0.0) && !(r.Comp? && r.op != Multiplication)
    requires !(l.Comp? && l.op != Multiplication)
    ensures Eval(AddRule(l, r).0, env) == Eval(Comp(Addition, l, r), env)
  {
    if l.Leaf? && r.Leaf? && l == r {
      assert AddRule(l, r).0 == Comp(Multiplication, Lit(2.0), l);
    } else {
      assert AddRule(l, r).0 == Comp(Addition, l, r);
    }
  }

  lemma SubSound(l: Expr, r: Expr, env: map<string, real>)
    ensures Eval(SubRule(l, r).0, env) == Eval(Comp(Subtraction, l, r), env)
  {
    if IsLitOf(r, 0.0) || (r.Comp? && r.op != Multiplication) || IsLit(l) {
      SubLeading(l, r, env);
    } else if l.Comp? && l.op != Multiplication && IsLit(r) {
      SubGather(l, r, env);
    } else if l.Comp? && l.op != Multiplication {
      SubExtract(l, r, env);
    } else if l.Leaf? && r.Leaf? && l == r {
      assert SubRule(l, r).0 == Lit(0.0);
    } else {
      assert SubRule(l, r).0 == Comp(Subtraction, l, r);
    }
  }

  /** `x - 0`, `a - (b + c)`, `a - (b - c)` and a literal moved last. */
  lemma SubLeading(l: Expr, r: Expr, env: map<string, real>)
    requires IsLitOf(r, 0.0) || (r.Comp? && r.op != Multiplication) || IsLit(l)
    ensures Eval(SubRule(l, r).0, env) == Eval(Comp(Subtraction, l, r), env)
  {
    SubLeadingShape(l, r);
    Negates(r, env);
  }

  lemma SubLeadingShape(l: Expr, r: Expr)
    requires IsLitOf(r, 0.0) || (r.Comp? && r.op != Multiplication) || IsLit(l)
    ensures IsLitOf(r, 0.0) ==> SubRule(l, r).0 == l
    ensures r.Comp? && r.op == Addition ==> SubRule(l, r).0 == Comp(Subtraction, Comp(Subtraction, l, r.left), r.right)
    ensures r.Comp? && r.op == Subtraction ==> SubRule(l, r).0 == Comp(Addition, Comp(Subtraction, l, r.left), r.right)
    ensures !IsLitOf(r, 0.0) && !(r.Comp? && r.op != Multiplication) ==>
      SubRule(l, r).0 == Comp(Addition, Comp(Multiplication, Lit(-1.0), r), l)
  {
  }

  /** `(a - c1) - c2`, `(c1 - b) - c2` and `(a + c1) - c2`. */
  lemma SubGather(l: Expr, r: Expr, env: map<string, real>)
    requires !IsLit(l) && !IsLitOf(r, 0.0) && IsLit(r)
    requires l.Comp? && l.op != Multiplication
    ensures Eval(SubRule(l, r).0, env) == Eval(Comp(Subtraction, l, r), env)
  {
    SubGatherShape(l, r);
    assert Eval(l, env) == Apply(l.op, Eval(l.left, env), Eval(l.right, env));
    if l.op == Subtraction && !IsLit(l.right) && IsLit(l.left) {
      Negates(l.right, env);
    }
  }

  lemma SubGatherShape(l: Expr, r: Expr)
    requires !IsLit(l) && !IsLitOf(r, 0.0) && IsLit(r)
    requires l.Comp? && l.op != Multiplication
    ensures l.op == Subtraction && IsLit(l.right) ==>
      SubRule(l, r).0 == Comp(Subtraction, l.left, Lit(l.right.leaf.lit + r.leaf.lit))
    ensures l.op == Subtraction && !IsLit(l.right) && IsLit(l.left) ==>
      SubRule(l, r).0 == Comp(Addition, Comp(Multiplication, Lit(-1.0), l.right), Lit(l.left.leaf.lit - r.leaf.lit))
    ensures l.op == Addition && IsLit(l.right) ==>
      SubRule(l, r).0 == Comp(Addition, l.left, Lit(l.right.leaf.lit - r.leaf.lit))
    ensures !IsLit(l.right) && !(l.op == Subtraction && IsLit(l.left)) ==> SubRule(l, r).0 == Comp(Subtraction, l, r)
  {
  }

  /** `(a + c1) - x`, `(a - c1) - x` and `(c1 - b) - x`. */
  lemma SubExtract(l: Expr, r: Expr, env: map<string, real>)
    requires !IsLitOf(r, 0.0) && !IsLit(r) && !(r.Comp? && r.op != Multiplication)
    requires l.Comp? && l.op != Multiplication
    ensures Eval(SubRule(l, r).0, env) == Eval(Comp(Subtraction, l, r), env)
  {
    SubExtractShape(l, r);
    assert Eval(l, env) == Apply(l.op, Eval(l.left, env), Eval(l.right, env));
    if l.op == Subtraction && !IsLit(l.right) && IsLit(l.left) {
      var m := Comp(Multiplication, Lit(-1.0), l.right);
      Negates(l.right, env);
      assert Eval(Comp(Subtraction, m, r), env) == -Eval(l.right, env) - Eval(r, env);
    }
  }

  lemma SubExtractShape(l: Expr, r: Expr)
    requires !IsLitOf(r, 0.0) && !IsLit(r) && !(r.Comp? && r.op != Multiplication)
    requires l.Comp? && l.op != Multiplication
    ensures l.op == Addition && IsLit(l.right) ==>
      SubRule(l, r).0 == Comp(Addition, Comp(Subtraction, l.left, r), l.right)
    ensures l.op == Subtraction && IsLit(l.right) ==>
      SubRule(l, r).0 == Comp(Subtraction, Comp(Subtraction, l.left, r), l.right)
    ensures l.op == Subtraction && !IsLit(l.right) && IsLit(l.left) ==>
      SubRule(l, r).0 == Comp(Addition, Comp(Subtraction, Comp(Multiplication, Lit(-1.0), l.right), r), l.left)
    ensures !IsLit(l.right) && !(l.op == Subtraction && IsLit(l.left)) ==> SubRule(l, r).0 == Comp(Subtraction, l, r)
  {
  }

  /** Replacing a subtree by one of equal value keeps the value of the tree. */
  lemma {:induction false} PutEval(t: Expr, p: seq<Dir>, s: Expr, env: map<string, real>)
    requires At(t, p).Some? && Eval(s, env) == Eval(At(t, p).value, env)
    ensures Eval(Put(t, p, s), env) == Eval(t, env)
    decreases |p|
  {
    if |p| > 0 {
      if p[0] == Left {
        PutEval(t.left, p[1..], s, env);
      } else {
        PutEval(t.right, p[1..], s, env);
      }
    }
  }

  /** The paths `p + q` for the relative paths `q`, in order. */
  function Extend(p: seq<Dir>, qs: seq<seq<Dir>>): (r: seq<seq<Dir>>)
    ensures |r| == |qs|
    ensures forall k :: 0 <= k < |qs| ==> r[k] == p + qs[k]
  {
    if |qs| == 0 then [] else [p + qs[0]] + Extend(p, qs[1..])
  }

  /** One turn of the inner loop: pop a path, rewrite the subtree found
      there and push the places the rule asks for. A path that has left the
      tree is dropped. */
  function Visit(t: Expr, stack: seq<seq<Dir>>): (Expr, seq<seq<Dir>>)
    requires |stack| > 0
  {
    var p := stack[|stack| - 1];
    var rest := stack[..|stack| - 1];
    match At(t, p)
    case None => (t, rest)
    case Some(n) =>
      var (n', pushed) := Rule(n);
      (Put(t, p, n'), rest + Extend(p, pushed))
  }

  /** A turn of the inner loop keeps the value of the expression. */
  lemma VisitEval(t: Expr, stack: seq<seq<Dir>>, env: map<string, real>)
    requires |stack| > 0
    ensures Eval(Visit(t, stack).0, env) == Eval(t, env)
  {
    var p := stack[|stack| - 1];
    if At(t, p).Some? {
      var n := At(t, p).value;
      RuleSound(n, env);
      PutEval(t, p, Rule(n).0, env);
    }
  }

  /** One round of the inner loop, from the given stack until it is empty.
      None when the fuel runs out first. */
  function Round(t: Expr, stack: seq<seq<Dir>>, fuel: nat): Option<Expr>
    decreases fuel
  {
    if |stack| == 0 then Some(t)
    else if fuel == 0 then None
    else
      var (t', stack') := Visit(t, stack);
      Round(t', stack', fuel - 1)
  }

  /** A round keeps the value of the expression under every assignment. */
  lemma {:induction false} RoundEval(t: Expr, stack: seq<seq<Dir>>, fuel: nat, env: map<string, real>)
    requires Round(t, stack, fuel).Some?
    ensures Eval(Round(t, stack, fuel).value, env) == Eval(t, env)
    decreases fuel
  {
    if |stack| > 0 {
      VisitEval(t, stack, env);
      RoundEval(Visit(t, stack).0, Visit(t, stack).1, fuel - 1, env);
    }
  }

  /** Whether two expressions are written the same, with parentheses. */
  predicate SameText(t1: Expr, t: Expr, fmt: real -> string) {
    ShowTree(t1, true, fmt) == ShowTree(t, true, fmt)
  }

  /** The outer loop: run a round from the root, and another one as long as
      the round changed the text of the expression (written with
      parentheses). None when the fuel runs out first. */
  function SimplifyTree(t: Expr, fmt: real -> string, fuel: nat): Option<Expr>
    decreases fuel, 1
  {
    if fuel == 0 then None else Settle(t, Round(t, [Here], fuel), fmt, fuel)
  }

  /** What the outer loop does with the outcome `r` of a round run on `t`:
      stop when the text did not change, go on otherwise. */
  function Settle(t: Expr, r: Option<Expr>, fmt: real -> string, fuel: nat): Option<Expr>
    requires fuel > 0
    decreases fuel, 0
  {
    match r
    case None => None
    case Some(t1) => if SameText(t1, t, fmt) then Some(t1) else SimplifyTree(t1, fmt, fuel - 1)
  }

  /** Simplifying keeps the value of the expression under every assignment. */
  lemma {:induction false} SimplifyEval(t: Expr, fmt: real -> string, fuel: nat, env: map<string, real>)
    requires SimplifyTree(t, fmt, fuel).Some?
    ensures Eval(SimplifyTree(t, fmt, fuel).value, env) == Eval(t, env)
    decreases fuel, 1
  {
    RoundEval(t, [Here], fuel, env);
    SettleEval(t, Round(t, [Here], fuel), fmt, fuel, env);
  }

  lemma {:induction false} SettleEval(t: Expr, r: Option<Expr>, fmt: real -> string, fuel: nat, env: map<string, real>)
    requires fuel > 0 && Settle(t, r, fmt, fuel).Some?
    requires r.Some? ==> Eval(r.value, env) == Eval(t, env)
    ensures Eval(Settle(t, r, fmt, fuel).value, env) == Eval(t, env)
    decreases fuel, 0
  {
    if !SameText(r.value, t, fmt) {
      SimplifyEval(r.value, fmt, fuel - 1, env);
    }
  }

  /** The arena after simplification: the root slot overwritten with the
      simplified tree's top node and its descendants appended; every other
      slot is left alone. The source instead rewrites the nodes it visits in
      place, so the two arenas denote the same tree with different layouts. */
  function Reencode(e: LpExpression, t: Expr): (r: LpExpression)
    requires e.root < |e.arena|
    ensures r.root == e.root && |r.arena| == |e.arena| + Size(t) - 1
    ensures forall k :: 0 <= k < |e.arena| && k != e.root ==> r.arena[k] == e.arena[k]
    ensures Denote(r) == Some(t)
  {
    var n := |e.arena|;
    var a := e.arena[e.root := CopyNode(t, n)] + CopyDescendants(t, n);
    assert a[n .. n + Size(t) - 1] == CopyDescendants(t, n);
    PlacedDenotes(a, t, e.root, n, |a|);
    LpExpression(e.root, a)
  }

  const NoFixpoint := "simplification did not settle within the fuel bound"

  /** `LpExpression::simplify`. Reading the root of an arena that does not
      hold a tree panics (out of bound); a simplification that does not settle
      within `fuel` rounds and visits is reported as a panic of its own,
      where the source would keep looping. */
  function SimplifyExpr(e: LpExpression, fmt: real -> string, fuel: nat): (r: Result<LpExpression>)
    ensures !Valid(e) ==> r == Panic(OutOfBound)
    ensures r.Ok? <==> Valid(e) && SimplifyTree(Denote(e).value, fmt, fuel).Some?
    ensures r.Ok? ==> r.value.root == e.root && |r.value.arena| >= |e.arena|
    ensures r.Ok? ==> Denote(r.value) == SimplifyTree(Denote(e).value, fmt, fuel)
    ensures r.Ok? ==> forall env :: Eval(Denote(r.value).value, env) == Eval(Denote(e).value, env)
  {
    match Denote(e)
    case None => Panic(OutOfBound)
    case Some(t) =>
      match SimplifyTree(t, fmt, fuel)
      case None => Panic(NoFixpoint)
      case Some(t') =>
        forall env
          ensures Eval(t', env) == Eval(t, env)
        {
          SimplifyEval(t, fmt, fuel, env);
        }
        Ok(Reencode(e, t'))
  }
}
