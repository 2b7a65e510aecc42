/** Linear-programming expressions as trees.

    The library stores expressions in an arena (module Arena), but what an
    arena means is the tree hanging from its root. The same tree shape is the
    boxed expression type that src/dsl/operations.rs and src/solvers/minilp.rs
    are written against, and the reference-counted expression of the older
    src/variables.rs, so all three are modelled by `Expr`.
 */
module Tree {
  import opened Wrappers
  import opened Vars

  /** `LpExprOp`: the three binary operations. */
  datatype Op = Multiplication | Addition | Subtraction

  /** The leaf cases shared by arena nodes and trees. */
  datatype Leaf =
    | ConsInt(intVar: LpInteger)
    | ConsBin(binVar: LpBinary)
    | ConsCont(contVar: LpContinuous)
    | LitVal(lit: real)
    | EmptyExpr

  /** An expression tree. */
  datatype Expr =
    | Leaf(leaf: Leaf)
    | Comp(op: Op, left: Expr, right: Expr)

  /** The name of a variable leaf. */
  function VarName(l: Leaf): (r: Option<string>)
    ensures r.Some? <==> (l.ConsInt? || l.ConsBin? || l.ConsCont?)
  {
    match l
    case ConsInt(v) => Some(v.name)
    case ConsBin(v) => Some(v.name)
    case ConsCont(v) => Some(v.name)
    case _ => None
  }

  function Lit(c: real): Expr {
    Leaf(LitVal(c))
  }

  predicate IsLit(e: Expr) {
    e.Leaf? && e.leaf.LitVal?
  }

  /** The value of a variable under an assignment, 0 when it has none. */
  function Get(env: map<string, real>, n: string): real {
    if n in env then env[n] else 0.0
  }

  /** The value a leaf takes under an assignment of values to variable names.
      A variable without a value counts as 0, and so does `EmptyExpr`, as in
      `Solution::eval_with` (src/solvers/mod.rs). */
  function LeafValue(l: Leaf, env: map<string, real>): real {
    match l
    case LitVal(n) => n
    case EmptyExpr => 0.0
    case _ => Get(env, VarName(l).value)
  }

  function Apply(op: Op, x: real, y: real): real {
    match op
    case Multiplication => x * y
    case Addition => x + y
    case Subtraction => x - y
  }

  /** The value of an expression under an assignment. */
  function Eval(e: Expr, env: map<string, real>): real {
    match e
    case Leaf(l) => LeafValue(l, env)
    case Comp(op, l, r) => Apply(op, Eval(l, env), Eval(r, env))
  }

  /** Number of nodes. */
  function Size(e: Expr): (n: nat)
    ensures n >= 1
  {
    match e
    case Leaf(_) => 1
    case Comp(_, l, r) => 1 + Size(l) + Size(r)
  }

  /** Number of nodes on the longest root-to-leaf path. */
  function Depth(e: Expr): (n: nat)
    ensures 1 <= n <= Size(e)
  {
    match e
    case Leaf(_) => 1
    case Comp(_, l, r) => 1 + (if Depth(l) < Depth(r) then Depth(r) else Depth(l))
  }
}
