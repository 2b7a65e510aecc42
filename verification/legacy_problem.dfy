/** The problem of the older layer (src/problem.rs): a name, an objective
    and constraints over reference-counted trees, the variables its
    constraints mention, and its text in the LP file format.

    The text of an expression and of a constraint in this layer comes from
    a `to_lp_file_format` that is not part of this model, and the objective
    is folded with a `simplify` and a `split_constant_and_expr` that are
    not part of it either: all three are parameters. */
module LegacyProblem {
  import opened Wrappers
  import opened Text
  import opened Tree
  import opened Constraints
  import Problem
  import LpFormat

  /** `LpProblem` of the older layer. */
  datatype LegacyProblem = LegacyProblem(
    name: string,
    uniqueName: string,
    objectiveType: Problem.LpObjective,
    objective: Option<Expr>,
    constraints: seq<TreeConstraint>)

  /** `LpProblem::new`; the random UUID is the parameter `id`. */
  function NewLegacyProblem(name: string, objective: Problem.LpObjective, id: string): (p: LegacyProblem)
    ensures p.name == name && p.objectiveType == objective
    ensures |p.uniqueName| == |name| + 1 + |id|
    ensures p.uniqueName[..|name|] == name && p.uniqueName[|name|..] == "_" + id
    ensures p.objective.None? && |p.constraints| == 0
  {
    LegacyProblem(name, name + "_" + id, objective, None, [])
  }

  // variables

  /** The inner `var` walk: each variable met with its leaf, left to right,
      looking only at the right factor of a product. */
  function VarList(e: Expr): (r: seq<(string, Leaf)>)
    ensures forall k :: 0 <= k < |r| ==> VarName(r[k].1) == Some(r[k].0)
  {
    match e
    case Leaf(l) => if VarName(l).Some? then [(VarName(l).value, l)] else []
    case Comp(Multiplication, _, b) => VarList(b)
    case Comp(_, a, b) => VarList(a) + VarList(b)
  }

  /** Every variable name occurring anywhere in a tree. */
  function AllVars(e: Expr): set<string> {
    match e
    case Leaf(l) => if VarName(l).Some? then {VarName(l).value} else {}
    case Comp(_, a, b) => AllVars(a) + AllVars(b)
  }

  /** Every product has a variable-free left factor, as the operators of
      this layer build them (`number * expr`). */
  predicate LeftFactorsConstant(e: Expr) {
    match e
    case Leaf(_) => true
    case Comp(Multiplication, a, b) => AllVars(a) == {} && LeftFactorsConstant(b)
    case Comp(_, a, b) => LeftFactorsConstant(a) && LeftFactorsConstant(b)
  }

  function ListNames(l: seq<(string, Leaf)>): set<string> {
    set k | 0 <= k < |l| :: l[k].0
  }

  lemma ListNamesAppend(a: seq<(string, Leaf)>, b: seq<(string, Leaf)>)
    ensures ListNames(a + b) == ListNames(a) + ListNames(b)
  {
    forall n | n in ListNames(a + b)
      ensures n in ListNames(a) + ListNames(b)
    {
      var k :| 0 <= k < |a + b| && (a + b)[k].0 == n;
      if k >= |a| { assert b[k - |a|].0 == n; }
    }
    forall n | n in ListNames(a)
      ensures n in ListNames(a + b)
    {
      var k :| 0 <= k < |a| && a[k].0 == n;
      assert (a + b)[k].0 == n;
    }
    forall n | n in ListNames(b)
      ensures n in ListNames(a + b)
    {
      var k :| 0 <= k < |b| && b[k].0 == n;
      assert (a + b)[|a| + k].0 == n;
    }
  }

  /** The walk finds only variables of the tree, and all of them when no
      variable stands in the left factor of a product. */
  lemma {:induction false} VarListNames(e: Expr)
    ensures ListNames(VarList(e)) <= AllVars(e)
    ensures LeftFactorsConstant(e) ==> ListNames(VarList(e)) == AllVars(e)
  {
    match e
    case Leaf(l) =>
      if VarName(l).Some? {
        assert VarList(e)[0].0 == VarName(l).value;
      }
    case Comp(op, a, b) =>
      VarListNames(a);
      VarListNames(b);
      if op != Multiplication {
        ListNamesAppend(VarList(a), VarList(b));
      }
  }

  /** The entries of all left-hand sides, constraint by constraint. */
  function Entries(cs: seq<TreeConstraint>): (r: seq<(string, Leaf)>)
    ensures forall k :: 0 <= k < |r| ==> VarName(r[k].1) == Some(r[k].0)
  {
    if |cs| == 0 then [] else VarList(cs[0].lhs) + Entries(cs[1..])
  }

  /** Collecting (name, leaf) pairs into a map: a later pair overwrites an
      earlier one. */
  function ToMap(l: seq<(string, Leaf)>, m: map<string, Leaf>): (r: map<string, Leaf>)
    ensures r.Keys == m.Keys + ListNames(l)
    ensures (forall n :: n in m ==> VarName(m[n]) == Some(n)) && (forall k :: 0 <= k < |l| ==> VarName(l[k].1) == Some(l[k].0))
            ==> forall n :: n in r ==> VarName(r[n]) == Some(n)
  {
    if |l| == 0 then m
    else
      assert ListNames(l) == {l[0].0} + ListNames(l[1..]) by {
        ListNamesAppend([l[0]], l[1..]);
        assert l == [l[0]] + l[1..];
      }
      ToMap(l[1..], m[l[0].0 := l[0].1])
  }

  /** The last pair for a name decides its entry. */
  lemma {:induction false} ToMapLast(l: seq<(string, Leaf)>, m: map<string, Leaf>, k: nat)
    requires k < |l|
    requires forall j :: k < j < |l| ==> l[j].0 != l[k].0
    ensures l[k].0 in ToMap(l, m) && ToMap(l, m)[l[k].0] == l[k].1
  {
    if k == 0 {
      ToMapKeeps(l[1..], m[l[0].0 := l[0].1], l[0].0);
    } else {
      ToMapLast(l[1..], m[l[0].0 := l[0].1], k - 1);
    }
  }

  lemma {:induction false} ToMapKeeps(l: seq<(string, Leaf)>, m: map<string, Leaf>, n: string)
    requires n in m
    requires forall j :: 0 <= j < |l| ==> l[j].0 != n
    ensures n in ToMap(l, m) && ToMap(l, m)[n] == m[n]
  {
    if |l| > 0 {
      ToMapKeeps(l[1..], m[l[0].0 := l[0].1], n);
    }
  }

  /** `LpProblem::variables`: every variable of a left-hand side, under its
      name; the objective and the right-hand sides are not looked at. */
  function Variables(p: LegacyProblem): (r: map<string, Leaf>)
    ensures r.Keys == ListNames(Entries(p.constraints))
    ensures UnderOwnNames(r)
  {
    ToMap(Entries(p.constraints), map[])
  }

  /** The names of the variables are those of the left-hand sides. */
  lemma {:induction false} EntriesNames(cs: seq<TreeConstraint>, n: string)
    ensures n in ListNames(Entries(cs)) <==> exists k :: 0 <= k < |cs| && n in ListNames(VarList(cs[k].lhs))
  {
    if |cs| > 0 {
      EntriesNames(cs[1..], n);
      ListNamesAppend(VarList(cs[0].lhs), Entries(cs[1..]));
      if n in ListNames(Entries(cs[1..])) {
        var k :| 0 <= k < |cs[1..]| && n in ListNames(VarList(cs[1..][k].lhs));
        assert cs[1..][k] == cs[k + 1];
      }
      if exists k :: 0 <= k < |cs| && n in ListNames(VarList(cs[k].lhs)) {
        var k :| 0 <= k < |cs| && n in ListNames(VarList(cs[k].lhs));
        if k > 0 {
          assert cs[1..][k - 1] == cs[k];
        }
      }
    }
  }

  // adding constraints and objectives

  /** `add_constraints`: appends the constraint, nothing else changes. */
  function AddConstraints(p: LegacyProblem, c: TreeConstraint): (r: LegacyProblem)
    ensures r.constraints == p.constraints + [c]
    ensures r.(constraints := p.constraints) == p
  {
    p.(constraints := p.constraints + [c])
  }

  /** A new constraint adds the variables its left-hand side shows. */
  lemma AddConstraintVariables(p: LegacyProblem, c: TreeConstraint)
    ensures Variables(AddConstraints(p, c)).Keys == Variables(p).Keys + ListNames(VarList(c.lhs))
  {
    EntriesAppend(p.constraints, c);
    ListNamesAppend(Entries(p.constraints), VarList(c.lhs));
  }

  lemma {:induction false} EntriesAppend(cs: seq<TreeConstraint>, c: TreeConstraint)
    ensures Entries(cs + [c]) == Entries(cs) + VarList(c.lhs)
  {
    if |cs| == 0 {
      assert Entries([c][1..]) == [];
    } else {
      assert (cs + [c])[1..] == cs[1..] + [c];
      EntriesAppend(cs[1..], c);
    }
  }

  /** `add_objective_expression`: the new expression, added to the current
      objective if there is one, simplified, with its constant split off and
      dropped. */
  function AddObjectiveExpression(p: LegacyProblem, e: Expr, simplify: Expr -> Expr, split: Expr -> (real, Expr))
    : (r: LegacyProblem)
    ensures r.(objective := p.objective) == p && r.objective.Some?
    ensures ((forall t, env :: Eval(simplify(t), env) == Eval(t, env))
             && (forall t, env :: Eval(t, env) == split(t).0 + Eval(split(t).1, env))) ==>
      forall env1, env2 ::
        Eval(r.objective.value, env1) - Eval(r.objective.value, env2)
        == Objective(p, e, env1) - Objective(p, e, env2)
  {
    var summed := if p.objective.Some? then Comp(Addition, e, p.objective.value) else e;
    var r := p.(objective := Some(split(simplify(summed)).1));
    assert forall env :: Eval(summed, env) == Objective(p, e, env);
    r
  }

  /** The value the objective should have after adding `e`. */
  function Objective(p: LegacyProblem, e: Expr, env: map<string, real>): real {
    Eval(e, env) + (if p.objective.Some? then Eval(p.objective.value, env) else 0.0)
  }

  /** What `problem += x` is given. */
  datatype Addend = ConstraintAddend(c: TreeConstraint) | ExpressionAddend(e: Expr)

  /** `+=`: a constraint is added as a constraint, anything else as part of
      the objective. */
  function AddAssign(p: LegacyProblem, a: Addend, simplify: Expr -> Expr, split: Expr -> (real, Expr))
    : (r: LegacyProblem)
    ensures a.ConstraintAddend? ==> r.objective == p.objective && r.constraints == p.constraints + [a.c]
    ensures a.ExpressionAddend? ==> r.constraints == p.constraints && r.objective.Some?
  {
    match a
    case ConstraintAddend(c) => AddConstraints(p, c)
    case ExpressionAddend(e) => AddObjectiveExpression(p, e, simplify, split)
  }

  // the LP file

  /** `objective_lp_file_block`. */
  function ObjectiveBlock(p: LegacyProblem, text: Expr -> string): (r: string)
    ensures p.objective.None? ==> r == ""
    ensures p.objective.Some? ==>
      StartsWith(r, LpFormat.Sense(p.objectiveType) + "obj: ")
      && r[|LpFormat.Sense(p.objectiveType) + "obj: "|..] == text(p.objective.value)
  {
    match p.objective
    case None => ""
    case Some(e) => LpFormat.Sense(p.objectiveType) + "obj: " + text(e)
  }

  /** `constraints_lp_file_block`: rows `c1`, `c2`, ... in order. */
  function ConstraintsBlock(p: LegacyProblem, text: TreeConstraint -> string): (r: string)
    ensures r == Concat(LpFormat.NumberedRows(seq(|p.constraints|, k requires 0 <= k < |p.constraints| => text(p.constraints[k])), 1))
    ensures r == "" <==> |p.constraints| == 0
  {
    var texts := seq(|p.constraints|, k requires 0 <= k < |p.constraints| => text(p.constraints[k]));
    LpFormat.RowsNumbered(p.constraints, 1, texts, c => Ok(text(c)));
    LpFormat.Rows(p.constraints, 1, c => Ok(text(c))).value
  }

  /** One of the variable blocks: the item `line` gives for each variable,
      in iteration order. */
  function Block(vars: map<string, Leaf>, names: seq<string>, line: Leaf -> string): string {
    if |names| == 0 then ""
    else (if names[0] in vars then line(vars[names[0]]) else "") + Block(vars, names[1..], line)
  }

  /** Every variable is filed under its own name. */
  predicate UnderOwnNames(vars: map<string, Leaf>) {
    forall n :: n in vars ==> VarName(vars[n]) == Some(n)
  }

  /** The names, in iteration order, of the variables of one kind. */
  function NamesOfKind(vars: map<string, Leaf>, names: seq<string>, kind: Leaf -> bool): (r: seq<string>)
    ensures forall k :: 0 <= k < |r| ==> r[k] in vars && kind(vars[r[k]])
    ensures forall k :: 0 <= k < |r| ==> r[k] in names
  {
    if |names| == 0 then []
    else
      var rest := NamesOfKind(vars, names[1..], kind);
      if names[0] in vars && kind(vars[names[0]]) then [names[0]] + rest else rest
  }

  lemma {:induction false} IntegerBlockSpaced(vars: map<string, Leaf>, names: seq<string>)
    requires UnderOwnNames(vars)
    ensures Block(vars, names, LpFormat.IntegerItem) == LpFormat.Spaced(NamesOfKind(vars, names, (l: Leaf) => l.ConsInt?))
  {
    if |names| > 0 {
      IntegerBlockSpaced(vars, names[1..]);
      var rest := NamesOfKind(vars, names[1..], (l: Leaf) => l.ConsInt?);
      assert Block(vars, names, LpFormat.IntegerItem)
          == (if names[0] in vars then LpFormat.IntegerItem(vars[names[0]]) else "") + Block(vars, names[1..], LpFormat.IntegerItem);
      if names[0] in vars && vars[names[0]].ConsInt? {
        assert ([names[0]] + rest)[0] == names[0] && ([names[0]] + rest)[1..] == rest;
      }
    }
  }

  lemma {:induction false} BinaryBlockSpaced(vars: map<string, Leaf>, names: seq<string>)
    requires UnderOwnNames(vars)
    ensures Block(vars, names, LpFormat.BinaryItem) == LpFormat.Spaced(NamesOfKind(vars, names, (l: Leaf) => l.ConsBin?))
  {
    if |names| > 0 {
      BinaryBlockSpaced(vars, names[1..]);
      var rest := NamesOfKind(vars, names[1..], (l: Leaf) => l.ConsBin?);
      assert Block(vars, names, LpFormat.BinaryItem)
          == (if names[0] in vars then LpFormat.BinaryItem(vars[names[0]]) else "") + Block(vars, names[1..], LpFormat.BinaryItem);
      if names[0] in vars && vars[names[0]].ConsBin? {
        assert ([names[0]] + rest)[0] == names[0] && ([names[0]] + rest)[1..] == rest;
      }
    }
  }

  /** The names kept are those of `names` that are variables of the kind;
      none is repeated when `names` repeats none. */
  lemma {:induction false} NamesOfKindMembers(vars: map<string, Leaf>, names: seq<string>, kind: Leaf -> bool)
    ensures forall n :: n in NamesOfKind(vars, names, kind) <==> n in names && n in vars && kind(vars[n])
    ensures NoRepeats(names) ==> NoRepeats(NamesOfKind(vars, names, kind))
  {
    if |names| > 0 {
      NamesOfKindMembers(vars, names[1..], kind);
      if NoRepeats(names) {
        assert NoRepeats(names[1..]) by {
          forall i, j | 0 <= i < j < |names| - 1 ensures names[1..][i] != names[1..][j] {
            assert names[1..][i] == names[i + 1] && names[1..][j] == names[j + 1];
          }
        }
        assert names[0] !in names[1..] by {
          forall k | 0 <= k < |names| - 1 ensures names[1..][k] != names[0] {
            assert names[1..][k] == names[k + 1];
          }
        }
      }
    }
  }

  /** The Generals block lists the integer variables and the Binary block
      the binary ones, in iteration order, when no name holds whitespace;
      for an order listing each key once, every variable of the kind
      appears exactly once. */
  lemma KindBlocksList(vars: map<string, Leaf>, names: seq<string>)
    requires UnderOwnNames(vars)
    requires forall k :: 0 <= k < |names| ==> IsToken(names[k])
    ensures SplitWhitespace(Block(vars, names, LpFormat.IntegerItem)) == NamesOfKind(vars, names, (l: Leaf) => l.ConsInt?)
    ensures SplitWhitespace(Block(vars, names, LpFormat.BinaryItem)) == NamesOfKind(vars, names, (l: Leaf) => l.ConsBin?)
    ensures ListsKeys(names, vars) ==>
      NoRepeats(SplitWhitespace(Block(vars, names, LpFormat.IntegerItem)))
      && forall n :: n in SplitWhitespace(Block(vars, names, LpFormat.IntegerItem)) <==> n in vars && vars[n].ConsInt?
    ensures ListsKeys(names, vars) ==>
      NoRepeats(SplitWhitespace(Block(vars, names, LpFormat.BinaryItem)))
      && forall n :: n in SplitWhitespace(Block(vars, names, LpFormat.BinaryItem)) <==> n in vars && vars[n].ConsBin?
  {
    NamesOfKindMembers(vars, names, (l: Leaf) => l.ConsInt?);
    NamesOfKindMembers(vars, names, (l: Leaf) => l.ConsBin?);
    IntegerBlockSpaced(vars, names);
    BinaryBlockSpaced(vars, names);
    LpFormat.SplitSpaced(NamesOfKind(vars, names, (l: Leaf) => l.ConsInt?));
    LpFormat.SplitSpaced(NamesOfKind(vars, names, (l: Leaf) => l.ConsBin?));
  }

  /** `to_lp_file_format` of a problem; `order` is the iteration order of
      the variable map. */
  function ProblemText(p: LegacyProblem, order: map<string, Leaf> -> seq<string>, text: Expr -> string,
                       constraintText: TreeConstraint -> string, fmt: real -> string): (r: string)
    ensures StartsWith(r, LpFormat.Header(p.name))
    ensures |r| >= 4 && r[|r| - 4..] == "\nEnd"
    ensures |p.constraints| == 0 ==> r == LpFormat.Header(p.name) + ObjectiveBlock(p, text) + "\nEnd"
  {
    var vars := Variables(p);
    var names := order(vars);
    if |p.constraints| == 0 then
      assert vars == map[];
      EmptyBlock(names, l => LpFormat.BoundLine(l, fmt));
      EmptyBlock(names, LpFormat.IntegerItem);
      EmptyBlock(names, LpFormat.BinaryItem);
      LpFormat.AssembleEmpty(p.name, ObjectiveBlock(p, text));
      LpFormat.Assemble(p.name, ObjectiveBlock(p, text), ConstraintsBlock(p, constraintText),
        Block(vars, names, l => LpFormat.BoundLine(l, fmt)),
        Block(vars, names, LpFormat.IntegerItem), Block(vars, names, LpFormat.BinaryItem))
    else
      LpFormat.Assemble(p.name, ObjectiveBlock(p, text), ConstraintsBlock(p, constraintText),
        Block(vars, names, l => LpFormat.BoundLine(l, fmt)),
        Block(vars, names, LpFormat.IntegerItem), Block(vars, names, LpFormat.BinaryItem))
  }

  lemma {:induction false} EmptyBlock(names: seq<string>, line: Leaf -> string)
    ensures Block(map[], names, line) == ""
  {
    if |names| > 0 {
      EmptyBlock(names[1..], line);
    }
  }
}
