# rust-lp-modeler in Dafny

A model of the core of **rust-lp-modeler**, a Rust library for writing linear programs. It covers:
- how a program is written: variables, expressions, constraints, objective;
- how it is turned into the text of an LP file;
- how the files that external solvers write back are read into a solution.

The library has two generations, and both are modelled.

**The newer layer** (`src/dsl`, `src/format`, `src/solvers`) is modelled as follows:
- **Expressions**
  - An expression is an *arena*: a vector of nodes addressed by index, with one node as the root.
  - The modules `Arena`, `Show` and `Simplify` model how the source edits arenas: `split_off_constant`, `merge_cloned_arenas`, `push_arena_at_root`, `clone_subtree_at_index_and_push`, `show` and `simplify`.
  - Each arena is read back as the tree it denotes (`Tree.Expr`), and every edit is stated against that denotation.
  - `SimplifyExamples` follows the library's own simplification tests through the model.
- **Constraints and sums**: `Constraints` models `generalize`, which moves everything to the left of the relation with a literal on the right. It also models the variable walk `var`, and `lp_sum` and `sum`.
- **Operators**: `Operations` models the operator overloads on expressions and variables, and `le`, `ge` and `equal`.
- **Problems**: `Problem` models `LpProblem`, its `variables` map, `add_objective_expression`, `add_constraints` and `+=`.
- **LP file**: `LpFormat` models the LP-file writer, section by section.
- **Solutions**
  - `Solutions` models `Solution` and its accessors.
  - `Cbc`, `Glpk` and `Gurobi` model each solver's settings and its solution-file reader.
  - `NativeCbc` models how a problem is lowered to coin-cbc rows and columns.
  - `Minilp` models how a problem is lowered to a minilp problem and how the answer is read back.

**The legacy layer** (`src/variables.rs`, `src/operations.rs`, `src/problem.rs`, `src/solvers.rs`) builds expressions as reference-counted trees.
- `Legacy` models `dfs_remove_constant`, `generalize` and `lp_sum`.
- `LegacyProblem` models the problem and its LP-file writer.
- `LegacySolvers` models the `Solver` enum: the commands it would run and the files it reads.
- Some parts are shared between the layers. The same `Vars` types serve the variable structs of both. The same `Operations` constructors serve both operator sets, since the Rust operators build the same tree shapes.

**Modelling choices**
- `f32` values are `real`.
- A Rust panic is a third outcome, `Panic(reason)`, separate from an `Err` the function returns.
- Formatting and parsing of floats are function parameters: `fmt: real -> string` and `parse: string -> Option<real>`.
- The iteration order of a `HashMap` is a parameter that lists the keys once each.
- Every loop the source runs until a fixpoint, and every recursive walk over an arena, carries a `fuel` bound. Where the source would not stop, the model reports a panic of its own: `NoFixpoint` for a simplification that does not settle, `OutOfBound` for a copy or simplification of an arena that holds a cycle instead of a tree, and the stack-overflow message for a walk that runs out of fuel.

## Model

| member | source | states |
|---|---|---|
| Vars.NewInteger | src/dsl/variables.rs:50-57 | a new integer variable has the given name and no bounds |
| Vars.NewContinuous | src/dsl/variables.rs:86-93 | a new continuous variable has the given name and no bounds |
| Vars.IntegerLowerBound | src/dsl/variables.rs:116-136 | `lower_bound` on an integer sets the lower bound only; name and upper bound are kept |
| Vars.IntegerUpperBound | src/dsl/variables.rs:116-136 | `upper_bound` on an integer sets the upper bound only |
| Vars.ContinuousLowerBound | src/dsl/variables.rs:116-137 | `lower_bound` on a continuous variable sets the lower bound only |
| Vars.ContinuousUpperBound | src/dsl/variables.rs:116-137 | `upper_bound` on a continuous variable sets the upper bound only |
| Vars.IntegerBoundsCommute | src/variables.rs:47-68 | setting lower and upper bound commute, and a second lower bound replaces the first |
| Vars.ContinuousBoundsCommute | src/variables.rs:47-68 | setting lower and upper bound commute, and a second upper bound replaces the first |
| Util.IsZero | src/util.rs:1-3 | true exactly when the value lies strictly between -0.00001 and 0.00001 |
| Util.IsZeroSymmetric | src/util.rs:1-3 | the test ignores the sign, accepts 0 and rejects the tolerance itself |
| Tree.VarName | src/dsl/variables.rs:169-177 | a node has a variable name exactly when it is a binary, integer or continuous variable |
| Arena.New | src/dsl/variables.rs:315-321 | a fresh expression has an empty arena and denotes no tree |
| Arena.FromLeaf | src/dsl/variables.rs:249-294 | a variable or number converted to an expression denotes exactly that leaf |
| Arena.FromNode | src/dsl/variables.rs:296-312 | a node converted to an expression denotes it when it is a leaf |
| Arena.ExprRefAt | src/dsl/variables.rs:354-359 | an index inside the arena gives its node; any other index panics with the out-of-bound message |
| Arena.PushAsExpr | src/dsl/variables.rs:338-342 | the node is appended and its index returned; the root and the denoted tree do not change |
| Arena.PushArenaAtRoot | src/dsl/variables.rs:408-431 | succeeds exactly when the pushed expression holds a tree; the old nodes keep their indices, the arena grows by that tree's size, the returned index denotes that tree, and the expression's own tree is unchanged |
| Arena.PushArenaAtRootLoop | src/dsl/variables.rs:408-431 | the stack-driven copy loop as written produces exactly the layout of `PushArenaAtRoot`, so its returned index denotes the pushed tree |
| Arena.MergeClonedArenas | src/dsl/variables.rs:398-406 | succeeds exactly when the right expression holds a tree; the left arena is a prefix of the result, which denotes `left op right` |
| Arena.MergeOfTwoVariables | src/dsl/variables.rs:1373-1385 | `a + b` of two variables is the arena `[a, b, a+b]` rooted at index 2 |
| Arena.CloneSubtreeAtIndexAndPush | src/dsl/variables.rs:433-484 | succeeds exactly when the index holds a tree; the new expression denotes that subtree and has exactly as many nodes as it |
| Arena.PostOrderDenotes | src/dsl/variables.rs:433-484 | the right-first post-order layout the clone loop writes reads back as the cloned tree |
| Arena.SplitTreeValue | src/dsl/variables.rs:372-396 | the part left after splitting off the constant plus that constant equals the original value under every assignment |
| Arena.SplitOffConstant | src/dsl/variables.rs:372-396 | a root outside the arena panics. A valid expression yields the constant of its top-level sum or difference. The expression is emptied exactly when it was a single literal, and otherwise denotes the remainder |
| Show.Show | src/dsl/variables.rs:486-554 | the stack-driven printer produces exactly the recursive rendering of the tree at the index |
| Show.ParenthesisedOperation | src/dsl/variables.rs:486-554 | rendered with parentheses, an operation starts with `(` and ends with `)` |
| Show.StepText | src/dsl/variables.rs:486-554 | one turn of the printer writes the popped part's text minus what the parts it pushes will write, and the pushed parts weigh less than the popped one |
| Simplify.Rule | src/dsl/variables.rs:570-1224 | every position a rewrite asks to revisit exists in the rewritten node |
| Simplify.RuleSound | src/dsl/variables.rs:570-1224 | each rewrite keeps the node's value under every assignment |
| Simplify.MulSound | src/dsl/variables.rs:572-787 | every multiplication rewrite keeps the value |
| Simplify.MulLiterals | src/dsl/variables.rs:574-590 | `0 * x`, `x * 0` and `c1 * c2` are rewritten to the same value |
| Simplify.MulReorder | src/dsl/variables.rs:750-780 | moving a factor to the front keeps the value |
| Simplify.DistributeLeft | src/dsl/variables.rs:591-686 | `l * (a ± b)` distributes without changing the value |
| Simplify.DistributeRight | src/dsl/variables.rs:591-686 | `(a ± b) * r` distributes without changing the value |
| Simplify.DistributesOver | src/dsl/variables.rs:591-686 | multiplication distributes over sums and differences on either side |
| Simplify.Gather | src/dsl/variables.rs:687-749 | gathering literal factors of a product keeps the value |
| Simplify.GatherNested | src/dsl/variables.rs:687-749 | `l * (a * b)` re-associated to `(l * a) * b` keeps the value |
| Simplify.GatherLeft | src/dsl/variables.rs:687-749 | `c1 * (c2 * x)` becomes `(c1·c2) * x` with the same value |
| Simplify.GatherRight | src/dsl/variables.rs:687-749 | `c1 * (x * c2)` becomes `(c1·c2) * x` with the same value |
| Simplify.AddSound | src/dsl/variables.rs:788-1016 | every addition rewrite keeps the value |
| Simplify.AddLiterals | src/dsl/variables.rs:790-814 | the zero and literal rules for `+` keep the value |
| Simplify.AddAssociate | src/dsl/variables.rs:815-846 | `l + (a ± b)` re-associated keeps the value |
| Simplify.AddGather | src/dsl/variables.rs:848-905 | accumulating a literal into a sum or difference keeps the value |
| Simplify.AddExtract | src/dsl/variables.rs:906-970 | moving a literal out to the right of a sum keeps the value |
| Simplify.AddDouble | src/dsl/variables.rs:986-1015 | the `a + a` and remaining addition cases keep the value |
| Simplify.SubSound | src/dsl/variables.rs:1018-1224 | every subtraction rewrite keeps the value |
| Simplify.SubLeading | src/dsl/variables.rs:1020-1075 | `x - 0`, `l - (a ± b)` and a literal before `-` keep the value |
| Simplify.SubGather | src/dsl/variables.rs:1076-1142 | accumulating a subtracted literal keeps the value |
| Simplify.SubExtract | src/dsl/variables.rs:1143-1199 | moving a literal past a subtracted term keeps the value |
| Simplify.VisitEval | src/dsl/variables.rs:570-1232 | one turn of the inner loop keeps the value of the whole expression |
| Simplify.RoundEval | src/dsl/variables.rs:569-1232 | a full pass over the stack keeps the value |
| Simplify.SimplifyEval | src/dsl/variables.rs:556-1235 | repeating passes until the printed text stops changing keeps the value |
| Simplify.Reencode | src/dsl/variables.rs:556-1235 | writing the simplified tree back keeps the root index and every slot other than the root, appends the new nodes after the old ones, and denotes the simplified tree |
| Simplify.SimplifyExpr | src/dsl/variables.rs:556-1235 | an expression holding no tree panics. Otherwise it succeeds exactly when simplification settles, and then the root is kept, nothing is removed, and the denoted tree is the simplified one with the same value under every assignment |
| SimplifyExamples.SimplifiesAMinusTwoFirst | src/dsl/variables.rs:1387-1394 | for number formatting that writes only digits, points and minus signs, `(a - 2) + (1 - a)` simplifies and its constant term is -1 |
| SimplifyExamples.SimplifiesOneMinusAFirst | src/dsl/variables.rs:1387-1397 | for such formatting, `(1 - a) + (a - 2)` simplifies to the literal -1 |
| SimplifyExamples.Simplifications | src/dsl/variables.rs:1387-1398 | for such formatting, an arena holding either sum simplifies and `split_off_constant` then takes off -1 |
| SimplifyExamples.DeepSumCount | src/dsl/variables.rs:1401-1410 | for any number of terms `v * 2 + 1`, whatever their sum simplifies to splits into a constant and a rest that, with every variable at 0, add up to the number of terms |
| SimplifyExamples.DeepSumOfTwo | src/dsl/variables.rs:1401-1410 | for such formatting, the sum of two terms simplifies to `(2 v0 + 2 v1) + 2`, whose constant is the number of terms |
| SimplifyExamples.DeepSumOfTwoSplitsOffTwo | src/dsl/variables.rs:1401-1410 | for such formatting, the `lp_sum` of two arenas holding the terms simplifies and `split_off_constant` takes off 2 |
| Constraints.SameDifference | src/dsl/variables.rs:1265-1272 | two constraints with the same relation and the same difference of sides hold for the same assignments |
| Constraints.Generalize | src/dsl/variables.rs:1265-1272 | a right side holding no tree panics. Success needs the difference of the sides to simplify. The relation is kept, the right side becomes one literal, and lhs minus rhs keeps its value under every assignment |
| Constraints.GeneralizeHolds | src/dsl/variables.rs:1265-1272 | the generalized constraint is satisfied by exactly the assignments that satisfy the original |
| Constraints.GeneralizeValue | src/dsl/variables.rs:1265-1272 | the left side generalize keeps plus the constant it moves right is worth lhs minus rhs |
| Constraints.VarWalk | src/dsl/variables.rs:1274-1291 | an index outside the arena panics before the fuel is looked at, and the walk never returns an error; entries already present are kept, and each new entry records the constraint index and an arena index holding a variable of that name |
| Constraints.VarWalkKeys | src/dsl/variables.rs:1274-1291 | on a tree the walk adds exactly the names it reaches (a product contributes only its right factor), each mapped to the constraint index |
| Constraints.LpSum | src/dsl/variables.rs:1324-1337 | an empty list panics, one expression is returned as is, and the sum succeeds exactly when every later expression holds a tree |
| Constraints.LpSumDenotes | src/dsl/variables.rs:1324-1337 | the result denotes the left-nested sum of the expressions' trees |
| Constraints.SumTreeEval | src/dsl/variables.rs:1324-1337 | the left-nested sum is worth the total of its terms |
| Constraints.LpSumLoop | src/dsl/variables.rs:1324-1337 | the loop as written computes `LpSum` |
| Constraints.Sum | src/dsl/variables.rs:1339-1342 | an empty list panics; succeeds exactly when the image of every later element holds a tree |
| Operations.FromNumber | src/dsl/operations.rs:16-35 | a number becomes a literal worth that number; the legacy `From<f32>` and `From<i32>` in src/operations.rs give the same literal |
| Operations.FromInteger | src/dsl/variables.rs:194-210 | an integer variable becomes a leaf carrying its name |
| Operations.FromBinary | src/dsl/variables.rs:194-210 | a binary variable becomes a leaf carrying its name |
| Operations.FromContinuous | src/dsl/variables.rs:194-210 | a continuous variable becomes a leaf carrying its name |
| Operations.Binary | src/dsl/operations.rs:44-69 | `expr op rhs` puts the expression left and the argument right, and is worth the operation applied to their values; the legacy `+` and `-` in src/operations.rs build the same node |
| Operations.Assign | src/dsl/operations.rs:71-86 | `e op= r` replaces `e` by a node worth `e op r` |
| Operations.AssignIsBinary | src/dsl/operations.rs:71-86 | `e op= r` leaves `e` exactly as `e op r` would be |
| Operations.VarBinary | src/dsl/operations.rs:89-121 | `var op rhs` puts the variable on the left; when normalising keeps values it is worth the variable's value `op` the argument's |
| Operations.NumberBinary | src/dsl/operations.rs:123-149 | `number op expr` puts the literal on the left and is worth `number op value`; the legacy `f32` operators in src/operations.rs build the same node |
| Operations.Neg | src/dsl/operations.rs:185-203 | negation is multiplication by the literal -1; the legacy `Neg` in src/operations.rs builds the same node |
| Operations.NegEval | src/dsl/operations.rs:185-203 | negation negates the value |
| Operations.Relate | src/dsl/operations.rs:158-183 | succeeds exactly when `self - other` simplifies; keeps the relation, ends in a literal right side, and holds exactly when `self op other` does |
| Operations.Le | src/dsl/operations.rs:159-165 | `a.le(b)` holds exactly when a ≤ b |
| Operations.Ge | src/dsl/operations.rs:167-173 | `a.ge(b)` holds exactly when a ≥ b |
| Operations.Equal | src/dsl/operations.rs:175-181 | `a.equal(b)` holds exactly when a = b |
| Problem.NewProblem | src/dsl/problem.rs:72-84 | a new problem keeps its name and sense, its unique name is the name, `_` and the identifier, and it has no objective and no constraints |
| Problem.VariablesUpTo | src/dsl/problem.rs:86-94 | never an error, and a panic when some left side has its root outside its arena; every entry points to an earlier constraint and an index of its left side holding a variable of that name |
| Problem.Variables | src/dsl/problem.rs:86-94 | never an error, and a panic when some left side has its root outside its arena; every entry points to one of the problem's constraints and a variable of that name in its left side |
| Problem.EmptiedLhsPanics | src/dsl/problem.rs:86-94 | a constraint whose left side `split_off_constant` emptied makes `variables` panic with `expr_ref_at`'s out-of-bound message |
| Problem.VariablesKeys | src/dsl/problem.rs:86-94 | the keys are exactly the names met in the left sides |
| Problem.VariablesLatest | src/dsl/problem.rs:86-94 | a name met in the last constraint is recorded against that constraint |
| Problem.AddConstraints | src/dsl/problem.rs:110-112 | the constraint is appended and nothing else changes |
| Problem.AddConstraintVariables | src/dsl/problem.rs:110-112 | adding a constraint adds exactly the names of its left side to `variables` |
| Problem.Summed | src/dsl/problem.rs:97-103 | without an objective the new expression is taken; with one, the result denotes `new + old` |
| Problem.AddObjectiveExpression | src/dsl/problem.rs:97-108 | only the objective changes. Success needs the (summed) objective to simplify. The stored objective differs from new + old only by a constant (its constant is split off) |
| Problem.ObjectiveValue | src/dsl/problem.rs:97-108 | the stored objective plus the constant split off is worth new + old |
| Problem.AddAssign | src/dsl/problem.rs:115-134 | `+=` a constraint appends it and keeps the objective; `+=` an expression is `add_objective_expression`: it keeps the constraints, succeeds exactly when the new expression (plus the old objective, if any) simplifies, and the new objective differs from new + old only by a constant |
| LpFormat.SignPass | src/format/lp_format.rs:143-155 | one pass changes nothing exactly on clean text, and otherwise shortens it |
| LpFormat.FormalizeSigns | src/format/lp_format.rs:143-155 | the result holds no sign pair or double space, is no longer than the input, and clean input is unchanged |
| LpFormat.FormalizeSignsIdempotent | src/format/lp_format.rs:143-155 | tidying twice is tidying once |
| LpFormat.FormalizeSignsLoop | src/format/lp_format.rs:143-155 | the loop as written reaches exactly the fixpoint |
| LpFormat.ExprText | src/format/lp_format.rs:141-160 | succeeds exactly when the expression holds a tree that simplifies; the text is clean and is the tidied parenthesis-free rendering of the simplified tree |
| LpFormat.ConstraintText | src/format/lp_format.rs:163-175 | the left text, the relation, then the right text; fails exactly when either side does |
| LpFormat.ObjectiveBlock | src/format/lp_format.rs:53-64 | empty without an objective; otherwise the sense, `obj: ` and the objective's text |
| LpFormat.Rows | src/format/lp_format.rs:66-75 | succeeds exactly when every constraint prints, and is empty exactly when there are none |
| LpFormat.RowsNumbered | src/format/lp_format.rs:66-75 | the block is the constraints' rows, numbered `c1`, `c2`, … in order |
| LpFormat.ConstraintsBlock | src/format/lp_format.rs:66-75 | the loop with its counter from 1 produces exactly `Rows` |
| LpFormat.BoundLine | src/format/lp_format.rs:77-113 | no line for binaries and unbounded integers; every other variable gets an indented line ending in a newline |
| LpFormat.Bounds | src/format/lp_format.rs:77-113 | both bounds, one bound, or `free` for an unbounded continuous variable, in the source's layout |
| LpFormat.IntegerItem | src/format/lp_format.rs:115-126 | a name is written exactly for integer variables |
| LpFormat.BinaryItem | src/format/lp_format.rs:128-139 | a name is written exactly for binary variables |
| LpFormat.IntegerBlockSpaced | src/format/lp_format.rs:115-126 | the `Generals` block is each integer variable's name followed by a space, in iteration order |
| LpFormat.BinaryBlockSpaced | src/format/lp_format.rs:128-139 | the `Binary` block is each binary variable's name followed by a space |
| LpFormat.GeneralsListsIntegers | src/format/lp_format.rs:115-126 | when the names list the variable map's keys once each, reading the `Generals` block back word by word gives each integer variable exactly once and nothing else |
| LpFormat.BinaryListsBinaries | src/format/lp_format.rs:128-139 | when the names list the variable map's keys once each, reading the `Binary` block back gives each binary variable exactly once and nothing else |
| LpFormat.NamesOfKindMembers | src/format/lp_format.rs:115-139 | a name is kept exactly when it is listed, is a key, and its variable has the kind; a list without repeats stays without repeats |
| LpFormat.Assemble | src/format/lp_format.rs:19-50 | the file starts with the `\ name` header and ends with `End` |
| LpFormat.AssembleEmpty | src/format/lp_format.rs:19-50 | empty blocks leave out their section headings |
| LpFormat.ProblemText | src/format/lp_format.rs:19-50 | the whole file has the header and `End`, and fails exactly when the objective, a constraint or the variable walk does |
| LpFormat.NoConstraintsText | src/format/lp_format.rs:19-50 | a problem without constraints is header, objective and `End` only |
| Solutions.NewSolution | src/solvers/mod.rs:69-75 | a solution with the given status and values and no problem |
| Solutions.WithProblem | src/solvers/mod.rs:76-82 | a solution tied to the problem |
| Solutions.CheckPossibleSolution | src/solvers/mod.rs:83-88 | passes exactly for the statuses that carry values, and panics otherwise |
| Solutions.GetRawValue | src/solvers/mod.rs:89-92 | the stored value; panics when the solution is not possible or the name has no value |
| Solutions.GetFloat | src/solvers/mod.rs:97-100 | the stored value of the continuous variable, with the same panics |
| Solutions.GetBool | src/solvers/mod.rs:93-96 | true exactly when the value is within tolerance of 1, false exactly when within tolerance of 0, and a panic otherwise |
| Solutions.CastToI32 | src/solvers/mod.rs:101-107 | Rust's saturating `as i32`: truncation toward zero within range, clamped outside |
| Solutions.GetInt | src/solvers/mod.rs:101-107 | as written: succeeds exactly when the truncated value is within tolerance of the stored value, and returns it |
| Solutions.GetIntRefusesValueBelowInteger | src/solvers/mod.rs:101-107 | 2.999995 is within tolerance of 3 yet `get_int` panics on it |
| Solutions.RoundToNearest | src/solvers/mod.rs:101-107 | rounding gives the integer closer than one half |
| Solutions.RoundToI32 | src/solvers/mod.rs:101-107 | rounding stays within the `i32` range |
| Solutions.GetIntRounded | src/solvers/mod.rs:101-107 | corrected: any integer returned is within tolerance of the stored value |
| Solutions.GetIntRoundedAccepts | src/solvers/mod.rs:101-107 | corrected: every value within tolerance of an `i32` gives that integer |
| Solutions.EvalWith | src/solvers/mod.rs:117-132 | an index outside the arena panics, whatever the fuel; a walk that stays inside the arena and within the fuel gives a value |
| Solutions.EvalWithTree | src/solvers/mod.rs:117-132 | on an arena holding a tree, evaluation gives the tree's value, a variable without a value counting 0 |
| Solutions.EvalObjective | src/solvers/mod.rs:108-116 | None without a problem or objective; a panic when the objective's root lies outside its arena; otherwise the objective's value under the solution |
| Solutions.ReadSolution | src/solvers/mod.rs:141-150 | a file that cannot be opened gives the `Cannot open file` error; otherwise the solver's reader decides |
| Solutions.Collect | src/solvers/cbc.rs:85-101 | reading lines succeeds exactly when every line does, and keeps the starting values' names |
| Solutions.CollectKeys | src/solvers/cbc.rs:85-101 | the names read are the starting ones plus those some line gives; a name no line gives keeps its starting value |
| Solutions.CollectLast | src/solvers/cbc.rs:85-101 | the last line's value wins |
| Solutions.CollectSameEntries | src/solvers/gurobi.rs:45-66 | lines that read the same give the same result |
| Cbc.NewCbc | src/solvers/cbc.rs:24-33 | name `Cbc`, command `cbc`, solution file `<id>.sol`, no limits |
| Cbc.CommandName | src/solvers/cbc.rs:34-43 | sets the command; the limits are reset to none, as the source rebuilds the struct |
| Cbc.WithTempSolutionFile | src/solvers/cbc.rs:44-53 | sets the solution file; the limits are reset to none |
| Cbc.WithMaxSeconds | src/solvers/cbc.rs:114-120 | sets the time limit only |
| Cbc.WithNbThreads | src/solvers/cbc.rs:125-131 | sets the thread count only |
| Cbc.LimitsCommute | src/solvers/cbc.rs:114-131 | setting the two limits commutes |
| Cbc.CbcStatus | src/solvers/cbc.rs:72-84 | each first word maps to its status, `Integer` and `Infeasible` to Infeasible, anything else to NotSolved |
| Cbc.Fields | src/solvers/cbc.rs:85-91 | a leading `**` marker is dropped |
| Cbc.CbcLine | src/solvers/cbc.rs:85-101 | a blank line panics; four fields give name and value, another count the format error, an unparsable value the float error |
| Cbc.Defaults | src/solvers/cbc.rs:61-66 | with a problem, every variable of it starts at 0 |
| Cbc.ReadCbc | src/solvers/cbc.rs:56-108 | the status comes from the first word; an empty first line is a format error; reading succeeds exactly when every later line does |
| Cbc.ReadCbcValues | src/solvers/cbc.rs:61-101 | the values are named exactly by the problem's variables and the lines; a variable no line names reads 0 |
| Cbc.ReadCbcLast | src/solvers/cbc.rs:85-101 | the last line's value is the one kept |
| Glpk.NewGlpk | src/solvers/glpk.rs:21-27 | name `Glpk`, command `glpsol`, solution file `<id>.sol` |
| Glpk.CommandName | src/solvers/glpk.rs:28-34 | sets the command only |
| Glpk.TempSolutionFile | src/solvers/glpk.rs:35-41 | sets the solution file only |
| Glpk.ParseUsize | src/solvers/glpk.rs:44-55 | Rust's `usize` parse: optional `+`, then digits whose value fits |
| Glpk.ParseUsizeRoundTrip | src/solvers/glpk.rs:44-55 | every `usize` printed in decimal, with or without `+`, parses back to itself |
| Glpk.ReadSize | src/solvers/glpk.rs:44-55 | the second word parsed as a size; a missing line, word or number is the format error |
| Glpk.GlpkStatus | src/solvers/glpk.rs:69-80 | each status text maps to its status, never SubOptimal; unknown text is an error |
| Glpk.GlpkColumn | src/solvers/glpk.rs:81-105 | a column line gives its second word and fourth-word value; fewer words or a bad number is an error |
| Glpk.Columns | src/solvers/glpk.rs:81-105 | with no columns nothing is read and the result is empty, however short the report; otherwise the column lines succeed exactly when all exist and read, and running out of lines after good ones is the missing-columns error |
| Glpk.ReadGlpk | src/solvers/glpk.rs:43-107 | a status line shorter than its fixed offset panics; success needs both sizes, the status and every column line |
| Glpk.ReadGlpkValues | src/solvers/glpk.rs:81-105 | the names read are exactly those the column lines give, and none when there are no columns |
| Glpk.ReadGlpkOk | src/solvers/glpk.rs:43-107 | well-formed sizes, status and columns always read |
| Glpk.ReadGlpkNoColumns | src/solvers/glpk.rs:43-106 | a report with zero columns reads as its status and no values, whatever follows the status line |
| Gurobi.NewGurobi | src/solvers/gurobi.rs:21-27 | name `Gurobi`, command `gurobi_cl`, solution file `<id>.sol` |
| Gurobi.CommandName | src/solvers/gurobi.rs:28-34 | sets the command only |
| Gurobi.GurobiLine | src/solvers/gurobi.rs:45-66 | a `#` line is skipped; two words give name and value; otherwise the format or float error |
| Gurobi.ReadGurobi | src/solvers/gurobi.rs:38-70 | succeeds exactly when every line after the first reads; the status is always Optimal |
| Gurobi.ReadGurobiIgnoresComments | src/solvers/gurobi.rs:45-66 | changing comment lines does not change what is read |
| Gurobi.GurobiStatus | src/solvers/gurobi.rs:85-94 | as written: Optimal exactly when the output says `Optimal solution found`, else Infeasible exactly when it contains `infesible`, else SubOptimal |
| Gurobi.GurobiStatusIntended | src/solvers/gurobi.rs:85-94 | corrected: Infeasible exactly when the output contains `infeasible` and no optimum was found |
| Gurobi.InfeasibleReadAsSubOptimal | src/solvers/gurobi.rs:90 | output `Model is infeasible` reads as SubOptimal as written and as Infeasible corrected |
| Gurobi.GurobiRun | src/solvers/gurobi.rs:74-107 | as written: a solver that cannot start gives the `Error running` message, a failed run its exit status, and a successful run the file's solution with the status read off the output by the misspelt test |
| Gurobi.GurobiRunIntended | src/solvers/gurobi.rs:74-107 | corrected: the same outcome as written, except that the status of a solution is read with the corrected spelling |
| Gurobi.InfeasibleRunReadAsSubOptimal | src/solvers/gurobi.rs:85-94 | a successful run printing `Model is infeasible` yields a SubOptimal solution as written and an Infeasible one corrected |
| NativeCbc.NewNativeCbc | src/solvers/native_cbc.rs:18-25 | name `CbcNative`, no limits |
| NativeCbc.WithMaxSeconds | src/solvers/native_cbc.rs:31-37 | sets the time limit only |
| NativeCbc.WithNbThreads | src/solvers/native_cbc.rs:43-49 | sets the thread count only |
| NativeCbc.VarLit | src/solvers/native_cbc.rs:58-97 | an index outside the arena panics with the out-of-bound panic of `expr_ref_at` |
| NativeCbc.VarLitDenotes | src/solvers/native_cbc.rs:58-97 | on an arena holding a tree, the walk reads that tree's coefficients |
| NativeCbc.TermVarLit | src/solvers/native_cbc.rs:60-85 | a single term yields coefficients worth the multiplier times the term without its constant |
| NativeCbc.VarLitLinear | src/solvers/native_cbc.rs:58-97 | on a sum of terms, the pairs read are worth the expression minus its constant |
| NativeCbc.VarLitLinearAll | src/solvers/native_cbc.rs:58-97 | the same under every assignment |
| NativeCbc.VarLitDropsMultiplier | src/solvers/native_cbc.rs:86-93 | `x - (y + z)` reads as `x + y + z`: a sum restarts its sides at 1 |
| NativeCbc.AlwaysLiteral | src/solvers/native_cbc.rs:99-104 | a literal gives its value; any other expression panics |
| NativeCbc.RowBoundOf | src/solvers/native_cbc.rs:154-159 | the row bound admits exactly the values that satisfy the relation with the literal |
| NativeCbc.NativeRow | src/solvers/native_cbc.rs:152-166 | a row exists only for a constraint that generalizes, with the generalized literal right side as its bound; when the row is read, it is set exactly when each of its names has a column, and otherwise `cols[n]` panics |
| NativeCbc.WithColumns | src/solvers/native_cbc.rs:164-165 | the coefficients are set exactly when every name has a column; otherwise the map index panics with "no entry found for key" |
| NativeCbc.RowWalk | src/solvers/native_cbc.rs:153-163 | a row is read only from a constraint that generalizes, and its bound is the generalized literal right side |
| NativeCbc.NativeRowHolds | src/solvers/native_cbc.rs:152-166 | for a linear left side the row is read and is satisfied exactly when the constraint holds, and it is set exactly when its names have columns |
| NativeCbc.NativeRows | src/solvers/native_cbc.rs:152-166 | the rows succeed exactly when every constraint's row does, one per constraint in order |
| NativeCbc.NativeObjective | src/solvers/native_cbc.rs:168-176 | no objective gives no coefficients; a read objective is set exactly when each of its names has a column, otherwise `cols[n]` panics; a linear objective is worth its coefficients plus its constant |
| NativeCbc.ObjectiveWalk | src/solvers/native_cbc.rs:168-174 | no objective gives no coefficients; a linear simplified objective is read and is worth its coefficients plus its constant |
| NativeCbc.ColumnOf | src/solvers/native_cbc.rs:106-139 | only variable nodes become columns, binaries as binary columns; anything else panics |
| NativeCbc.NativeColumns | src/solvers/native_cbc.rs:147-150 | one column per variable of the problem |
| NativeCbc.NativeModel | src/solvers/native_cbc.rs:144-176 | the columns are the problem's variables, there is one row per constraint, and every coefficient set names a column |
| NativeCbc.UncoveredObjectivePanics | src/solvers/native_cbc.rs:168-176 | an objective naming a variable no constraint mentions makes `run` panic at the column lookup |
| NativeCbc.NativeStatus | src/solvers/native_cbc.rs:185-189 | Finished is Optimal, Abandoned Infeasible, anything else NotSolved |
| NativeCbc.NativeSolution | src/solvers/native_cbc.rs:184-195 | the solution holds exactly the problem's variables, each with its column's value |
| Minilp.DirectionToMinilp | src/solvers/minilp.rs:6-11 | maximise exactly for a maximising objective |
| Minilp.ComparisonToMinilp | src/solvers/minilp.rs:36-42 | each relation maps to its comparison |
| Minilp.BoundMax | src/solvers/minilp.rs:60-71 | the new minimum is the larger of the two bounds |
| Minilp.BoundMin | src/solvers/minilp.rs:60-71 | the new maximum is the smaller of the two bounds |
| Minilp.Adjust | src/solvers/minilp.rs:60-71 | the coefficient grows by the addend and each bound only tightens by the variable's own |
| Minilp.AddVar | src/solvers/minilp.rs:60-71 | only the variable's entry changes, and it is created when missing |
| Minilp.AddVarTwice | src/solvers/minilp.rs:60-71 | adding a variable twice adds both coefficients |
| Minilp.AddVarValue | src/solvers/minilp.rs:60-71 | adding `c·v` raises the linear value by `c` times the value of `v` |
| Minilp.Decompose | src/solvers/minilp.rs:74-104 | the decomposition keeps every name already present and never panics |
| Minilp.DecomposeValue | src/solvers/minilp.rs:74-104 | the decomposition adds exactly the expression's value |
| Minilp.DecomposeExpression | src/solvers/minilp.rs:74-106 | an expression that does not simplify panics; the result lists distinct names and is worth the expression |
| Minilp.DecomposeExample | src/solvers/minilp.rs:187-197 | `12a - 8b + 4a + b` decomposes to `16a - 7b` |
| Minilp.ObjectiveColumns | src/solvers/minilp.rs:108-122 | one column per objective variable, with its coefficient and bounds |
| Minilp.RowTerms | src/solvers/minilp.rs:13-34 | each term points to the column of its name, adding a free zero-cost column for a new name; the name registry stays duplicate-free |
| Minilp.AddConstraint | src/solvers/minilp.rs:13-34 | a right side that is not a literal after generalizing is an error; otherwise exactly one row is added, holding the relation, the literal, and the coefficients and columns of the decomposed left side; earlier rows and columns are kept |
| Minilp.AddConstraintHolds | src/solvers/minilp.rs:13-34 | the added row holds under the values of an assignment exactly when the generalized constraint does, and so exactly when the constraint does for a `generalize` that keeps satisfaction |
| Minilp.AddConstraints | src/solvers/minilp.rs:124-141 | one row per constraint, earlier rows and columns kept |
| Minilp.ProblemToMinilp | src/solvers/minilp.rs:124-141 | no objective is an error. Otherwise it builds one row per constraint and one distinct name per column, and the objective's variables come first with their coefficients |
| Minilp.NameValues | src/solvers/minilp.rs:159-185 | reading values succeeds exactly when every column has a name |
| Minilp.NameValuesKeep | src/solvers/minilp.rs:159-185 | a name no later column carries keeps the value already read |
| Minilp.SolutionFromMinilp | src/solvers/minilp.rs:159-185 | unbounded and infeasible give empty solutions with that status; a solved problem is Optimal |
| Minilp.NamesReadBack | src/solvers/minilp.rs:124-185 | each column's value is read back under the name of its column |
| Legacy.RemoveConstant | src/variables.rs:84-141 | a leaf is kept; any non-literal loses its constant terms |
| Legacy.DfsConstantShifts | src/variables.rs:163-219 | the constant gathered from a starting value is that value plus the constant gathered from 0 |
| Legacy.Generalize | src/variables.rs:161-230 | as written, with `dfs_remove_constant` as `Legacy.RemoveConstant` and the nested `dfs_constant` as `Legacy.DfsConstant`: a zero right side leaves the constraint alone; otherwise the relation is kept, the right side is a literal and the left side has no constant term |
| Legacy.GeneralizeLosesSign | src/variables.rs:161-230 | as written `5 >= x` becomes `x >= -5`, which x = 10 satisfies though the original does not |
| Legacy.GeneralizeDoesNotScale | src/variables.rs:161-230 | as written `2(x+3) >= 1` becomes `2x >= -2`, which x = -2 fails though the original holds |
| Legacy.ExactRest | src/variables.rs:161-230 | corrected: the rest of a non-literal has no constant term |
| Legacy.SplitExact | src/variables.rs:161-230 | corrected: rest plus constant equals the expression |
| Legacy.GeneralizeExact | src/variables.rs:161-230 | corrected: same shape as `generalize`, and satisfied by exactly the assignments that satisfy the original |
| Legacy.LiteralFreeSplit | src/variables.rs:84-219 | without literals, as written and corrected both keep the expression and find no constant |
| Legacy.GeneralizeAgreesWithoutLiterals | src/variables.rs:161-230 | without literals the as-written and corrected generalizations coincide |
| Legacy.Relate | src/operations.rs:35-45 | as written: `le`, `ge`, `equal` keep the relation and leave a literal right side over a left side without constant term; without literals on either side the constraint holds exactly when the comparison of the values does |
| Legacy.RelateLosesSign | src/operations.rs:35-45 | as written: `5.ge(x)` is satisfied at x = 10, where 5 >= 10 is false |
| Legacy.RelateIntended | src/operations.rs:35-45 | corrected: the same shape, and the constraint holds exactly when the comparison of the values does, for every expression |
| Legacy.FromI32 | src/operations.rs:14-25 | an `i32` becomes a literal of that value |
| Legacy.LpSum | src/variables.rs:252-265 | no terms give the empty expression, one term itself, more terms an addition with the last term on the left |
| Legacy.LpSumValue | src/variables.rs:252-265 | the sum is worth the total of its terms |
| LegacyProblem.NewLegacyProblem | src/problem.rs:78-87 | name and sense kept, unique name `name_id`, no objective, no constraints |
| LegacyProblem.VarList | src/problem.rs:92-109 | every pair the walk lists names its own variable |
| LegacyProblem.VarListNames | src/problem.rs:92-109 | the walk finds only variables of the expression, and all of them when every product's left factor is a constant |
| LegacyProblem.ToMap | src/problem.rs:110-117 | the map holds the listed names, and keeps each under its own variable |
| LegacyProblem.ToMapLast | src/problem.rs:110-117 | the last pair listed for a name wins |
| LegacyProblem.ToMapKeeps | src/problem.rs:110-117 | a name not listed keeps its entry |
| LegacyProblem.Variables | src/problem.rs:91-118 | the keys are exactly the names the walk lists over all left sides, each under its own variable |
| LegacyProblem.EntriesNames | src/problem.rs:91-118 | a name is listed exactly when some constraint's left side lists it |
| LegacyProblem.AddConstraints | src/problem.rs:266-268 | the constraint is appended and nothing else changes |
| LegacyProblem.AddConstraintVariables | src/problem.rs:266-268 | adding a constraint adds exactly its left side's names to the variables |
| LegacyProblem.AddObjectiveExpression | src/problem.rs:253-264 | only the objective changes; with value-keeping simplification and splitting, it differs from new + old by a constant |
| LegacyProblem.AddAssign | src/problem.rs:271-290 | `+=` a constraint appends it; `+=` an expression sets the objective and keeps the constraints |
| LegacyProblem.ObjectiveBlock | src/problem.rs:130-140 | empty without an objective; otherwise sense, `obj: ` and the objective's text |
| LegacyProblem.ConstraintsBlock | src/problem.rs:141-150 | the constraints' rows numbered from `c1`, empty exactly without constraints |
| LegacyProblem.NamesOfKind | src/problem.rs:189-213 | the names listed are variables of the requested kind |
| LegacyProblem.IntegerBlockSpaced | src/problem.rs:189-200 | the `Generals` block is each integer variable's name followed by a space |
| LegacyProblem.BinaryBlockSpaced | src/problem.rs:202-213 | the `Binary` block is each binary variable's name followed by a space |
| LegacyProblem.KindBlocksList | src/problem.rs:189-213 | when the names list the variable map's keys once each, reading either block back word by word gives each variable of its kind exactly once and nothing else |
| LegacyProblem.NamesOfKindMembers | src/problem.rs:189-213 | a name is kept exactly when it is listed, is a key, and its variable has the kind; a list without repeats stays without repeats |
| LegacyProblem.ProblemText | src/problem.rs:216-250 | header first and `End` last; without constraints only header, objective and `End` |
| LegacySolvers.Command | src/solvers.rs:28-64 | only the two solvers without a path run; Cbc runs `cbc` on the model and solution, Gurobi runs `gurobi_cl` with `ResultFile=` |
| LegacySolvers.RunStatus | src/solvers.rs:49-52 | Optimal exactly when the output says `Optimal solution found`, else SubOptimal |
| LegacySolvers.RunSolver | src/solvers.rs:28-64 | succeeds exactly for an implemented solver whose run succeeds; Cbc gives no status and Gurobi the output's; failures give the matching error text |
| LegacySolvers.RunSolverAgreesOnOptimal | src/solvers.rs:44-61 | the legacy run agrees with the newer Gurobi reader on Optimal and never reports Infeasible |
| LegacySolvers.CbcLine | src/solvers.rs:79-92 | four words give name and value; otherwise the format or float error |
| LegacySolvers.CbcHeaderStatus | src/solvers.rs:72-78 | Optimal exactly when the first word of the first line contains `Optimal`, else SubOptimal |
| LegacySolvers.ReadCbcSolution | src/solvers.rs:66-97 | succeeds exactly when every later line reads, never panics, and takes the status from the header |
| LegacySolvers.ReadCbcSolutionValues | src/solvers.rs:79-96 | the names read are exactly those the lines give, the last line's value kept |
| LegacySolvers.ReadCbcSolutionAgrees | src/solvers.rs:66-97 | without `**` markers the legacy reader reads the same values as the newer one |
| LegacySolvers.GurobiLine | src/solvers.rs:108-121 | two words give name and value; otherwise the format or float error |
| LegacySolvers.ReadGurobiSolution | src/solvers.rs:99-126 | succeeds exactly when every later line reads; always Optimal |
| LegacySolvers.ReadGurobiSolutionValues | src/solvers.rs:108-125 | the names read are exactly those the lines give |
| LegacySolvers.ReadGurobiSolutionAgrees | src/solvers.rs:99-126 | without comment lines the legacy reader reads the same values as the newer one |
| LegacySolvers.ReadSolution | src/solvers.rs:128-143 | an unopenable file is `Cannot open file`, a solver with a path `Not implemented yet`, otherwise that solver's reader |
| LegacySolvers.ReadSolutionOutcomes | src/solvers.rs:128-143 | reading never panics, and a solution read comes from an implemented solver with status Optimal or SubOptimal |

## Left out

- Process spawning, file writing and reading, and removing temporary files are not modelled. A solver's output, the lines of a solution file and the result of starting a process are parameters instead.
- Floating point is not modelled: `f32` arithmetic is exact `real` arithmetic. Float formatting and parsing are parameters.
- Rust's integer-to-`f32` conversion and its rounding are not modelled. `Legacy.FromI32` gives the exact value.
- The order in which a `HashMap` is iterated is a parameter. The model proves facts for every order that lists the keys once each.
- The LP writers call `variables()` three times, once for each of the `Bounds`, `Generals` and `Binary` blocks (src/format/lp_format.rs:79, 117 and 130; src/problem.rs:154, 191 and 204). The model takes one iteration order for all three blocks. Rust does not promise that two iterations of an unchanged map agree, so the model does not cover blocks listed in different orders.
- The glpk reader slices its status line by byte offset. The model slices characters, which is the same for ASCII text.
- `line.unwrap()` and `String::from_utf8(..).expect("")` cannot fail on the model's input: lines are already strings.
- Gurobi's `read_specific_solution` ignores the problem it is given, so `Gurobi.ReadGurobi` never attaches one. This follows the source.
- The legacy layer's `simplify` (the `normalize` of the Box tree) and `split_constant_and_expr` are not part of this model. They are function parameters of `LegacyProblem.AddObjectiveExpression` and `Operations.VarBinary`.
- `LegacyProblem.AddObjectiveExpression` and `Operations.VarBinary` state their value properties only for parameters that keep values.
- `Minilp.ProblemToMinilp` uses a `generalize` parameter, since the Box tree's `generalize` is not part of this model.
- The bound of a minilp constraint row on its variables' columns is dropped, as in the source.
- Fuel bounds the loops that the source runs to a fixpoint and the recursive walks over an arena, so success is stated for a fuel that suffices. The stand-ins for what the source does without a bound are these:
  - `Simplify.SimplifyExpr` and `Minilp.DecomposeExpression` panic with `NoFixpoint` when a pass does not settle within the fuel. The source would keep looping.
  - `Simplify.SimplifyExpr` reads its arena as a tree first. It panics with `OutOfBound` on any arena that does not hold one, including a cyclic arena whose indices are all in range. The source would start simplifying such an arena and not stop.
  - `Arena.PushArenaAtRoot`, `Arena.PushArenaAtRootLoop`, `Arena.MergeClonedArenas` and `Arena.CloneSubtreeAtIndexAndPush` panic with `OutOfBound` on a cyclic arena whose indices are all in range. The source's copy loops (src/dsl/variables.rs:413-427 and 439-446) push two nodes for every node they pop from such an arena and copy without end. Every caller inherits this panic, among them `Constraints.Generalize`, `Constraints.LpSum`, `Constraints.Sum`, `Problem.Summed` and `Operations.Relate`. The public API cannot build a cycle: the `root` and `arena` fields are private, and `build` exists only for tests (src/dsl/variables.rs:230-233, 323).
  - `Constraints.VarWalk`, `NativeCbc.VarLit` and `Solutions.EvalWith` panic with the stack-overflow message when their fuel, the arena's length, runs out. That happens only on a cyclic arena, where the source's recursion overflows its stack.
- `NativeCbc.VarLitLinear`: the coefficient walk is proved faithful only for sums and differences of terms (`Linear`). On other shapes it drops multipliers, as `NativeCbc.VarLitDropsMultiplier` shows.
- The coin-cbc and minilp solvers are not modelled; their results are parameters.
- `ToTokens` and the quote support, the `constraint!` macro, `modeler.rs`, `main.rs`, and the `run` methods of Cbc and Glpk are not part of this model. Only their helpers are.
- The simplification tests (src/dsl/variables.rs:1387-1410) are proved for number formatting that writes only digits, points and minus signs, because when a pass settles depends on that formatting.
- `SimplifyExamples.DeepSumOfTwo`: the deep-sum test is followed round by round for two terms, not for 1000. The rounds' intermediate shapes grow with the number of terms, and a proof for every count would need a description of each of them.
- `SimplifyExamples.DeepSumCount`: for any count, the constant is tied to the count only through the value at zero. The constant itself is proved equal to the count only for two terms, in `SimplifyExamples.DeepSumOfTwo`.
- `Simplify.Reencode`: the simplified tree is written back by overwriting the root slot and appending its descendants. The source rewrites the visited nodes in place. Both arenas denote the same tree, but their layouts, and so the indices of nodes other than the root, differ.
- `Minilp.DecomposeExpression`: the source simplifies the Box tree with `dsl::simplify`, which is not part of this model. `Simplify.SimplifyTree`, the arena simplifier's rules read on trees, stands in for it. Only the properties that do not depend on the exact simplified form are claimed: a failure to settle panics, and the result lists distinct names and is worth the expression.
- The exact LP text in tests/problems.rs is not restated, because it depends on float formatting.

## Findings

| source | as written | input that shows it | evidently intended | confidence | as-written member | corrected member |
|---|---|---|---|---|---|---|
| src/solvers/mod.rs:101-107 | `get_int` truncates with `as i32`, then checks the tolerance against that truncation | a value 2.999995 for an integer variable: within 1e-5 of 3, yet the truncation 2 fails the check and it panics | round to the nearest integer before checking | high; not executed | Solutions.GetInt, Solutions.GetIntRefusesValueBelowInteger | Solutions.GetIntRounded, Solutions.GetIntRoundedAccepts |
| src/variables.rs:161-230 | `generalize` moves constants with `dfs_remove_constant` and `dfs_constant`. It drops the sign of a subtracted term, and it neither scales constants by literal factors nor applies the sign of the right operand | `5 >= x` at x = 10, and `2(x+3) >= 1` at x = -2 | an equivalent constraint with its constant moved right | high; not executed | Legacy.Generalize, Legacy.GeneralizeLosesSign, Legacy.GeneralizeDoesNotScale, Legacy.RelateLosesSign | Legacy.GeneralizeExact, Legacy.RelateIntended |
| src/solvers/gurobi.rs:90 | `run` looks for the misspelt word `infesible` in the solver's output to detect an infeasible model | solver output `Model is infeasible` gives SubOptimal | look for `infeasible` | medium; not executed | Gurobi.GurobiStatus, Gurobi.InfeasibleReadAsSubOptimal, Gurobi.InfeasibleRunReadAsSubOptimal | Gurobi.GurobiStatusIntended, Gurobi.GurobiRunIntended |

`Gurobi.GurobiRun` and `Legacy.Relate` model the code as written. `Gurobi.GurobiRunIntended` and `Legacy.RelateIntended` are their corrected forms.
