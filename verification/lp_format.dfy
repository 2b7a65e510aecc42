/** The CPLEX "LP" text format of a problem (src/format/lp_format.rs).

    Writing an expression simplifies a copy, shows it without parentheses
    and tidies the signs; a problem is a header, the objective, and the
    `Subject To`, `Bounds`, `Generals` and `Binary` sections, each present
    only when it has something in it. The three variable sections follow the
    iteration order of a hash map, which the model takes as a parameter.
 */
module LpFormat {
  import opened Wrappers
  import opened Text
  import opened Vars
  import opened Tree
  import opened Arena
  import opened Show
  import opened Simplify
  import opened Constraints
  import opened Problem

  // formalize_signs

  /** Text with no sign pair and no double space left to tidy. */
  predicate Clean(s: string) {
    !Contains(s, "+ +") && !Contains(s, "- +") && !Contains(s, "+ -") && !Contains(s, "- -")
    && !Contains(s, "  ")
  }

  /** One pass of the loop body of `formalize_signs`: the five replacements
      in order. It changes nothing exactly on clean text, and otherwise
      shortens it. */
  function SignPass(s: string): (r: string)
    ensures r == s <==> Clean(s)
    ensures r == s || |r| < |s|
  {
    var s1 := Replace(s, "+ +", "+ ");
    var s2 := Replace(s1, "- +", "- ");
    var s3 := Replace(s2, "+ -", "- ");
    var s4 := Replace(s3, "- -", "+ ");
    Replace(s4, "  ", " ")
  }

  /** `formalize_signs`: passes until one changes nothing. */
  function FormalizeSigns(s: string): (r: string)
    ensures Clean(r)
    ensures |r| <= |s|
    ensures Clean(s) ==> r == s
    decreases |s|
  {
    var r := SignPass(s);
    if r == s then s else FormalizeSigns(r)
  }

  /** Tidying tidy text changes nothing. */
  lemma FormalizeSignsIdempotent(s: string)
    ensures FormalizeSigns(FormalizeSigns(s)) == FormalizeSigns(s)
  {
  }

  /** `formalize_signs` as the source writes it: a loop that keeps the text
      of the previous pass and stops when a pass leaves it unchanged. */
  method FormalizeSignsLoop(s: string) returns (r: string)
    ensures r == FormalizeSigns(s)
  {
    r := s;
    var previous := "";
    while r != previous
      invariant FormalizeSigns(r) == FormalizeSigns(s)
      invariant r == previous ==> SignPass(r) == r
      decreases |r| + (if r == previous then 0 else 1)
    {
      previous := r;
      r := SignPass(r);
    }
  }

  // expressions and constraints

  /** `to_lp_file_format` of an expression: a simplified copy, shown from
      the original root without parentheses, signs tidied. */
  function ExprText(e: LpExpression, fmt: real -> string, fuel: nat): (r: Result<string>)
    ensures r.Ok? <==> Valid(e) && SimplifyTree(Denote(e).value, fmt, fuel).Some?
    ensures r.Ok? ==> Clean(r.value)
    ensures r.Ok? ==> r.value == FormalizeSigns(ShowTree(SimplifyTree(Denote(e).value, fmt, fuel).value, false, fmt))
  {
    var simplified :- SimplifyExpr(e, fmt, fuel);
    Ok(FormalizeSigns(ShowTree(Denote(simplified).value, false, fmt)))
  }

  function Relation(op: Constraint): string {
    match op
    case GreaterOrEqual => " >= "
    case LessOrEqual => " <= "
    case Equal => " = "
  }

  /** `to_lp_file_format` of a constraint: the two sides around the relation. */
  function ConstraintText(c: LpConstraint, fmt: real -> string, fuel: nat): (r: Result<string>)
    ensures r.Ok? <==> ExprText(c.lhs, fmt, fuel).Ok? && ExprText(c.rhs, fmt, fuel).Ok?
    ensures r.Ok? ==>
      var l := ExprText(c.lhs, fmt, fuel).value;
      |r.value| > |l| + |Relation(c.op)| - 1
      && r.value[..|l|] == l
      && r.value[|l|..|l| + |Relation(c.op)|] == Relation(c.op)
      && r.value[|l| + |Relation(c.op)|..] == ExprText(c.rhs, fmt, fuel).value
  {
    var l :- ExprText(c.lhs, fmt, fuel);
    var rhs :- ExprText(c.rhs, fmt, fuel);
    Ok(l + Relation(c.op) + rhs)
  }

  // the objective block

  function Sense(o: LpObjective): string {
    match o
    case Maximize => "Maximize\n  "
    case Minimize => "Minimize\n  "
  }

  /** `objective_lp_file_block`: nothing without an objective, otherwise the
      sense and `obj: ` before the objective's text. */
  function ObjectiveBlock(p: LpProblem, fmt: real -> string, fuel: nat): (r: Result<string>)
    ensures p.objective.None? ==> r == Ok("")
    ensures p.objective.Some? ==> (r.Ok? <==> ExprText(p.objective.value, fmt, fuel).Ok?)
    ensures p.objective.Some? && r.Ok? ==>
      StartsWith(r.value, Sense(p.objectiveType) + "obj: ")
      && r.value[|Sense(p.objectiveType) + "obj: "|..] == ExprText(p.objective.value, fmt, fuel).value
  {
    match p.objective
    case None => Ok("")
    case Some(e) =>
      var text :- ExprText(e, fmt, fuel);
      Ok(Sense(p.objectiveType) + "obj: " + text)
  }

  // the constraints block

  /** The row of the constraint numbered `k`. */
  function Row(k: nat, text: string): string {
    "  c" + NatToString(k) + ": " + text + "\n"
  }

  /** `constraints_lp_file_block` from the constraint numbered `from` on,
      `text` writing each constraint. */
  function Rows<C>(cs: seq<C>, from: nat, text: C -> Result<string>): (r: Result<string>)
    ensures r.Ok? <==> forall k :: 0 <= k < |cs| ==> text(cs[k]).Ok?
    ensures r.Ok? ==> (r.value == "" <==> |cs| == 0)
    decreases |cs|
  {
    if |cs| == 0 then Ok("")
    else
      var t :- text(cs[0]);
      var rest :- Rows(cs[1..], from + 1, text);
      Ok(Row(from, t) + rest)
  }

  /** The rows numbered from `from` on, written out one by one. */
  function NumberedRows(texts: seq<string>, from: nat): seq<string> {
    seq(|texts|, k requires 0 <= k < |texts| => Row(from + k, texts[k]))
  }

  /** The constraints block is the rows `c1`, `c2`, ... of the constraints'
      texts, in order. */
  lemma {:induction false} RowsNumbered<C>(cs: seq<C>, from: nat, texts: seq<string>,
                                           text: C -> Result<string>)
    requires |texts| == |cs|
    requires forall k :: 0 <= k < |cs| ==> text(cs[k]) == Ok(texts[k])
    ensures Rows(cs, from, text) == Ok(Concat(NumberedRows(texts, from)))
    decreases |cs|
  {
    if |cs| > 0 {
      RowsNumbered(cs[1..], from + 1, texts[1..], text);
      assert NumberedRows(texts, from)[1..] == NumberedRows(texts[1..], from + 1);
    }
  }

  /** The failure of `r`, or `prefix` before its value. */
  function After(prefix: string, r: Result<string>): Result<string> {
    if r.Ok? then Ok(prefix + r.value) else r
  }

  lemma AfterAfter(x: string, y: string, r: Result<string>)
    ensures After(x, After(y, r)) == After(x + y, r)
    ensures After("", r) == r
  {
    if r.Ok? {
      assert x + (y + r.value) == (x + y) + r.value;
      assert "" + r.value == r.value;
    }
  }

  /** The source's loop over the constraints, with a counter from 1. */
  method ConstraintsBlock<C>(cs: seq<C>, text: C -> Result<string>) returns (r: Result<string>)
    ensures r == Rows(cs, 1, text)
  {
    var res := "";
    var index := 1;
    var i := 0;
    assert cs[0..] == cs;
    AfterAfter("", "", Rows(cs, 1, text));
    while i < |cs|
      invariant 0 <= i <= |cs| && index == i + 1
      invariant Rows(cs, 1, text) == After(res, Rows(cs[i..], index, text))
    {
      var rest := cs[i..];
      assert rest[0] == cs[i] && rest[1..] == cs[i + 1..];
      var t := text(cs[i]);
      if !t.Ok? {
        return t;
      }
      assert Rows(rest, index, text) == After(Row(index, t.value), Rows(rest[1..], index + 1, text));
      AfterAfter(res, Row(index, t.value), Rows(rest[1..], index + 1, text));
      res := res + Row(index, t.value);
      index := index + 1;
      i := i + 1;
    }
    assert res + "" == res;
    return Ok(res);
  }

  // the variable blocks

  /** The entries of a variable map point at variables of the problem's
      constraints, as `LpProblem::variables` guarantees. */
  predicate Entries(p: LpProblem, vars: map<string, (nat, nat)>) {
    forall v :: v in vars ==>
      vars[v].0 < |p.constraints| && NamesAt(p.constraints[vars[v].0].lhs.arena, vars[v].1, v)
  }

  /** The variable an entry points at. */
  function EntryLeaf(p: LpProblem, vars: map<string, (nat, nat)>, v: string): (l: Leaf)
    requires Entries(p, vars) && v in vars
    ensures VarName(l) == Some(v)
  {
    p.constraints[vars[v].0].lhs.arena[vars[v].1].leaf
  }

  /** One of the three blocks: the line `line` gives for each name in
      iteration order. */
  function Block(p: LpProblem, vars: map<string, (nat, nat)>, names: seq<string>, line: Leaf -> string): string
    requires Entries(p, vars)
  {
    if |names| == 0 then ""
    else (if names[0] in vars then line(EntryLeaf(p, vars, names[0])) else "") + Block(p, vars, names[1..], line)
  }

  /** A block over no variables is empty. */
  lemma {:induction false} EmptyBlock(p: LpProblem, names: seq<string>, line: Leaf -> string)
    requires Entries(p, map[])
    ensures Block(p, map[], names, line) == ""
  {
    if |names| > 0 {
      EmptyBlock(p, names[1..], line);
    }
  }

  /** The line of `bounds_lp_file_block` for one variable: both bounds
      around the name, one bound, `free` for a continuous variable with
      none, nothing for an integer variable with none or a binary one. */
  function BoundLine(l: Leaf, fmt: real -> string): (r: string)
    ensures r == "" <==> !(l.ConsCont? || (l.ConsInt? && (l.intVar.lowerBound.Some? || l.intVar.upperBound.Some?)))
    ensures r != "" ==> StartsWith(r, "  ") && r[|r| - 1] == '\n'
  {
    match l
    case ConsInt(v) => Bounds(v.name, v.lowerBound, v.upperBound, false, fmt)
    case ConsCont(v) => Bounds(v.name, v.lowerBound, v.upperBound, true, fmt)
    case _ => ""
  }

  function Bounds(name: string, lower: Option<real>, upper: Option<real>, continuous: bool, fmt: real -> string)
    : (r: string)
    ensures lower.Some? && upper.Some? ==> r == "  " + fmt(lower.value) + " <= " + name + " <= " + fmt(upper.value) + "\n"
    ensures lower.Some? && upper.None? ==> r == "  " + fmt(lower.value) + " <= " + name + "\n"
    ensures lower.None? && upper.Some? ==> r == "  " + name + " <= " + fmt(upper.value) + "\n"
    ensures lower.None? && upper.None? ==> r == (if continuous then "  " + name + " free\n" else "")
  {
    if lower.Some? then
      "  " + fmt(lower.value) + " <= " + name + (if upper.Some? then " <= " + fmt(upper.value) else "") + "\n"
    else if upper.Some? then "  " + name + " <= " + fmt(upper.value) + "\n"
    else if continuous then "  " + name + " free\n"
    else ""
  }

  /** The item of `integers_lp_file_block`: the name of an integer variable
      and a space. */
  function IntegerItem(l: Leaf): (r: string)
    ensures r != "" <==> l.ConsInt?
  {
    if l.ConsInt? then l.intVar.name + " " else ""
  }

  /** The item of `binaries_lp_file_block`. */
  function BinaryItem(l: Leaf): (r: string)
    ensures r != "" <==> l.ConsBin?
  {
    if l.ConsBin? then l.binVar.name + " " else ""
  }

  /** The names of the variables of one kind, in iteration order. */
  function NamesOfKind(p: LpProblem, vars: map<string, (nat, nat)>, names: seq<string>, kind: Leaf -> bool)
    : (r: seq<string>)
    requires Entries(p, vars)
    ensures forall k :: 0 <= k < |r| ==> r[k] in vars && kind(EntryLeaf(p, vars, r[k]))
  {
    if |names| == 0 then []
    else
      var rest := NamesOfKind(p, vars, names[1..], kind);
      if names[0] in vars && kind(EntryLeaf(p, vars, names[0])) then [names[0]] + rest else rest
  }

  /** Each name followed by a space. */
  function Spaced(names: seq<string>): string {
    if |names| == 0 then "" else names[0] + " " + Spaced(names[1..])
  }

  lemma {:induction false} IntegerBlockSpaced(p: LpProblem, vars: map<string, (nat, nat)>, names: seq<string>)
    requires Entries(p, vars)
    ensures Block(p, vars, names, IntegerItem) == Spaced(NamesOfKind(p, vars, names, (l: Leaf) => l.ConsInt?))
  {
    if |names| > 0 {
      IntegerBlockSpaced(p, vars, names[1..]);
    }
  }

  lemma {:induction false} BinaryBlockSpaced(p: LpProblem, vars: map<string, (nat, nat)>, names: seq<string>)
    requires Entries(p, vars)
    ensures Block(p, vars, names, BinaryItem) == Spaced(NamesOfKind(p, vars, names, (l: Leaf) => l.ConsBin?))
  {
    if |names| > 0 {
      BinaryBlockSpaced(p, vars, names[1..]);
    }
  }

  /** Names without whitespace, each followed by a space, split back into
      the names. */
  lemma {:induction false} SplitSpaced(names: seq<string>)
    requires forall k :: 0 <= k < |names| ==> IsToken(names[k])
    ensures SplitWhitespace(Spaced(names)) == names
  {
    if |names| > 0 {
      var rest := Spaced(names[1..]);
      SplitSpaced(names[1..]);
      assert names[0] + " " + rest == names[0] + (" " + rest);
      SplitAfterToken(names[0], " " + rest);
      assert (" " + rest)[1..] == rest;
      assert names == [names[0]] + names[1..];
    }
  }

  /** The names kept are those of `names` that are variables of the kind;
      none is repeated when `names` repeats none. */
  lemma {:induction false} NamesOfKindMembers(p: LpProblem, vars: map<string, (nat, nat)>, names: seq<string>,
                                              kind: Leaf -> bool)
    requires Entries(p, vars)
    ensures forall n :: n in NamesOfKind(p, vars, names, kind) <==> n in names && n in vars && kind(EntryLeaf(p, vars, n))
    ensures NoRepeats(names) ==> NoRepeats(NamesOfKind(p, vars, names, kind))
  {
    if |names| > 0 {
      NamesOfKindMembers(p, vars, names[1..], kind);
      if NoRepeats(names) {
        assert NoRepeats(names[1..]) by {
          forall i, j | 0 <= i < j < |names| - 1 ensures names[1..][i] != names[1..][j] {
            assert names[1..][i] == names[i + 1] && names[1..][j] == names[j + 1];
          }
        }
        assert names[0] !in names[1..] by {
          forall k | 0 <= k < |names| - 1 ensures names[1..][k] != names[0] {
            assert names[1..][k] == names[k + 1];
          }
        }
      }
    }
  }

  /** The Generals block lists the integer variables, in iteration order,
      when no name holds whitespace; for an order listing each key once,
      every integer variable appears exactly once. */
  lemma GeneralsListsIntegers(p: LpProblem, vars: map<string, (nat, nat)>, names: seq<string>)
    requires Entries(p, vars)
    requires forall k :: 0 <= k < |names| ==> IsToken(names[k])
    ensures SplitWhitespace(Block(p, vars, names, IntegerItem))
         == NamesOfKind(p, vars, names, (l: Leaf) => l.ConsInt?)
    ensures ListsKeys(names, vars) ==>
      NoRepeats(SplitWhitespace(Block(p, vars, names, IntegerItem)))
      && forall n :: n in SplitWhitespace(Block(p, vars, names, IntegerItem)) <==> n in vars && EntryLeaf(p, vars, n).ConsInt?
  {
    NamesOfKindMembers(p, vars, names, (l: Leaf) => l.ConsInt?);
    IntegerBlockSpaced(p, vars, names);
    KindNamesAreTokens(p, vars, names, (l: Leaf) => l.ConsInt?);
    SplitSpaced(NamesOfKind(p, vars, names, (l: Leaf) => l.ConsInt?));
  }

  /** The Binary block lists the binary variables; for an order listing
      each key once, every binary variable appears exactly once. */
  lemma BinaryListsBinaries(p: LpProblem, vars: map<string, (nat, nat)>, names: seq<string>)
    requires Entries(p, vars)
    requires forall k :: 0 <= k < |names| ==> IsToken(names[k])
    ensures SplitWhitespace(Block(p, vars, names, BinaryItem))
         == NamesOfKind(p, vars, names, (l: Leaf) => l.ConsBin?)
    ensures ListsKeys(names, vars) ==>
      NoRepeats(SplitWhitespace(Block(p, vars, names, BinaryItem)))
      && forall n :: n in SplitWhitespace(Block(p, vars, names, BinaryItem)) <==> n in vars && EntryLeaf(p, vars, n).ConsBin?
  {
    NamesOfKindMembers(p, vars, names, (l: Leaf) => l.ConsBin?);
    BinaryBlockSpaced(p, vars, names);
    KindNamesAreTokens(p, vars, names, (l: Leaf) => l.ConsBin?);
    SplitSpaced(NamesOfKind(p, vars, names, (l: Leaf) => l.ConsBin?));
  }

  lemma {:induction false} KindNamesAreTokens(p: LpProblem, vars: map<string, (nat, nat)>, names: seq<string>,
                                              kind: Leaf -> bool)
    requires Entries(p, vars)
    requires forall k :: 0 <= k < |names| ==> IsToken(names[k])
    ensures forall k :: 0 <= k < |NamesOfKind(p, vars, names, kind)| ==> IsToken(NamesOfKind(p, vars, names, kind)[k])
  {
    if |names| > 0 {
      KindNamesAreTokens(p, vars, names[1..], kind);
    }
  }

  // the problem

  function Header(name: string): string {
    "\\ " + name + "\n\n"
  }

  /** A section: its heading and block, or nothing for an empty block. */
  function Section(heading: string, block: string, tail: string): string {
    if |block| > 0 then heading + block + tail else ""
  }

  /** The text of a problem from the text of its blocks. */
  function Assemble(name: string, objective: string, constraints: string, bounds: string,
                    integers: string, binaries: string): (r: string)
    ensures StartsWith(r, Header(name))
    ensures |r| >= 4 && r[|r| - 4..] == "\nEnd"
  {
    var body := Header(name) + objective
      + Section("\n\nSubject To\n", constraints, "")
      + Section("\nBounds\n", bounds, "")
      + Section("\nGenerals\n  ", integers, "\n")
      + Section("\nBinary\n  ", binaries, "\n");
    assert (body + "\nEnd")[..|Header(name)|] == Header(name);
    body + "\nEnd"
  }

  /** `to_lp_file_format` of a problem. `order` is the iteration order of
      the variable map. */
  function ProblemText(p: LpProblem, order: map<string, (nat, nat)> -> seq<string>, fmt: real -> string, fuel: nat)
    : (r: Result<string>)
    ensures r.Ok? ==> StartsWith(r.value, Header(p.name))
    ensures r.Ok? ==> |r.value| >= 4 && r.value[|r.value| - 4..] == "\nEnd"
    ensures r.Ok? <==> ObjectiveBlock(p, fmt, fuel).Ok? && Rows(p.constraints, 1, c => ConstraintText(c, fmt, fuel)).Ok?
                       && Variables(p).Ok?
  {
    var objective :- ObjectiveBlock(p, fmt, fuel);
    var constraints :- Rows(p.constraints, 1, c => ConstraintText(c, fmt, fuel));
    var vars :- Variables(p);
    var names := order(vars);
    Ok(Assemble(p.name, objective, constraints, Block(p, vars, names, l => BoundLine(l, fmt)),
                Block(p, vars, names, IntegerItem), Block(p, vars, names, BinaryItem)))
  }

  /** A problem without constraints has no variables, so its text is just
      the header, the objective and the end marker. */
  lemma NoConstraintsText(p: LpProblem, order: map<string, (nat, nat)> -> seq<string>, fmt: real -> string, fuel: nat)
    requires |p.constraints| == 0
    requires ObjectiveBlock(p, fmt, fuel).Ok?
    ensures ProblemText(p, order, fmt, fuel) == Ok(Header(p.name) + ObjectiveBlock(p, fmt, fuel).value + "\nEnd")
  {
    var text := c => ConstraintText(c, fmt, fuel);
    assert Rows(p.constraints, 1, text) == Ok("");
    assert Variables(p) == Ok(map[]);
    var names := order(map[]);
    EmptyBlock(p, names, l => BoundLine(l, fmt));
    EmptyBlock(p, names, IntegerItem);
    EmptyBlock(p, names, BinaryItem);
    AssembleEmpty(p.name, ObjectiveBlock(p, fmt, fuel).value);
  }

  lemma AssembleEmpty(name: string, objective: string)
    ensures Assemble(name, objective, "", "", "", "") == Header(name) + objective + "\nEnd"
  {
    assert Header(name) + objective + "" + "" + "" + "" == Header(name) + objective;
  }
}
