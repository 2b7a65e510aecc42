/** Solver results and how they are read (src/solvers/mod.rs). */
module Solutions {
  import opened Wrappers
  import opened Vars
  import opened Tree
  import opened Arena
  import opened Util
  import opened Problem

  /** `Status`. */
  datatype Status = Optimal | SubOptimal | Infeasible | Unbounded | NotSolved

  /** `Solution`: the status, the value of each variable, and the problem it
      solves when the solver was given one. */
  datatype Solution = Solution(status: Status, results: map<string, real>, relatedProblem: Option<LpProblem>)

  /** `Solution::new`. */
  function NewSolution(status: Status, results: map<string, real>): (s: Solution)
    ensures s.status == status && s.results == results && s.relatedProblem.None?
  {
    Solution(status, results, None)
  }

  /** `Solution::with_problem`. */
  function WithProblem(status: Status, results: map<string, real>, p: LpProblem): (s: Solution)
    ensures s.status == status && s.results == results && s.relatedProblem == Some(p)
  {
    Solution(status, results, Some(p))
  }

  const NotPossible := "Solution must be optimal or suboptimal"
  const NoValue := "No value found for this variable. Check if the variable has been used in the related problem."
  const NotBoolean := "Result value cannot be interpreted as boolean"

  /** Whether values may be read: only from an optimal or a suboptimal solution. */
  predicate Possible(s: Solution) {
    s.status == Optimal || s.status == SubOptimal
  }

  /** `check_possible_solution`. */
  function CheckPossibleSolution(s: Solution): (r: Result<()>)
    ensures r.Ok? <==> Possible(s)
    ensures !r.Ok? ==> r == Panic(NotPossible)
  {
    match s.status
    case Unbounded | NotSolved | Infeasible => Panic(NotPossible)
    case _ => Ok(())
  }

  /** `get_raw_value`, and `get_float` for a continuous variable. */
  function GetRawValue(s: Solution, name: string): (r: Result<real>)
    ensures !Possible(s) ==> r == Panic(NotPossible)
    ensures Possible(s) ==> (r.Ok? <==> name in s.results)
    ensures Possible(s) && name !in s.results ==> r == Panic(NoValue)
    ensures r.Ok? ==> r.value == s.results[name]
  {
    var _ :- CheckPossibleSolution(s);
    if name in s.results then Ok(s.results[name]) else Panic(NoValue)
  }

  function GetFloat(s: Solution, v: LpContinuous): (r: Result<real>)
    ensures !Possible(s) ==> r == Panic(NotPossible)
    ensures Possible(s) ==> (r.Ok? <==> v.name in s.results)
    ensures r.Ok? ==> r.value == s.results[v.name]
  {
    GetRawValue(s, v.name)
  }

  /** `get_bool`: true within the tolerance of 1, false within the
      tolerance of 0, a panic otherwise or when there is no value. */
  function GetBool(s: Solution, v: LpBinary): (r: Result<bool>)
    ensures !Possible(s) ==> r == Panic(NotPossible)
    ensures Possible(s) ==>
      (r == Ok(true) <==> v.name in s.results && IsZero(1.0 - s.results[v.name]))
    ensures Possible(s) ==>
      (r == Ok(false) <==> v.name in s.results && IsZero(s.results[v.name]))
    ensures Possible(s) && !r.Ok? ==> r == Panic(NotBoolean)
  {
    var _ :- CheckPossibleSolution(s);
    if v.name !in s.results then Panic(NotBoolean)
    else
      var f := s.results[v.name];
      if IsZero(1.0 - f) then Ok(true)
      else if IsZero(f) then Ok(false)
      else Panic(NotBoolean)
  }

  /** The bounds of `i32`. */
  const MinI32: int := -0x8000_0000
  const MaxI32: int := 0x7FFF_FFFF

  /** Rust's `f as i32`: rounds toward zero and saturates at the bounds of
      `i32` (a NaN, which `real` does not have, would give 0). */
  function CastToI32(f: real): (i: int)
    ensures MinI32 <= i <= MaxI32
    ensures MinI32 as real <= f <= MaxI32 as real ==> Abs(f - i as real) < 1.0 && Abs(i as real) <= Abs(f)
    ensures (f >= 0.0 ==> i >= 0) && (f <= 0.0 ==> i <= 0)
  {
    var t := if f >= 0.0 then f.Floor else -((-f).Floor);
    if t < MinI32 then MinI32 else if t > MaxI32 then MaxI32 else t
  }

  function NotInteger(f: real, fmt: real -> string): string {
    "Value " + fmt(f) + " cannot be interpreted as integer."
  }

  /** `get_int` as written: the value cast to `i32`, which must lie within the
      tolerance of the value. */
  function GetInt(s: Solution, v: LpInteger, fmt: real -> string): (r: Result<int>)
    ensures !Possible(s) ==> r == Panic(NotPossible)
    ensures Possible(s) && v.name !in s.results ==> r == Panic(NoValue)
    ensures r.Ok? ==> v.name in s.results && r.value == CastToI32(s.results[v.name])
    ensures r.Ok? ==> IsZero(s.results[v.name] - r.value as real)
    ensures Possible(s) && v.name in s.results ==>
      (r.Ok? <==> IsZero(s.results[v.name] - CastToI32(s.results[v.name]) as real))
  {
    var f :- GetRawValue(s, v.name);
    var i := CastToI32(f);
    if IsZero(f - i as real) then Ok(i) else Panic(NotInteger(f, fmt))
  }

  /** A value just below an integer, well within the tolerance of it, is
      refused: the cast rounds it down, away from the integer it stands for. */
  lemma GetIntRefusesValueBelowInteger(v: LpInteger, fmt: real -> string)
    ensures var s := NewSolution(Optimal, map[v.name := 2.999995]);
            IsZero(2.999995 - 3.0) && GetInt(s, v, fmt).Panic?
  {
    var s := NewSolution(Optimal, map[v.name := 2.999995]);
    assert CastToI32(2.999995) == 2;
  }

  /** Rust's `f.round()` cast to `i32`: the nearest integer, halves away
      from zero, saturated. */
  function RoundToI32(f: real): (i: int)
    ensures MinI32 <= i <= MaxI32
  {
    var t := if f >= 0.0 then (f + 0.5).Floor else -((0.5 - f).Floor);
    if t < MinI32 then MinI32 else if t > MaxI32 then MaxI32 else t
  }

  /** Rounding gives back any `i32` nearer than one half. */
  lemma RoundToNearest(f: real, n: int)
    requires MinI32 <= n <= MaxI32 && Abs(f - n as real) < 0.5
    ensures RoundToI32(f) == n
  {
    if f >= 0.0 {
      assert n as real < f + 0.5 < n as real + 1.0;
      assert (f + 0.5).Floor == n;
    } else {
      assert -n as real < 0.5 - f < -n as real + 1.0;
      assert (0.5 - f).Floor == -n;
    }
  }

  /** `get_int` with the cast rounding to the nearest integer instead of
      toward zero, so the tolerance applies on both sides. */
  function GetIntRounded(s: Solution, v: LpInteger, fmt: real -> string): (r: Result<int>)
    ensures !Possible(s) ==> r == Panic(NotPossible)
    ensures Possible(s) && v.name !in s.results ==> r == Panic(NoValue)
    ensures r.Ok? ==> v.name in s.results && IsZero(s.results[v.name] - r.value as real)
  {
    var f :- GetRawValue(s, v.name);
    var i := RoundToI32(f);
    if IsZero(f - i as real) then Ok(i) else Panic(NotInteger(f, fmt))
  }

  /** The rounded reading accepts every value within the tolerance of an
      `i32`, and returns that integer. */
  lemma GetIntRoundedAccepts(s: Solution, v: LpInteger, fmt: real -> string, n: int)
    requires Possible(s) && v.name in s.results
    requires MinI32 <= n <= MaxI32 && IsZero(s.results[v.name] - n as real)
    ensures GetIntRounded(s, v, fmt) == Ok(n)
  {
    RoundToNearest(s.results[v.name], n);
  }

  // evaluating the objective

  /** `eval_with`: the value of the node at `index` of the objective's arena.
      A missing value counts as 0. An index out of range panics; a cycle,
      which the source follows until its stack overflows, is cut off by
      `fuel`. */
  function EvalWith(a: seq<LpExprNode>, index: nat, values: map<string, real>, fuel: nat): (r: Result<real>)
    ensures index >= |a| ==> r == Panic(OutOfBound)
    decreases fuel
  {
    if index >= |a| then Panic(OutOfBound)
    else if fuel == 0 then Panic("thread has overflowed its stack")
    else match a[index]
      case LpCompExpr(op, l, r) =>
        var x :- EvalWith(a, l, values, fuel - 1);
        var y :- EvalWith(a, r, values, fuel - 1);
        Ok(Apply(op, x, y))
      case LeafNode(leaf) => Ok(LeafValue(leaf, values))
  }

  /** On a tree, `eval_with` is the value of the tree. */
  lemma {:induction false} EvalWithTree(a: seq<LpExprNode>, index: nat, values: map<string, real>, fuel: nat)
    requires TreeAt(a, index, fuel).Some?
    ensures EvalWith(a, index, values, fuel) == Ok(Eval(TreeAt(a, index, fuel).value, values))
    decreases fuel
  {
    if a[index].LpCompExpr? {
      EvalWithTree(a, a[index].leftIndex, values, fuel - 1);
      EvalWithTree(a, a[index].rightIndex, values, fuel - 1);
    }
  }

  /** `eval`: nothing without a related problem or an objective, otherwise
      the objective's value at the solution. */
  function EvalObjective(s: Solution): (r: Result<Option<real>>)
    ensures s.relatedProblem.None? || s.relatedProblem.value.objective.None? ==> r == Ok(None)
    ensures s.relatedProblem.Some? && s.relatedProblem.value.objective.Some?
            && Valid(s.relatedProblem.value.objective.value) ==>
      r == Ok(Some(Eval(Denote(s.relatedProblem.value.objective.value).value, s.results)))
    ensures s.relatedProblem.Some? && s.relatedProblem.value.objective.Some?
            && s.relatedProblem.value.objective.value.root >= |s.relatedProblem.value.objective.value.arena| ==>
      r == Panic(OutOfBound)
  {
    match s.relatedProblem
    case None => Ok(None)
    case Some(p) =>
      match p.objective
      case None => Ok(None)
      case Some(e) =>
        if Valid(e) then
          EvalWithTree(e.arena, e.root, s.results, |e.arena|);
          Ok(Some(EvalWith(e.arena, e.root, s.results, |e.arena|).value))
        else
          var v :- EvalWith(e.arena, e.root, s.results, |e.arena|);
          Ok(Some(v))
  }

  // reading a solution file

  const CannotOpen := "Cannot open file"

  /** `read_solution`: the file's lines (None when it cannot be opened),
      handed to the solver's own reader. */
  function ReadSolution<T>(file: Option<seq<string>>, read: seq<string> -> Result<T>): (r: Result<T>)
    ensures file.None? ==> r == Err(CannotOpen)
    ensures file.Some? ==> r == read(file.value)
  {
    match file
    case None => Err(CannotOpen)
    case Some(lines) => read(lines)
  }

  // reading result lines

  const IncorrectFormat := "Incorrect solution format"

  /** The text of Rust's `ParseFloatError` for a malformed number. */
  const InvalidFloat := "invalid float literal"

  /** What a solver's reader makes of one line of its solution file: a name
      and a value, nothing (a line it skips), or an error. */
  type LineReader = string -> Result<Option<(string, real)>>

  /** The loop of a reader over lines: each entry is inserted into the map
      in turn, so a later line for a name overwrites an earlier one; the
      first failing line ends the reading. */
  function Collect(lines: seq<string>, values: map<string, real>, entry: LineReader): (r: Result<map<string, real>>)
    ensures r.Ok? <==> forall k :: 0 <= k < |lines| ==> entry(lines[k]).Ok?
    ensures r.Ok? ==> values.Keys <= r.value.Keys
    ensures r.Panic? ==> exists k :: 0 <= k < |lines| && entry(lines[k]).Panic?
    decreases |lines|
  {
    if |lines| == 0 then Ok(values)
    else
      var e :- entry(lines[0]);
      var next := if e.Some? then values[e.value.0 := e.value.1] else values;
      Collect(lines[1..], next, entry)
  }

  /** Whether some line gives a value for `name`. */
  predicate Named(lines: seq<string>, entry: LineReader, name: string) {
    exists k :: 0 <= k < |lines| && entry(lines[k]).Ok? && entry(lines[k]).value.Some?
                && entry(lines[k]).value.value.0 == name
  }

  /** The names read are those of the starting map and those the lines give,
      and a name no line gives keeps its starting value. */
  lemma {:induction false} CollectKeys(lines: seq<string>, values: map<string, real>, entry: LineReader, name: string)
    requires Collect(lines, values, entry).Ok?
    ensures name in Collect(lines, values, entry).value <==> name in values || Named(lines, entry, name)
    ensures name in values && !Named(lines, entry, name) ==> Collect(lines, values, entry).value[name] == values[name]
    decreases |lines|
  {
    if |lines| > 0 {
      var e := entry(lines[0]).value;
      var next := if e.Some? then values[e.value.0 := e.value.1] else values;
      CollectKeys(lines[1..], next, entry, name);
      if Named(lines[1..], entry, name) {
        var k :| 0 <= k < |lines[1..]| && entry(lines[1..][k]).Ok? && entry(lines[1..][k]).value.Some?
                 && entry(lines[1..][k]).value.value.0 == name;
        assert lines[1..][k] == lines[k + 1];
      }
      if Named(lines, entry, name) && !Named(lines[1..], entry, name) {
        var k :| 0 <= k < |lines| && entry(lines[k]).Ok? && entry(lines[k]).value.Some?
                 && entry(lines[k]).value.value.0 == name;
        if k > 0 {
          assert lines[1..][k - 1] == lines[k];
        }
      }
    }
  }

  /** The last line giving a value wins. */
  lemma {:induction false} CollectLast(lines: seq<string>, values: map<string, real>, entry: LineReader)
    requires |lines| > 0 && Collect(lines, values, entry).Ok?
    requires entry(lines[|lines| - 1]).Ok? && entry(lines[|lines| - 1]).value.Some?
    ensures var (name, value) := entry(lines[|lines| - 1]).value.value;
            name in Collect(lines, values, entry).value && Collect(lines, values, entry).value[name] == value
    decreases |lines|
  {
    var e := entry(lines[0]).value;
    var next := if e.Some? then values[e.value.0 := e.value.1] else values;
    if |lines| > 1 {
      assert lines[1..][|lines[1..]| - 1] == lines[|lines| - 1];
      CollectLast(lines[1..], next, entry);
    }
  }

  /** The lines after the header line (none for an empty file). */
  function Body(lines: seq<string>): seq<string> {
    if |lines| == 0 then [] else lines[1..]
  }

  /** Two runs of lines that read alike, line by line, collect alike, even
      under two different readers. */
  lemma {:induction false} CollectSameEntries(a: seq<string>, b: seq<string>, values: map<string, real>, entry: LineReader, other: LineReader)
    requires |a| == |b|
    requires forall k :: 0 <= k < |a| ==> entry(a[k]) == other(b[k])
    ensures Collect(a, values, entry) == Collect(b, values, other)
    decreases |a|
  {
    if |a| > 0 {
      assert entry(a[0]) == other(b[0]);
      if entry(a[0]).Ok? {
        var e := entry(a[0]).value;
        var next := if e.Some? then values[e.value.0 := e.value.1] else values;
        CollectSameEntries(a[1..], b[1..], next, entry, other);
      }
    }
  }
}
