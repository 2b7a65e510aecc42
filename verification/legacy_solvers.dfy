/** The solvers of the first version of the library (src/solvers.rs): how
    CBC and Gurobi are started and how their solution files are read, into
    a status and a map from variable names to values.

    The status values are those of the newer layer, which spells them the
    same way. What the started process gave back is a parameter (None when
    it could not be started), and a solution file is given as its lines
    (None when it cannot be opened). */
module LegacySolvers {
  import opened Wrappers
  import opened Text
  import opened Solutions
  import Cbc
  import Gurobi

  /** `Solver`: the two solvers on the PATH, and the two with an explicit
      path, which are not implemented. */
  datatype Solver = CbcSolver | CbcPath(path: string) | GurobiSolver | GurobiPath(path: string)

  const NotImplemented := "Not implemented yet"

  /** Whether a solver can be started and read at all. */
  predicate Implemented(s: Solver) {
    s.CbcSolver? || s.GurobiSolver?
  }

  // starting the solver

  /** The command `run_solver` starts: its program and arguments, or None
      for the solvers with a path. */
  function Command(s: Solver, model: string, solution: string): (r: Option<(string, seq<string>)>)
    ensures r.Some? <==> Implemented(s)
    ensures r.Some? ==> model in r.value.1
    ensures s.CbcSolver? ==> r.value.0 == "cbc" && solution in r.value.1
    ensures s.GurobiSolver? ==> r.value.0 == "gurobi_cl" && "ResultFile=" + solution in r.value.1
  {
    match s
    case CbcSolver => Some(("cbc", [model, "solve", "solution", solution]))
    case GurobiSolver => Some(("gurobi_cl", ["ResultFile=" + solution, model]))
    case _ => None
  }

  /** The status `run_solver` reads off Gurobi's output: optimal when it
      says so, suboptimal otherwise. */
  function RunStatus(stdout: string): (st: Status)
    ensures st == Optimal <==> Contains(stdout, "Optimal solution found")
    ensures st != Optimal ==> st == SubOptimal
  {
    if Contains(stdout, "Optimal solution found") then Optimal else SubOptimal
  }

  /** `run_solver`: CBC reports no status, Gurobi reports the one its output
      shows; a solver that could not be started, or that failed, gives an
      error. */
  function RunSolver(s: Solver, output: Option<Gurobi.Output>): (r: Result<Option<Status>>)
    ensures r.Ok? <==> Implemented(s) && output.Some? && output.value.success
    ensures !Implemented(s) ==> r == Err(NotImplemented)
    ensures Implemented(s) && output.None? ==>
      r == Err("Error running the " + (if s.CbcSolver? then "cbc" else "gurobi") + " solver")
    ensures Implemented(s) && output.Some? && !output.value.success ==> r == Err(output.value.exitStatus)
    ensures r.Ok? ==> (r.value.Some? <==> s.GurobiSolver?)
    ensures r.Ok? && s.GurobiSolver? ==>
      (r.value.value == Optimal <==> Contains(output.value.stdout, "Optimal solution found"))
  {
    match s
    case CbcSolver =>
      (match output
       case None => Err("Error running the cbc solver")
       case Some(o) => if o.success then Ok(None) else Err(o.exitStatus))
    case GurobiSolver =>
      (match output
       case None => Err("Error running the gurobi solver")
       case Some(o) => if o.success then Ok(Some(RunStatus(o.stdout))) else Err(o.exitStatus))
    case _ => Err(NotImplemented)
  }

  /** The first version never reports an infeasible problem from Gurobi's
      output, where the newer one does; on optimality the two agree. */
  lemma RunSolverAgreesOnOptimal(stdout: string)
    ensures RunSolver(GurobiSolver, Some(Gurobi.Output(stdout, true, ""))) == Ok(Some(RunStatus(stdout)))
    ensures RunStatus(stdout) == Optimal <==> Gurobi.GurobiStatus(stdout) == Optimal
    ensures RunStatus(stdout) != Infeasible
  {
  }

  // reading CBC's solution file

  /** One line after CBC's header: exactly four words, `index name value
      reduced-cost`. Unlike the newer reader, a "**" in front is not
      removed, and an empty line is a format error rather than a panic. */
  function CbcLine(line: string, parse: string -> Option<real>): (r: Result<Option<(string, real)>>)
    ensures var w := SplitWhitespace(line);
            (r.Ok? <==> |w| == 4 && parse(w[2]).Some?)
            && (|w| != 4 ==> r == Err(IncorrectFormat))
            && (|w| == 4 && parse(w[2]).None? ==> r == Err(InvalidFloat))
            && (r.Ok? ==> r.value == Some((w[1], parse(w[2]).value)))
  {
    var w := SplitWhitespace(line);
    if |w| == 4 then
      match parse(w[2])
      case Some(n) => Ok(Some((w[1], n)))
      case None => Err(InvalidFloat)
    else Err(IncorrectFormat)
  }

  /** The status of CBC's header line: optimal when the text before its
      first space contains "Optimal"; an empty file is suboptimal. */
  function CbcHeaderStatus(lines: seq<string>): (st: Status)
    ensures st == Optimal <==> |lines| > 0 && Contains(UntilSpace(lines[0]), "Optimal")
    ensures st != Optimal ==> st == SubOptimal
  {
    if |lines| > 0 && Contains(UntilSpace(lines[0]), "Optimal") then Optimal else SubOptimal
  }

  /** `read_cbc_solution`: the status from the header line, then one
      variable per later line, a later line for a name overwriting an
      earlier one. */
  function ReadCbcSolution(lines: seq<string>, parse: string -> Option<real>): (r: Result<(Status, map<string, real>)>)
    ensures r.Ok? <==> forall k :: 1 <= k < |lines| ==> CbcLine(lines[k], parse).Ok?
    ensures !r.Panic?
    ensures r.Ok? ==> r.value.0 == CbcHeaderStatus(lines)
    ensures |lines| <= 1 ==> r == Ok((CbcHeaderStatus(lines), map[]))
  {
    assert forall k :: 1 <= k < |lines| ==> lines[1..][k - 1] == lines[k];
    match Collect(Body(lines), map[], line => CbcLine(line, parse))
    case Ok(values) => Ok((CbcHeaderStatus(lines), values))
    case Err(m) => Err(m)
    case Panic(m) => Panic(m)
  }

  /** The names read are exactly those some line after the header gives,
      and the last line giving a value decides it. */
  lemma ReadCbcSolutionValues(lines: seq<string>, parse: string -> Option<real>, name: string)
    requires ReadCbcSolution(lines, parse).Ok?
    ensures name in ReadCbcSolution(lines, parse).value.1 <==> Named(Body(lines), line => CbcLine(line, parse), name)
    ensures |lines| > 1 ==>
      var w := SplitWhitespace(lines[|lines| - 1]);
      |w| == 4 && w[1] in ReadCbcSolution(lines, parse).value.1
      && ReadCbcSolution(lines, parse).value.1[w[1]] == parse(w[2]).value
  {
    var entry := line => CbcLine(line, parse);
    CollectKeys(Body(lines), map[], entry, name);
    if |lines| > 1 {
      assert Body(lines)[|Body(lines)| - 1] == lines[|lines| - 1];
      CollectLast(Body(lines), map[], entry);
    }
  }

  /** On a file whose result lines all have a first word other than "**",
      the first version reads the same values as the newer CBC reader
      (without a problem to take defaults from). */
  lemma ReadCbcSolutionAgrees(lines: seq<string>, parse: string -> Option<real>)
    requires |lines| > 0 && |SplitWhitespace(lines[0])| > 0
    requires forall k :: 1 <= k < |lines| ==>
      |SplitWhitespace(lines[k])| > 0 && SplitWhitespace(lines[k])[0] != "**"
    ensures ReadCbcSolution(lines, parse).Ok? <==> Cbc.ReadCbc(lines, None, parse).Ok?
    ensures ReadCbcSolution(lines, parse).Ok? ==>
      ReadCbcSolution(lines, parse).value.1 == Cbc.ReadCbc(lines, None, parse).value.results
  {
    var entry := line => CbcLine(line, parse);
    var newer := line => Cbc.CbcLine(line, parse);
    forall k | 0 <= k < |lines[1..]|
      ensures entry(lines[1..][k]) == newer(lines[1..][k])
    {
      assert lines[1..][k] == lines[k + 1];
    }
    CollectSameEntries(lines[1..], lines[1..], map[], entry, newer);
  }

  // reading Gurobi's solution file

  /** One line after Gurobi's header: exactly two words, `name value`.
      Unlike the newer reader, a comment line is not skipped. */
  function GurobiLine(line: string, parse: string -> Option<real>): (r: Result<Option<(string, real)>>)
    ensures var w := SplitWhitespace(line);
            (r.Ok? <==> |w| == 2 && parse(w[1]).Some?)
            && (|w| != 2 ==> r == Err(IncorrectFormat))
            && (|w| == 2 && parse(w[1]).None? ==> r == Err(InvalidFloat))
            && (r.Ok? ==> r.value == Some((w[0], parse(w[1]).value)))
  {
    var w := SplitWhitespace(line);
    if |w| == 2 then
      match parse(w[1])
      case Some(n) => Ok(Some((w[0], n)))
      case None => Err(InvalidFloat)
    else Err(IncorrectFormat)
  }

  /** `read_gurobi_solution`: the header line is ignored whatever it holds;
      every value is read, and the status is always optimal. */
  function ReadGurobiSolution(lines: seq<string>, parse: string -> Option<real>): (r: Result<(Status, map<string, real>)>)
    ensures r.Ok? <==> forall k :: 1 <= k < |lines| ==> GurobiLine(lines[k], parse).Ok?
    ensures !r.Panic?
    ensures r.Ok? ==> r.value.0 == Optimal
    ensures |lines| <= 1 ==> r == Ok((Optimal, map[]))
  {
    assert forall k :: 1 <= k < |lines| ==> lines[1..][k - 1] == lines[k];
    match Collect(Body(lines), map[], line => GurobiLine(line, parse))
    case Ok(values) => Ok((Optimal, values))
    case Err(m) => Err(m)
    case Panic(m) => Panic(m)
  }

  /** The names read are exactly those some line after the header gives. */
  lemma ReadGurobiSolutionValues(lines: seq<string>, parse: string -> Option<real>, name: string)
    requires ReadGurobiSolution(lines, parse).Ok?
    ensures name in ReadGurobiSolution(lines, parse).value.1 <==> Named(Body(lines), line => GurobiLine(line, parse), name)
  {
    CollectKeys(Body(lines), map[], line => GurobiLine(line, parse), name);
  }

  /** On a file without comment lines after the header, the first version
      reads what the newer Gurobi reader reads. */
  lemma ReadGurobiSolutionAgrees(lines: seq<string>, parse: string -> Option<real>)
    requires forall k :: 1 <= k < |lines| ==> !(|lines[k]| > 0 && lines[k][0] == '#')
    ensures ReadGurobiSolution(lines, parse).Ok? <==> Gurobi.ReadGurobi(lines, parse).Ok?
    ensures ReadGurobiSolution(lines, parse).Ok? ==>
      ReadGurobiSolution(lines, parse).value.1 == Gurobi.ReadGurobi(lines, parse).value.results
  {
    var entry := line => GurobiLine(line, parse);
    var newer := line => Gurobi.GurobiLine(line, parse);
    forall k | 0 <= k < |Body(lines)|
      ensures entry(Body(lines)[k]) == newer(Body(lines)[k])
    {
      assert Body(lines)[k] == lines[k + 1];
    }
    CollectSameEntries(Body(lines), Body(lines), map[], entry, newer);
  }

  // reading a solution file

  /** `read_solution`: a file that cannot be opened is an error whatever the
      solver; otherwise CBC's and Gurobi's readers are used, and the solvers
      with a path are not implemented. */
  function ReadSolution(s: Solver, file: Option<seq<string>>, parse: string -> Option<real>)
    : (r: Result<(Status, map<string, real>)>)
    ensures file.None? ==> r == Err(CannotOpen)
    ensures file.Some? && !Implemented(s) ==> r == Err(NotImplemented)
    ensures file.Some? && s.CbcSolver? ==> r == ReadCbcSolution(file.value, parse)
    ensures file.Some? && s.GurobiSolver? ==> r == ReadGurobiSolution(file.value, parse)
  {
    match file
    case None => Err(CannotOpen)
    case Some(lines) =>
      match s
      case CbcSolver => ReadCbcSolution(lines, parse)
      case GurobiSolver => ReadGurobiSolution(lines, parse)
      case _ => Err(NotImplemented)
  }

  /** Reading never panics, and only an implemented solver with an opened
      file can succeed; its status is never infeasible, unbounded or
      unsolved. */
  lemma ReadSolutionOutcomes(s: Solver, file: Option<seq<string>>, parse: string -> Option<real>)
    ensures !ReadSolution(s, file, parse).Panic?
    ensures ReadSolution(s, file, parse).Ok? ==>
      Implemented(s) && file.Some? && ReadSolution(s, file, parse).value.0 in {Optimal, SubOptimal}
  {
  }
}
