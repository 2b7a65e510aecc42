/** The Gurobi command-line solver's settings, its solution-file reader and
    the status it reads off the solver's output (src/solvers/gurobi.rs). */
module Gurobi {
  import opened Wrappers
  import opened Text
  import opened Solutions

  /** `GurobiSolver`. */
  datatype GurobiSolver = GurobiSolver(name: string, commandName: string, tempSolutionFile: string)

  /** `GurobiSolver::new`; the random UUID naming the solution file is `id`. */
  function NewGurobi(id: string): (s: GurobiSolver)
    ensures s.name == "Gurobi" && s.commandName == "gurobi_cl"
    ensures |s.tempSolutionFile| == |id| + 4
    ensures s.tempSolutionFile[..|id|] == id && s.tempSolutionFile[|id|..] == ".sol"
  {
    GurobiSolver("Gurobi", "gurobi_cl", id + ".sol")
  }

  /** `command_name`: only the command changes. */
  function CommandName(s: GurobiSolver, command: string): (r: GurobiSolver)
    ensures r.commandName == command
    ensures r.(commandName := s.commandName) == s
  {
    GurobiSolver(s.name, command, s.tempSolutionFile)
  }

  /** One line after the header: a comment (first character '#') is
      skipped, any other line is `name value`. */
  function GurobiLine(line: string, parse: string -> Option<real>): (r: Result<Option<(string, real)>>)
    ensures |line| > 0 && line[0] == '#' ==> r == Ok(None)
    ensures !(|line| > 0 && line[0] == '#') ==>
      var w := SplitWhitespace(line);
      (r.Ok? <==> |w| == 2 && parse(w[1]).Some?)
      && (|w| != 2 ==> r == Err(IncorrectFormat))
      && (|w| == 2 && parse(w[1]).None? ==> r == Err(InvalidFloat))
      && (r.Ok? ==> r.value == Some((w[0], parse(w[1]).value)))
  {
    if |line| > 0 && line[0] == '#' then Ok(None)
    else
      var w := SplitWhitespace(line);
      if |w| == 2 then
        match parse(w[1])
        case Some(n) => Ok(Some((w[0], n)))
        case None => Err(InvalidFloat)
      else Err(IncorrectFormat)
  }

  /** `read_specific_solution`: the header line is ignored whatever it
      holds; every value is read into a solution marked optimal. The
      problem passed in is not kept. */
  function ReadGurobi(lines: seq<string>, parse: string -> Option<real>): (r: Result<Solution>)
    ensures r.Ok? <==> forall k :: 1 <= k < |lines| ==> GurobiLine(lines[k], parse).Ok?
    ensures r.Ok? ==> r.value.status == Optimal && r.value.relatedProblem.None?
    ensures |lines| <= 1 ==> r == Ok(Solution(Optimal, map[], None))
  {
    assert forall k :: 1 <= k < |lines| ==> lines[1..][k - 1] == lines[k];
    match Collect(Body(lines), map[], line => GurobiLine(line, parse))
    case Ok(values) => Ok(Solution(Optimal, values, None))
    case Err(m) => Err(m)
    case Panic(m) => Panic(m)
  }

  /** The header and the comment lines never give a value: replacing them
      leaves what is read unchanged. */
  lemma ReadGurobiIgnoresComments(lines: seq<string>, other: seq<string>, parse: string -> Option<real>)
    requires |lines| == |other| > 0
    requires forall k :: 1 <= k < |lines| ==>
      other[k] == lines[k] || (|lines[k]| > 0 && lines[k][0] == '#' && |other[k]| > 0 && other[k][0] == '#')
    ensures ReadGurobi(lines, parse) == ReadGurobi(other, parse)
  {
    var entry := line => GurobiLine(line, parse);
    CollectSameEntries(lines[1..], other[1..], map[], entry, entry);
  }

  // the status from the solver's output

  /** The status `run` decides from what the solver prints, as written: the
      word it looks for to detect an infeasible model is spelt "infesible". */
  function GurobiStatus(stdout: string): (st: Status)
    ensures st == Optimal <==> Contains(stdout, "Optimal solution found")
    ensures st == Infeasible <==> !Contains(stdout, "Optimal solution found") && Contains(stdout, "infesible")
    ensures st == SubOptimal <==> !Contains(stdout, "Optimal solution found") && !Contains(stdout, "infesible")
  {
    if Contains(stdout, "Optimal solution found") then Optimal
    else if Contains(stdout, "infesible") then Infeasible
    else SubOptimal
  }

  /** The status `run` evidently means to decide: "infeasible" spelt out. */
  function GurobiStatusIntended(stdout: string): (st: Status)
    ensures st == Optimal <==> Contains(stdout, "Optimal solution found")
    ensures st == Infeasible <==> !Contains(stdout, "Optimal solution found") && Contains(stdout, "infeasible")
    ensures st == SubOptimal <==> !Contains(stdout, "Optimal solution found") && !Contains(stdout, "infeasible")
  {
    if Contains(stdout, "Optimal solution found") then Optimal
    else if Contains(stdout, "infeasible") then Infeasible
    else SubOptimal
  }

  lemma ThreeChars(s: string, p: string, k: nat)
    requires |p| >= 5 && k + |p| <= |s| && s[k..k + |p|] == p
    ensures s[k] == p[0] && s[k + 1] == p[1] && s[k + 4] == p[4]
  {
    assert s[k..k + |p|][4] == s[k + 4];
  }

  lemma NotMisspelt(s: string)
    requires s == "Model is infeasible"
    ensures !Contains(s, "infesible")
  {
    if Contains(s, "infesible") {
      var k := ContainsAt(s, "infesible");
      ThreeChars(s, "infesible", k);
      assert false;
    }
  }

  /** Output reporting an infeasible model in plain English reads as
      `SubOptimal` as written, and as `Infeasible` once spelt correctly. */
  lemma InfeasibleReadAsSubOptimal(s: string)
    requires s == "Model is infeasible"
    ensures GurobiStatus(s) == SubOptimal
    ensures GurobiStatusIntended(s) == Infeasible
  {
    ShortNeverContains(s, "Optimal solution found");
    NotMisspelt(s);
    assert StartsWith(s[9..], "infeasible");
    ContainsInSuffix(s, "infeasible", 9);
  }

  /** What the finished solver process gave back. */
  datatype Output = Output(stdout: string, success: bool, exitStatus: string)

  /** The end of `run`: the solution file's reading with the status from the
      output, or the exit status when the solver failed; `output` is None
      when the solver could not be started. */
  function GurobiRun(s: GurobiSolver, output: Option<Output>, read: Result<Solution>): (r: Result<Solution>)
    ensures output.None? ==> r == Err("Error running the " + s.name + " solver")
    ensures output.Some? && !output.value.success ==> r == Err(output.value.exitStatus)
    ensures output.Some? && output.value.success ==>
      (r.Ok? <==> read.Ok?)
      && (r.Ok? ==> r.value == read.value.(status := GurobiStatus(output.value.stdout)))
  {
    match output
    case None => Err("Error running the " + s.name + " solver")
    case Some(o) =>
      if o.success then
        var solution :- read;
        Ok(solution.(status := GurobiStatus(o.stdout)))
      else Err(o.exitStatus)
  }

  /** `run` with the status read with the corrected spelling: the same
      outcome, except that a reported infeasibility is `Infeasible`. */
  function GurobiRunIntended(s: GurobiSolver, output: Option<Output>, read: Result<Solution>): (r: Result<Solution>)
    ensures r.Ok? <==> GurobiRun(s, output, read).Ok?
    ensures !r.Ok? ==> r == GurobiRun(s, output, read)
    ensures r.Ok? ==>
      output.Some? && r.value == GurobiRun(s, output, read).value.(status := GurobiStatusIntended(output.value.stdout))
  {
    match output
    case None => Err("Error running the " + s.name + " solver")
    case Some(o) =>
      if o.success then
        var solution :- read;
        Ok(solution.(status := GurobiStatusIntended(o.stdout)))
      else Err(o.exitStatus)
  }

  /** A successful run printing `Model is infeasible` is reported as
      `SubOptimal` as written, and as `Infeasible` corrected. */
  lemma InfeasibleRunReadAsSubOptimal(s: GurobiSolver, o: Output, read: Result<Solution>)
    requires o.success && o.stdout == "Model is infeasible" && read.Ok?
    ensures GurobiRun(s, Some(o), read).Ok? && GurobiRun(s, Some(o), read).value.status == SubOptimal
    ensures GurobiRunIntended(s, Some(o), read).Ok? && GurobiRunIntended(s, Some(o), read).value.status == Infeasible
  {
    InfeasibleReadAsSubOptimal(o.stdout);
  }
}
