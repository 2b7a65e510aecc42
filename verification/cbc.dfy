/** The CBC command-line solver's settings and its solution-file reader
    (src/solvers/cbc.rs). Running the solver is a process call and is not
    modelled; the file it writes is given as its lines. */
module Cbc {
  import opened Wrappers
  import opened Text
  import opened Problem
  import opened Solutions

  /** `CbcSolver`. */
  datatype CbcSolver = CbcSolver(
    name: string,
    commandName: string,
    tempSolutionFile: string,
    threads: Option<nat>,
    seconds: Option<nat>)

  /** `CbcSolver::new`; the random UUID naming the solution file is `id`. */
  function NewCbc(id: string): (s: CbcSolver)
    ensures s.name == "Cbc" && s.commandName == "cbc"
    ensures |s.tempSolutionFile| == |id| + 4
    ensures s.tempSolutionFile[..|id|] == id && s.tempSolutionFile[|id|..] == ".sol"
    ensures s.threads.None? && s.seconds.None?
  {
    CbcSolver("Cbc", "cbc", id + ".sol", None, None)
  }

  /** `command_name`: a new command, and the time and thread limits dropped. */
  function CommandName(s: CbcSolver, command: string): (r: CbcSolver)
    ensures r.commandName == command && r.name == s.name && r.tempSolutionFile == s.tempSolutionFile
    ensures r.threads.None? && r.seconds.None?
  {
    CbcSolver(s.name, command, s.tempSolutionFile, None, None)
  }

  /** `with_temp_solution_file`: a new file, and the limits dropped. */
  function WithTempSolutionFile(s: CbcSolver, file: string): (r: CbcSolver)
    ensures r.tempSolutionFile == file && r.name == s.name && r.commandName == s.commandName
    ensures r.threads.None? && r.seconds.None?
  {
    CbcSolver(s.name, s.commandName, file, None, None)
  }

  /** `with_max_seconds`: only the time limit changes. */
  function WithMaxSeconds(s: CbcSolver, seconds: nat): (r: CbcSolver)
    ensures r.seconds == Some(seconds)
    ensures r.(seconds := s.seconds) == s
  {
    s.(seconds := Some(seconds))
  }

  /** `with_nb_threads`: only the thread count changes. */
  function WithNbThreads(s: CbcSolver, threads: nat): (r: CbcSolver)
    ensures r.threads == Some(threads)
    ensures r.(threads := s.threads) == s
  {
    s.(threads := Some(threads))
  }

  /** The limits are independent: setting one keeps the other. */
  lemma LimitsCommute(s: CbcSolver, seconds: nat, threads: nat)
    ensures WithMaxSeconds(WithNbThreads(s, threads), seconds) == WithNbThreads(WithMaxSeconds(s, seconds), threads)
    ensures WithMaxSeconds(WithNbThreads(s, threads), seconds).threads == Some(threads)
  {
  }

  // reading the solution file

  /** The status named by the first word of the file. */
  function CbcStatus(word: string): (st: Status)
    ensures st == Optimal <==> word == "Optimal"
    ensures st == Infeasible <==> word == "Infeasible" || word == "Integer"
    ensures st == Unbounded <==> word == "Unbounded"
    ensures st == SubOptimal <==> word == "Stopped"
    ensures st == NotSolved <==> word !in {"Optimal", "Infeasible", "Integer", "Unbounded", "Stopped"}
  {
    match word
    case "Optimal" => Optimal
    case "Infeasible" | "Integer" => Infeasible
    case "Unbounded" => Unbounded
    case "Stopped" => SubOptimal
    case _ => NotSolved
  }

  /** The panic of indexing the words of an empty line. */
  const EmptyLine := "index out of bounds: the len is 0 but the index is 0"

  /** The words of a result line, without the "**" CBC puts in front of
      variables at a bound. */
  function Fields(line: string): (r: seq<string>)
    requires |SplitWhitespace(line)| > 0
    ensures var w := SplitWhitespace(line);
            if w[0] == "**" then r == w[1..] else r == w
  {
    var w := SplitWhitespace(line);
    if w[0] == "**" then w[1..] else w
  }

  /** One result line: `index name value reduced-cost`. */
  function CbcLine(line: string, parse: string -> Option<real>): (r: Result<Option<(string, real)>>)
    ensures |SplitWhitespace(line)| == 0 ==> r == Panic(EmptyLine)
    ensures |SplitWhitespace(line)| > 0 ==>
      var f := Fields(line);
      (r.Ok? <==> |f| == 4 && parse(f[2]).Some?)
      && (|f| != 4 ==> r == Err(IncorrectFormat))
      && (|f| == 4 && parse(f[2]).None? ==> r == Err(InvalidFloat))
      && (r.Ok? ==> r.value == Some((f[1], parse(f[2]).value)))
  {
    if |SplitWhitespace(line)| == 0 then Panic(EmptyLine)
    else
      var f := Fields(line);
      if |f| == 4 then
        match parse(f[2])
        case Some(n) => Ok(Some((f[1], n)))
        case None => Err(InvalidFloat)
      else Err(IncorrectFormat)
  }

  /** Every variable of the problem, at 0.0: CBC lists only the variables
      whose value is not zero. */
  function Defaults(problem: Option<LpProblem>): (r: Result<map<string, real>>)
    ensures problem.None? ==> r == Ok(map[])
    ensures problem.Some? ==> (r.Ok? <==> Variables(problem.value).Ok?)
    ensures r.Ok? && problem.Some? ==>
      r.value.Keys == Variables(problem.value).value.Keys && forall v :: v in r.value ==> r.value[v] == 0.0
  {
    match problem
    case None => Ok(map[])
    case Some(p) =>
      var vars :- Variables(p);
      Ok(map v | v in vars :: 0.0)
  }

  /** `read_specific_solution`: the status from the first word of the first
      line, then one variable per later line. */
  function ReadCbc(lines: seq<string>, problem: Option<LpProblem>, parse: string -> Option<real>): (r: Result<Solution>)
    ensures r.Ok? ==> r.value.relatedProblem == problem
    ensures r.Ok? ==> |lines| > 0 && |SplitWhitespace(lines[0])| > 0
                      && r.value.status == CbcStatus(SplitWhitespace(lines[0])[0])
    ensures Defaults(problem).Ok? && (|lines| == 0 || |SplitWhitespace(lines[0])| == 0) ==>
      r == Err(IncorrectFormat)
    ensures Defaults(problem).Ok? && |lines| > 0 && |SplitWhitespace(lines[0])| > 0 ==>
      (r.Ok? <==> forall k :: 1 <= k < |lines| ==> CbcLine(lines[k], parse).Ok?)
  {
    var defaults :- Defaults(problem);
    if |lines| == 0 || |SplitWhitespace(lines[0])| == 0 then Err(IncorrectFormat)
    else
      var status := CbcStatus(SplitWhitespace(lines[0])[0]);
      var values := Collect(lines[1..], defaults, line => CbcLine(line, parse));
      assert forall k :: 1 <= k < |lines| ==> lines[1..][k - 1] == lines[k];
      match values
      case Ok(v) => Ok(Solution(status, v, problem))
      case Err(m) => Err(m)
      case Panic(m) => Panic(m)
  }

  /** The values read: a variable of the problem that no line names stays
      at 0.0, and the names read are exactly the problem's variables and
      the names on the lines. */
  lemma ReadCbcValues(lines: seq<string>, p: LpProblem, parse: string -> Option<real>, name: string)
    requires ReadCbc(lines, Some(p), parse).Ok?
    ensures var values := ReadCbc(lines, Some(p), parse).value.results;
            (name in values <==> name in Variables(p).value || Named(lines[1..], line => CbcLine(line, parse), name))
            && (name in Variables(p).value && !Named(lines[1..], line => CbcLine(line, parse), name) ==> values[name] == 0.0)
  {
    var entry := line => CbcLine(line, parse);
    CollectKeys(lines[1..], Defaults(Some(p)).value, entry, name);
  }

  /** The last result line decides the value of the name it gives. */
  lemma ReadCbcLast(lines: seq<string>, problem: Option<LpProblem>, parse: string -> Option<real>)
    requires |lines| > 1 && ReadCbc(lines, problem, parse).Ok?
    ensures var f := Fields(lines[|lines| - 1]);
            |f| == 4 && parse(f[2]).Some?
            && f[1] in ReadCbc(lines, problem, parse).value.results
            && ReadCbc(lines, problem, parse).value.results[f[1]] == parse(f[2]).value
  {
    var entry := line => CbcLine(line, parse);
    assert lines[1..][|lines[1..]| - 1] == lines[|lines| - 1];
    CollectLast(lines[1..], Defaults(problem).value, entry);
  }
}
