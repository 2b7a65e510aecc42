/** The GLPK command-line solver's settings and its reader of the printed
    solution report (src/solvers/glpk.rs).

    The report is given as its lines, indexed from 0: line 1 holds the
    number of rows, line 2 the number of columns, line 4 the status from
    its twelfth character on, and the column table starts at line
    `12 + rows`, one column per line. */
module Glpk {
  import opened Wrappers
  import opened Text
  import opened Solutions

  /** `GlpkSolver`. */
  datatype GlpkSolver = GlpkSolver(name: string, commandName: string, tempSolutionFile: string)

  /** `GlpkSolver::new`; the random UUID naming the solution file is `id`. */
  function NewGlpk(id: string): (s: GlpkSolver)
    ensures s.name == "Glpk" && s.commandName == "glpsol"
    ensures |s.tempSolutionFile| == |id| + 4
    ensures s.tempSolutionFile[..|id|] == id && s.tempSolutionFile[|id|..] == ".sol"
  {
    GlpkSolver("Glpk", "glpsol", id + ".sol")
  }

  /** `command_name`: only the command changes. */
  function CommandName(s: GlpkSolver, command: string): (r: GlpkSolver)
    ensures r.commandName == command
    ensures r.(commandName := s.commandName) == s
  {
    GlpkSolver(s.name, command, s.tempSolutionFile)
  }

  /** `temp_solution_file`: only the file changes. */
  function TempSolutionFile(s: GlpkSolver, file: string): (r: GlpkSolver)
    ensures r.tempSolutionFile == file
    ensures r.(tempSolutionFile := s.tempSolutionFile) == s
  {
    GlpkSolver(s.name, s.commandName, file)
  }

  // sizes

  /** The largest `usize` of a 64-bit target. */
  const MaxUsize: nat := 0xFFFF_FFFF_FFFF_FFFF

  predicate AllDigits(s: string) {
    forall i :: 0 <= i < |s| ==> IsDigit(s[i])
  }

  /** `str::parse::<usize>`: decimal digits, optionally after one '+',
      with a value that fits. */
  function ParseUsize(s: string): (r: Option<nat>)
    ensures r.Some? ==> r.value <= MaxUsize
    ensures r.Some? <==>
      var d := if |s| > 0 && s[0] == '+' then s[1..] else s;
      |d| > 0 && AllDigits(d) && DigitsValue(d) <= MaxUsize
  {
    var d := if |s| > 0 && s[0] == '+' then s[1..] else s;
    if |d| > 0 && AllDigits(d) && DigitsValue(d) <= MaxUsize then Some(DigitsValue(d)) else None
  }

  /** A size printed in decimal reads back, with or without a '+'. */
  lemma ParseUsizeRoundTrip(n: nat)
    requires n <= MaxUsize
    ensures ParseUsize(NatToString(n)) == Some(n)
    ensures ParseUsize("+" + NatToString(n)) == Some(n)
  {
    NatToStringRoundTrip(n);
    assert ("+" + NatToString(n))[1..] == NatToString(n);
  }

  /** `read_size`: the second word of the line, as a size. */
  function ReadSize(line: Option<string>): (r: Result<nat>)
    ensures r.Ok? <==> line.Some? && |SplitWhitespace(line.value)| >= 2
                       && ParseUsize(SplitWhitespace(line.value)[1]).Some?
    ensures r.Ok? ==> r.value == ParseUsize(SplitWhitespace(line.value)[1]).value
    ensures !r.Ok? ==> r == Err(IncorrectFormat)
  {
    match line
    case None => Err(IncorrectFormat)
    case Some(l) =>
      var w := SplitWhitespace(l);
      if |w| < 2 then Err(IncorrectFormat)
      else
        match ParseUsize(w[1])
        case Some(v) => Ok(v)
        case None => Err(IncorrectFormat)
  }

  // status

  const UnknownStatus := "Incorrect solution format: Unknown solution status"
  const NoStatus := "Incorrect solution format: No solution status found"
  const MissingColumns := "Incorrect solution format: Not all columns are present"
  const FewFields := "Incorrect solution format: Column specification has to few fields"

  /** The panic of slicing a line shorter than the status column. */
  const ShortStatusLine := "byte index 12 is out of range"

  /** The status text after the "Status:" label. */
  function GlpkStatus(text: string): (r: Result<Status>)
    ensures r == Ok(Optimal) <==> text == "INTEGER OPTIMAL" || text == "OPTIMAL"
    ensures r == Ok(Infeasible) <==> text == "INFEASIBLE (FINAL)" || text == "INTEGER EMPTY"
    ensures r == Ok(NotSolved) <==> text == "UNDEFINED"
    ensures r == Ok(Unbounded) <==> text == "INTEGER UNDEFINED" || text == "UNBOUNDED"
    ensures r.Ok? ==> r.value != SubOptimal
    ensures !r.Ok? ==> r == Err(UnknownStatus)
  {
    match text
    case "INTEGER OPTIMAL" | "OPTIMAL" => Ok(Optimal)
    case "INFEASIBLE (FINAL)" | "INTEGER EMPTY" => Ok(Infeasible)
    case "UNDEFINED" => Ok(NotSolved)
    case "INTEGER UNDEFINED" | "UNBOUNDED" => Ok(Unbounded)
    case _ => Err(UnknownStatus)
  }

  /** The line at index `k`, if the report has one. */
  function LineAt(lines: seq<string>, k: nat): (r: Option<string>)
    ensures r.Some? <==> k < |lines|
    ensures r.Some? ==> r.value == lines[k]
  {
    if k < |lines| then Some(lines[k]) else None
  }

  // columns

  /** One line of the column table: `number name activity value ...`; the
      value is its fourth word. */
  function GlpkColumn(line: string, parse: string -> Option<real>): (r: Result<Option<(string, real)>>)
    ensures var w := SplitWhitespace(line);
            (r.Ok? <==> |w| >= 4 && parse(w[3]).Some?)
            && (|w| < 4 ==> r == Err(FewFields))
            && (|w| >= 4 && parse(w[3]).None? ==> r == Err(InvalidFloat))
            && (r.Ok? ==> r.value == Some((w[1], parse(w[3]).value)))
  {
    var w := SplitWhitespace(line);
    if |w| >= 4 then
      match parse(w[3])
      case Some(n) => Ok(Some((w[1], n)))
      case None => Err(InvalidFloat)
    else Err(FewFields)
  }

  function Min(a: nat, b: nat): nat {
    if a <= b then a else b
  }

  /** The `col` lines of the column table starting at `start`, read in
      order: a bad line fails where it stands, and running out of lines
      before `col` of them fails after the last one. With no columns to read
      nothing is read, however short the report. */
  function Columns(lines: seq<string>, start: nat, col: nat, parse: string -> Option<real>)
    : (r: Result<map<string, real>>)
    ensures r.Ok? <==> (col == 0 || start + col <= |lines|)
                       && forall k :: start <= k < start + col ==> GlpkColumn(lines[k], parse).Ok?
    ensures col == 0 ==> r == Ok(map[])
    ensures col > 0 && r.Ok? ==> r == Collect(lines[start .. start + col], map[], line => GlpkColumn(line, parse))
    ensures start + col > |lines| && col > 0
            && (forall k :: start <= k < |lines| ==> GlpkColumn(lines[k], parse).Ok?) ==>
      r == Err(MissingColumns)
  {
    var present := lines[Min(start, |lines|) .. Min(start + col, |lines|)];
    assert forall k :: start <= k < Min(start + col, |lines|) ==> present[k - start] == lines[k];
    var values :- Collect(present, map[], line => GlpkColumn(line, parse));
    if col == 0 || start + col <= |lines| then Ok(values) else Err(MissingColumns)
  }

  /** `read_specific_solution`: sizes, status, then the column values. */
  function ReadGlpk(lines: seq<string>, parse: string -> Option<real>): (r: Result<(Status, map<string, real>)>)
    ensures ReadSize(LineAt(lines, 1)).Ok? && ReadSize(LineAt(lines, 2)).Ok? && |lines| > 4 && |lines[4]| < 12 ==>
      r.Panic?
    ensures r.Ok? <==>
      ReadSize(LineAt(lines, 1)).Ok? && ReadSize(LineAt(lines, 2)).Ok? && |lines| > 4 && |lines[4]| >= 12
      && GlpkStatus(lines[4][12..]).Ok?
      && Columns(lines, 12 + ReadSize(LineAt(lines, 1)).value, ReadSize(LineAt(lines, 2)).value, parse).Ok?
    ensures r.Ok? ==>
      r.value.0 == GlpkStatus(lines[4][12..]).value
      && r.value.1 == Columns(lines, 12 + ReadSize(LineAt(lines, 1)).value, ReadSize(LineAt(lines, 2)).value, parse).value
  {
    var row :- ReadSize(LineAt(lines, 1));
    var col :- ReadSize(LineAt(lines, 2));
    if |lines| <= 4 then Err(NoStatus)
    else if |lines[4]| < 12 then Panic(ShortStatusLine)
    else
      var status :- GlpkStatus(lines[4][12..]);
      var values :- Columns(lines, 12 + row, col, parse);
      Ok((status, values))
  }

  /** What is read: exactly the names on the `col` lines of the column
      table, each with the value of the last line giving it. */
  lemma ReadGlpkValues(lines: seq<string>, parse: string -> Option<real>, name: string)
    requires ReadGlpk(lines, parse).Ok?
    ensures var start := 12 + ReadSize(LineAt(lines, 1)).value;
            var col := ReadSize(LineAt(lines, 2)).value;
            (col == 0 || start + col <= |lines|)
            && (name in ReadGlpk(lines, parse).value.1
                <==> col > 0 && Named(lines[start .. start + col], line => GlpkColumn(line, parse), name))
  {
    var start := 12 + ReadSize(LineAt(lines, 1)).value;
    var col := ReadSize(LineAt(lines, 2)).value;
    var columns := Columns(lines, start, col, parse);
    assert columns.Ok? && ReadGlpk(lines, parse).value.1 == columns.value;
    if col > 0 {
      CollectKeys(lines[start .. start + col], map[], line => GlpkColumn(line, parse), name);
    }
  }

  /** A report whose column table is the right size and well formed is read
      whatever lies between the status line and the table. */
  lemma ReadGlpkOk(lines: seq<string>, parse: string -> Option<real>, row: nat, col: nat)
    requires |lines| >= 12 + row + col
    requires ReadSize(Some(lines[1])) == Ok(row) && ReadSize(Some(lines[2])) == Ok(col)
    requires |lines[4]| >= 12 && GlpkStatus(lines[4][12..]).Ok?
    requires forall k :: 12 + row <= k < 12 + row + col ==> GlpkColumn(lines[k], parse).Ok?
    ensures ReadGlpk(lines, parse).Ok?
    ensures ReadGlpk(lines, parse).value.0 == GlpkStatus(lines[4][12..]).value
  {
  }

  /** A report with no columns reads as its status and no values, however
      few lines follow the status line. */
  lemma ReadGlpkNoColumns(lines: seq<string>, parse: string -> Option<real>, row: nat)
    requires |lines| > 4
    requires ReadSize(Some(lines[1])) == Ok(row) && ReadSize(Some(lines[2])) == Ok(0)
    requires |lines[4]| >= 12 && GlpkStatus(lines[4][12..]).Ok?
    ensures ReadGlpk(lines, parse) == Ok((GlpkStatus(lines[4][12..]).value, map[]))
  {
  }
}
