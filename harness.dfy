/** The test harness of `aoc/solver.cpp`: it finds the dataset of a puzzle
    day, runs a solver over every problem in it, and writes a report. The
    file system is a map from directory paths to their listings, and the
    report is the text written to standard output together with one outcome
    record per problem. */
module Harness {
  import opened Wrappers
  import Text
  import opened SolverContract

  // ----- The comparator -----

  /** The text up to, not including, the first '\n'. */
  function FirstLine(s: string): (line: string)
    ensures |line| <= |s| && line == s[..|line|]
    ensures '\n' !in line
    ensures |line| < |s| ==> s[|line|] == '\n'
  {
    s[..Text.IndexOf(s, '\n')]
  }

  /** Whether a comparison passed, and the diagnostic it wrote. */
  datatype Comparison = Comparison(passed: bool, diagnostic: string)

  /** `equal(is, str, os)`: the expected text is read up to its first '\n',
      the produced text is cut at its first '\n', and the two must be
      identical; on a mismatch both are quoted in the diagnostic. */
  function Equal(expected: string, actual: string): (r: Comparison)
    ensures r.passed <==> FirstLine(expected) == FirstLine(actual)
    ensures r.passed <==> r.diagnostic == []
  {
    var groundTruth := FirstLine(expected);
    var produced := FirstLine(actual);
    if groundTruth != produced then
      Comparison(false, "Expected '" + groundTruth + "' but found '" + produced + "'")
    else
      Comparison(true, [])
  }

  /** On single lines the comparison is plain equality: nothing is trimmed. */
  lemma EqualSingleLines(expected: string, actual: string)
    requires '\n' !in expected && '\n' !in actual
    ensures Equal(expected, actual).passed <==> expected == actual
  {
    assert FirstLine(expected) == expected;
    assert FirstLine(actual) == actual;
  }

  /** Whatever follows the first line of either text is never looked at. */
  lemma EqualIgnoresLaterLines(e: string, a: string, e': string, a': string)
    requires '\n' !in e && '\n' !in a
    ensures Equal(e + "\n" + e', a + "\n" + a') == Equal(e, a)
  {
    FirstLineOf(e, e');
    FirstLineOf(a, a');
    EqualSingleLines(e, a);
  }

  lemma FirstLineOf(line: string, rest: string)
    requires '\n' !in line
    ensures FirstLine(line + "\n" + rest) == line && FirstLine(line) == line
  {
    var s := line + "\n" + rest;
    var k := Text.IndexOf(s, '\n');
    assert s[|line|] == '\n';
    assert forall j :: 0 <= j < |line| ==> s[j] == line[j];
    assert s[..|line|] == line;
  }

  /** A mismatch diagnostic names both first lines. */
  lemma EqualDiagnostic(expected: string, actual: string)
    requires !Equal(expected, actual).passed
    ensures Equal(expected, actual).diagnostic ==
            "Expected '" + FirstLine(expected) + "' but found '" + FirstLine(actual) + "'"
  {
  }

  // ----- Dataset discovery -----

  /** `std::filesystem::path::operator/=` for a relative right-hand side:
      a separator is inserted unless the left side is empty or already ends
      with one. */
  function JoinPath(dir: string, name: string): (p: string)
    ensures |p| >= |dir| + |name| && p[|p| - |name|..] == name && p[..|dir|] == dir
  {
    if dir == [] || dir[|dir| - 1] == '/' then dir + name else dir + "/" + name
  }

  /** The day written with `std::setw(2)` and `std::setfill('0')`. */
  function Pad2(day: nat): (s: string)
    ensures |s| >= 2
  {
    var digits := Text.NatToString(day);
    if |digits| < 2 then "0" + digits else digits
  }

  /** The two-digit day reads back as the day. */
  lemma Pad2ReadsBack(day: nat)
    ensures Text.AllDigits(Pad2(day)) && Text.DigitsValue(Pad2(day)) == day
  {
    Text.NatToStringDigits(day);
    var digits := Text.NatToString(day);
    if |digits| < 2 {
      LeadingZero(digits);
    }
  }

  lemma LeadingZero(digits: string)
    requires Text.AllDigits(digits)
    ensures Text.AllDigits("0" + digits)
    ensures Text.DigitsValue("0" + digits) == Text.DigitsValue(digits)
    decreases |digits|
  {
    if digits != [] {
      var s := "0" + digits;
      assert s[..|s| - 1] == "0" + digits[..|digits| - 1];
      LeadingZero(digits[..|digits| - 1]);
    } else {
      assert ("0" + digits)[..0] == [];
    }
  }

  /** `root / "aoc" + to_string(year) / "d" + <day in two digits>`. */
  function DatasetDir(root: string, year: nat, day: nat): string {
    JoinPath(JoinPath(root, "aoc") + Text.NatToString(year), "d") + Pad2(day)
  }

  /** A directory entry, by its stem and extension as
      `std::filesystem::path::stem` and `extension` split its name. */
  datatype Entry = Entry(stem: string, ext: string, regular: bool, contents: string)

  /** An opened file (`annotated_fstream`): its name and what it holds. */
  datatype File = File(stem: string, ext: string, contents: string)

  /** `problem`: an input file and the expected answers that exist for it. */
  datatype Problem = Problem(input: File, compareA: Option<File>, compareB: Option<File>)

  /** Directory paths that exist, each with its entries in iteration order. */
  type FileSystem = map<string, seq<Entry>>

  function ToFile(e: Entry): File {
    File(e.stem, e.ext, e.contents)
  }

  predicate IsInput(e: Entry) {
    e.regular && e.ext == ".in"
  }

  function InputStems(entries: seq<Entry>): set<string> {
    set e | e in entries && IsInput(e) :: e.stem
  }

  /** The last regular entry with this stem and extension: later entries
      overwrite earlier ones in the map. */
  function LastEntry(entries: seq<Entry>, stem: string, ext: string): (r: Option<Entry>)
    ensures r.Some? ==> r.value in entries && r.value.regular && r.value.stem == stem && r.value.ext == ext
    ensures r.None? ==> forall e :: e in entries && e.regular && e.stem == stem ==> e.ext != ext
  {
    if entries == [] then None
    else
      var e := entries[|entries| - 1];
      if e.regular && e.stem == stem && e.ext == ext then Some(e)
      else LastEntry(entries[..|entries| - 1], stem, ext)
  }

  function OptFile(e: Option<Entry>): Option<File> {
    match e
    case Some(x) => Some(ToFile(x))
    case None => None
  }

  /** The problem a listing yields for a stem, if it has an input file. */
  function ProblemFor(entries: seq<Entry>, stem: string): Option<Problem> {
    match LastEntry(entries, stem, ".in")
    case None => None
    case Some(input) =>
      Some(Problem(ToFile(input), OptFile(LastEntry(entries, stem, ".outA")),
                   OptFile(LastEntry(entries, stem, ".outB"))))
  }

  /** `std::string`'s `<`: lexicographic by character code. */
  predicate LexLess(a: string, b: string)
    decreases |a|
  {
    if b == [] then false
    else if a == [] then true
    else if a[0] != b[0] then a[0] < b[0]
    else LexLess(a[1..], b[1..])
  }

  lemma {:induction false} LexLessIrreflexive(a: string)
    ensures !LexLess(a, a)
  {
    if a != [] {
      LexLessIrreflexive(a[1..]);
    }
  }

  lemma {:induction false} LexLessTransitive(a: string, b: string, c: string)
    requires LexLess(a, b) && LexLess(b, c)
    ensures LexLess(a, c)
    decreases |a|
  {
    if a != [] && a[0] == b[0] && b[0] == c[0] {
      LexLessTransitive(a[1..], b[1..], c[1..]);
    }
  }

  lemma {:induction false} LexLessTotal(a: string, b: string)
    requires a != b
    ensures LexLess(a, b) || LexLess(b, a)
    decreases |a|
  {
    if a != [] && b != [] && a[0] == b[0] {
      assert a == [a[0]] + a[1..] && b == [b[0]] + b[1..];
      LexLessTotal(a[1..], b[1..]);
    }
  }

  /** `k` is the key of `keys` that a `std::map` visits first. */
  predicate IsLeast(k: string, keys: set<string>) {
    k in keys && forall s :: s in keys ==> s == k || LexLess(k, s)
  }

  /** Some key of a non-empty set is below all the others. */
  lemma {:induction false} LeastExists(keys: set<string>)
    requires keys != {}
    ensures exists k :: IsLeast(k, keys)
    decreases |keys|
  {
    var x :| x in keys;
    if keys == {x} {
      assert IsLeast(x, keys);
    } else {
      var rest := keys - {x};
      LeastExists(rest);
      var m :| IsLeast(m, rest);
      if LexLess(x, m) {
        LeastBelow(x, m, rest);
        assert IsLeast(x, keys);
      } else {
        LexLessTotal(x, m);
        assert IsLeast(m, keys);
      }
    }
  }

  /** A key below the least of a set is below all of it. */
  lemma LeastBelow(x: string, m: string, rest: set<string>)
    requires IsLeast(m, rest) && LexLess(x, m)
    ensures forall s :: s in rest ==> LexLess(x, s)
  {
    forall s | s in rest ensures LexLess(x, s) {
      if s != m { LexLessTransitive(x, m, s); }
    }
  }

  /** A dataset the listing determines: one problem per stem with an input
      file, in ascending stem order, each with the files of its stem. */
  predicate IsDataset(ds: seq<Problem>, entries: seq<Entry>) {
    && (forall i, j :: 0 <= i < j < |ds| ==> LexLess(ds[i].input.stem, ds[j].input.stem))
    && (forall i :: 0 <= i < |ds| ==> ProblemFor(entries, ds[i].input.stem) == Some(ds[i]))
    && (forall s :: s in InputStems(entries) ==> exists i :: 0 <= i < |ds| && ds[i].input.stem == s)
  }

  /** The problem as it stands after the first directory loop: the input
      file alone. */
  function InputOnly(entries: seq<Entry>, stem: string): Option<Problem> {
    match LastEntry(entries, stem, ".in")
    case None => None
    case Some(input) => Some(Problem(ToFile(input), None, None))
  }

  /** The first directory loop of `parse_args`: every regular ".in" file
      becomes a problem under its stem. */
  method CollectInputs(entries: seq<Entry>) returns (problems: map<string, Problem>)
    ensures problems.Keys == InputStems(entries)
    ensures forall s :: s in problems ==> InputOnly(entries, s) == Some(problems[s])
  {
    problems := map[];
    for i := 0 to |entries|
      invariant problems.Keys == InputStems(entries[..i])
      invariant forall s :: s in problems ==> InputOnly(entries[..i], s) == Some(problems[s])
    {
      var e := entries[i];
      assert entries[..i + 1] == entries[..i] + [e];
      assert entries[..i + 1][..i] == entries[..i];
      if e.regular && e.ext == ".in" {
        problems := problems[e.stem := Problem(ToFile(e), None, None)];
      }
    }
    assert entries[..|entries|] == entries;
  }

  /** The second directory loop of `parse_args`: regular ".outA" and ".outB"
      files attach to the problem of their stem; the others are skipped. */
  method AttachExpected(entries: seq<Entry>, inputs: map<string, Problem>)
    returns (problems: map<string, Problem>)
    requires forall s :: s in inputs ==> inputs[s].compareA.None? && inputs[s].compareB.None?
    ensures problems.Keys == inputs.Keys
    ensures forall s :: s in problems ==>
              problems[s] == inputs[s].(compareA := OptFile(LastEntry(entries, s, ".outA")),
                                        compareB := OptFile(LastEntry(entries, s, ".outB")))
  {
    problems := inputs;
    assert entries[..0] == [];
    for i := 0 to |entries|
      invariant Attached(problems, inputs, entries[..i])
    {
      problems := AttachOne(entries, i, inputs, problems);
    }
    assert entries[..|entries|] == entries;
    forall s | s in problems
      ensures problems[s] == inputs[s].(compareA := OptFile(LastEntry(entries, s, ".outA")),
                                        compareB := OptFile(LastEntry(entries, s, ".outB")))
    {
      assert problems[s] == WithExpected(inputs[s], entries, s);
    }
  }

  /** The problem `p` of stem `s` with the expected files of a listing. */
  function WithExpected(p: Problem, entries: seq<Entry>, s: string): Problem {
    p.(compareA := OptFile(LastEntry(entries, s, ".outA")),
       compareB := OptFile(LastEntry(entries, s, ".outB")))
  }

  /** The loop invariant of `AttachExpected` after the listing's prefix `seen`. */
  predicate Attached(problems: map<string, Problem>, inputs: map<string, Problem>, seen: seq<Entry>) {
    problems.Keys == inputs.Keys &&
    forall s :: s in problems ==> problems[s] == WithExpected(inputs[s], seen, s)
  }

  /** One iteration of the second directory loop. */
  method AttachOne(entries: seq<Entry>, i: nat, inputs: map<string, Problem>, problems: map<string, Problem>)
    returns (next: map<string, Problem>)
    requires i < |entries| && Attached(problems, inputs, entries[..i])
    ensures Attached(next, inputs, entries[..i + 1])
  {
    var e := entries[i];
    next := problems;
    if e.regular {
      if e.ext == ".outA" || e.ext == ".outB" {
        if e.stem in next {
          if e.ext == ".outA" {
            next := next[e.stem := next[e.stem].(compareA := Some(ToFile(e)))];
          } else {
            next := next[e.stem := next[e.stem].(compareB := Some(ToFile(e)))];
          }
        }
      }
    }
    forall s | s in next
      ensures next[s] == WithExpected(inputs[s], entries[..i + 1], s)
    {
      LastEntryStep(entries, i, s, ".outA");
      LastEntryStep(entries, i, s, ".outB");
    }
  }

  /** The last matching entry of a listing one entry longer. */
  lemma LastEntryStep(entries: seq<Entry>, i: nat, stem: string, ext: string)
    requires i < |entries|
    ensures LastEntry(entries[..i + 1], stem, ext) ==
              if entries[i].regular && entries[i].stem == stem && entries[i].ext == ext then Some(entries[i])
              else LastEntry(entries[..i], stem, ext)
  {
    assert entries[..i + 1][..i] == entries[..i];
  }

  /** Moving the problems out of the map visits them in ascending key order. */
  method Drain(problems: map<string, Problem>) returns (dataset: seq<Problem>, ghost keys: seq<string>)
    ensures |dataset| == |keys|
    ensures forall j :: 0 <= j < |keys| ==> keys[j] in problems && dataset[j] == problems[keys[j]]
    ensures forall s :: s in problems ==> s in keys
    ensures forall i, j :: 0 <= i < j < |keys| ==> LexLess(keys[i], keys[j])
  {
    var remaining := problems.Keys;
    dataset, keys := [], [];
    while remaining != {}
      invariant remaining <= problems.Keys && |dataset| == |keys|
      invariant forall j :: 0 <= j < |keys| ==>
                  keys[j] in problems && keys[j] !in remaining && dataset[j] == problems[keys[j]]
      invariant forall s :: s in problems ==> s in remaining || s in keys
      invariant forall i, j :: 0 <= i < j < |keys| ==> LexLess(keys[i], keys[j])
      invariant forall j, s :: 0 <= j < |keys| && s in remaining ==> LexLess(keys[j], s)
      decreases |remaining|
    {
      LeastExists(remaining);
      var k :| IsLeast(k, remaining);
      dataset := dataset + [problems[k]];
      keys := keys + [k];
      remaining := remaining - {k};
    }
  }

  lemma DrainedIsDataset(entries: seq<Entry>, inputs: map<string, Problem>, problems: map<string, Problem>,
                         dataset: seq<Problem>, keys: seq<string>)
    requires inputs.Keys == InputStems(entries)
    requires forall s :: s in inputs ==> InputOnly(entries, s) == Some(inputs[s])
    requires problems.Keys == inputs.Keys
    requires forall s :: s in problems ==>
               problems[s] == inputs[s].(compareA := OptFile(LastEntry(entries, s, ".outA")),
                                         compareB := OptFile(LastEntry(entries, s, ".outB")))
    requires |dataset| == |keys|
    requires forall j :: 0 <= j < |keys| ==> keys[j] in problems && dataset[j] == problems[keys[j]]
    requires forall s :: s in problems ==> s in keys
    requires forall i, j :: 0 <= i < j < |keys| ==> LexLess(keys[i], keys[j])
    ensures IsDataset(dataset, entries)
  {
    forall s | s in problems ensures ProblemFor(entries, s) == Some(problems[s]) {
      assert InputOnly(entries, s) == Some(inputs[s]);
    }
    forall i | 0 <= i < |dataset| ensures dataset[i].input.stem == keys[i] {
      assert InputOnly(entries, keys[i]) == Some(inputs[keys[i]]);
    }
    forall s | s in InputStems(entries)
      ensures exists i :: 0 <= i < |dataset| && dataset[i].input.stem == s
    {
      var i :| 0 <= i < |keys| && keys[i] == s;
      assert dataset[i].input.stem == s;
    }
  }

  /** `parse_args`: exactly two arguments, an existing day directory, and at
      least one input file in it; the problems come out in stem order. */
  method ParseArgs(args: seq<string>, fs: FileSystem, year: nat, day: nat)
    returns (r: Result<seq<Problem>>)
    ensures |args| != 2 ==> r == Err(ParseError(""))
    ensures |args| == 2 && DatasetDir(args[1], year, day) !in fs ==> r == Err(ParseError(""))
    ensures |args| == 2 && DatasetDir(args[1], year, day) in fs ==>
              (r.Err? <==> InputStems(fs[DatasetDir(args[1], year, day)]) == {})
    ensures r.Ok? ==> |args| == 2 && DatasetDir(args[1], year, day) in fs &&
                      IsDataset(r.value, fs[DatasetDir(args[1], year, day)])
  {
    if |args| != 2 {
      return Err(ParseError(""));
    }
    var dir := DatasetDir(args[1], year, day);
    if dir !in fs {
      return Err(ParseError(""));
    }
    var entries := fs[dir];
    var inputs := CollectInputs(entries);
    var problems := AttachExpected(entries, inputs);
    if problems == map[] {
      assert problems.Keys == {};
      return Err(ParseError(""));
    }
    var dataset, keys := Drain(problems);
    DrainedIsDataset(entries, inputs, problems, dataset, keys);
    return Ok(dataset);
  }

  // ----- Running the problems -----

  /** The inside of `std::quoted(name)`: '"' and '\\' are escaped with '\\'. */
  function QuoteBody(s: string): string
  {
    if s == [] then []
    else (if s[0] == '"' || s[0] == '\\' then ['\\', s[0]] else [s[0]]) + QuoteBody(s[1..])
  }

  /** `operator<<` on a `std::filesystem::path`: the name in double quotes. */
  function Quoted(s: string): string {
    "\"" + QuoteBody(s) + "\""
  }

  /** What reading the body back with `std::quoted` gives: each '\\' makes
      the next character literal. */
  function Unquote(body: string): string
  {
    if body == [] then []
    else if body[0] == '\\' && |body| >= 2 then [body[1]] + Unquote(body[2..])
    else [body[0]] + Unquote(body[1..])
  }

  /** Quoting loses nothing: the name can be read back. */
  lemma {:induction false} UnquoteQuoteBody(s: string)
    ensures Unquote(QuoteBody(s)) == s
  {
    if s != [] {
      UnquoteQuoteBody(s[1..]);
      var head := if s[0] == '"' || s[0] == '\\' then ['\\', s[0]] else [s[0]];
      var b := head + QuoteBody(s[1..]);
      if |head| == 2 {
        assert b[2..] == QuoteBody(s[1..]);
      } else {
        assert b[1..] == QuoteBody(s[1..]);
      }
    }
  }

  /** How one part of a problem ended. `Errored` is the `catch` branch,
      which a `noexcept` `solveA`/`solveB` never reaches. */
  datatype PartOutcome = Printed(text: string) | Passed | Failed(diagnostic: string) | Errored

  datatype Status = ParseFailed | Ran(partA: PartOutcome, partB: PartOutcome)

  datatype ProblemReport = ProblemReport(input: File, status: Status)

  /** One part: compared against its expected file when there is one,
      written out raw otherwise. */
  function Part(compare: Option<File>, produced: string): PartOutcome {
    match compare
    case None => Printed(produced)
    case Some(expected) =>
      var c := Equal(expected.contents, produced);
      if c.passed then Passed else Failed(c.diagnostic)
  }

  /** The outcome of one problem: a parse error skips both parts; otherwise
      each part is decided on its own, with part B run whatever part A did. */
  function Report<I>(s: Solver<I>, p: Problem): (r: ProblemReport)
    ensures r.input == p.input
    ensures r.status.ParseFailed? <==> Parse(s, p.input.contents).Err?
  {
    match Parse(s, p.input.contents)
    case Err(_) => ProblemReport(p.input, ParseFailed)
    case Ok(v) => ProblemReport(p.input, Ran(Part(p.compareA, SolveA(s, v)), Part(p.compareB, SolveB(s, v))))
  }

  function PartText(o: PartOutcome): string {
    match o
    case Printed(t) => t
    case Passed => "[PASSED]"
    case Failed(_) => "[FAILED]"
    case Errored => "[ERROR]"
  }

  predicate IsError(o: PartOutcome) {
    o.Failed? || o.Errored?
  }

  /** What a part adds to the `errors` buffer. */
  function PartErrors(name: string, o: PartOutcome): string {
    match o
    case Failed(d) => "FAILED while solving " + name + ": " + d + "\n"
    case Errored => "ERROR while solving " + name + ":\n" + "an exception has occurred\n"
    case _ => ""
  }

  /** The diagnostics block, written only when some part failed. */
  function ErrorBlock(a: PartOutcome, b: PartOutcome): string {
    if IsError(a) || IsError(b) then PartErrors("partA", a) + PartErrors("partB", b) + "\n" else ""
  }

  /** The lines `solve` writes for one problem (column padding and timings aside). */
  function Render(r: ProblemReport): (text: string)
    ensures Quoted(r.input.stem + r.input.ext) <= text
    ensures |text| > 0 && text[|text| - 1] == '\n'
  {
    match r.status
    case ParseFailed => Quoted(r.input.stem + r.input.ext) + "ERROR - could not parse input\n"
    case Ran(a, b) =>
      Quoted(r.input.stem + r.input.ext) + "parse: " + "    partA: " + PartText(a) + "    " + "partB: "
      + PartText(b) + "\n" + ErrorBlock(a, b)
  }

  function RenderAll(rs: seq<ProblemReport>): string {
    if rs == [] then [] else RenderAll(rs[..|rs| - 1]) + Render(rs[|rs| - 1])
  }

  function CountRan(rs: seq<ProblemReport>): nat {
    if rs == [] then 0 else CountRan(rs[..|rs| - 1]) + (if rs[|rs| - 1].status.Ran? then 1 else 0)
  }

  lemma AppendReport(rs: seq<ProblemReport>, r: ProblemReport)
    ensures RenderAll(rs + [r]) == RenderAll(rs) + Render(r)
    ensures CountRan(rs + [r]) == CountRan(rs) + (if r.status.Ran? then 1 else 0)
  {
    assert (rs + [r])[..|rs|] == rs;
  }

  /** One `try` block of `solve`: the part's output goes to a buffer that is
      compared when an expected file exists, and straight to the report
      otherwise. Returns what is shown in the summary line and what is added
      to the `errors` buffer. */
  method SolvePart(name: string, compare: Option<File>, produced: string)
    returns (shown: string, outcome: PartOutcome, errors: string)
    ensures outcome == Part(compare, produced)
    ensures shown == PartText(outcome) && errors == PartErrors(name, outcome)
  {
    errors := "";
    if compare.Some? {
      var buffer := produced;
      var c := Equal(compare.value.contents, buffer);
      if c.passed {
        shown := "[PASSED]";
        outcome := Passed;
      } else {
        shown := "[FAILED]";
        errors := errors + "FAILED while solving " + name + ": " + c.diagnostic + "\n";
        outcome := Failed(c.diagnostic);
      }
    } else {
      shown := produced;
      outcome := Printed(produced);
    }
  }

  /** One iteration of `solve`'s loop. `parsed` and `cleaned` count the
      successful parses and the `cleanup` calls the owning pointer makes. */
  method SolveProblem<I>(s: Solver<I>, problem: Problem)
    returns (text: string, report: ProblemReport, ghost parsed: nat, ghost cleaned: nat)
    ensures report == Report(s, problem)
    ensures text == Render(report)
    ensures parsed == cleaned == (if report.status.Ran? then 1 else 0)
  {
    parsed, cleaned := 0, 0;
    text := Quoted(problem.input.stem + problem.input.ext);
    var input: Option<I> := None;
    var result := Parse(s, problem.input.contents);
    if result.Err? {
      text := text + "ERROR - could not parse input\n";
      report := ProblemReport(problem.input, ParseFailed);
      return;
    }
    input := Some(result.value);
    parsed := parsed + 1;
    text := text + "parse: ";
    var errorsHappened := false;
    text := text + "    partA: ";
    var shownA, a, errorsA := SolvePart("partA", problem.compareA, SolveA(s, input.value));
    text := text + shownA;
    errorsHappened := errorsHappened || IsError(a);
    text := text + "    ";
    text := text + "partB: ";
    var shownB, b, errorsB := SolvePart("partB", problem.compareB, SolveB(s, input.value));
    text := text + shownB;
    errorsHappened := errorsHappened || IsError(b);
    text := text + "\n";
    if errorsHappened {
      text := text + (errorsA + errorsB + "\n");
    } else {
      text := text + "";
    }
    report := ProblemReport(problem.input, Ran(a, b));
    // The owning pointer goes out of scope and hands the input to `cleanup`.
    if input.Some? {
      cleaned := cleaned + 1;
      input := None;
    }
  }

  /** The state of `solve` after the first `n` problems. */
  ghost predicate SolvedSoFar<I>(s: Solver<I>, dataset: seq<Problem>, n: nat, out: string,
                                 reports: seq<ProblemReport>, parses: nat, cleanups: nat) {
    && n <= |dataset| && |reports| == n
    && (forall j :: 0 <= j < n ==> reports[j] == Report(s, dataset[j]))
    && out == RenderAll(reports)
    && parses == cleanups == CountRan(reports)
  }

  lemma SolvedStep<I>(s: Solver<I>, dataset: seq<Problem>, n: nat, out: string, reports: seq<ProblemReport>,
                      parses: nat, cleanups: nat, text: string, report: ProblemReport, parsed: nat, cleaned: nat)
    requires SolvedSoFar(s, dataset, n, out, reports, parses, cleanups) && n < |dataset|
    requires report == Report(s, dataset[n]) && text == Render(report)
    requires parsed == cleaned == (if report.status.Ran? then 1 else 0)
    ensures SolvedSoFar(s, dataset, n + 1, out + text, reports + [report], parses + parsed, cleanups + cleaned)
  {
    AppendReport(reports, report);
    assert out + text == RenderAll(reports + [report]);
    var after := reports + [report];
    forall j | 0 <= j < n + 1 ensures after[j] == Report(s, dataset[j]) {
      if j < n { assert after[j] == reports[j]; } else { assert after[j] == report; }
    }
  }

  /** `solve(cfg, solver)`: every problem in dataset order, and exit code 0.
      Cleanup runs exactly once for each problem whose parse succeeded. */
  method Solve<I>(s: Solver<I>, dataset: seq<Problem>)
    returns (code: int, out: string, reports: seq<ProblemReport>, ghost parses: nat, ghost cleanups: nat)
    ensures code == 0
    ensures |reports| == |dataset|
    ensures forall i :: 0 <= i < |dataset| ==> reports[i] == Report(s, dataset[i])
    ensures out == RenderAll(reports)
    ensures parses == cleanups == CountRan(reports)
  {
    out, reports, parses, cleanups := [], [], 0, 0;
    for i := 0 to |dataset|
      invariant SolvedSoFar(s, dataset, i, out, reports, parses, cleanups)
    {
      var text, report, parsed, cleaned := SolveProblem(s, dataset[i]);
      SolvedStep(s, dataset, i, out, reports, parses, cleanups, text, report, parsed, cleaned);
      reports := reports + [report];
      out := out + text;
      parses, cleanups := parses + parsed, cleanups + cleaned;
    }
    code := 0;
  }

  /** Configuration fails on a wrong argument count, a missing day
      directory, or a day directory with no input file. */
  predicate ConfigFails(args: seq<string>, fs: FileSystem, year: nat, day: nat) {
    |args| != 2 || DatasetDir(args[1], year, day) !in fs || InputStems(fs[DatasetDir(args[1], year, day)]) == {}
  }

  /** `aoc::solve(argc, argv, solver)`: a configuration error prints to the
      error stream and exits with 255; otherwise every problem is run in
      stem order and the exit code is 0. */
  method Run<I>(args: seq<string>, fs: FileSystem, s: Solver<I>)
    returns (code: int, out: string, err: string, reports: seq<ProblemReport>)
    ensures code == 0 || code == 255
    ensures code == 255 <==> ConfigFails(args, fs, s.year, s.day)
    ensures code == 255 ==> out == [] && err == "an exception has occurred\n" && reports == []
    ensures code == 0 ==> err == [] && out == RenderAll(reports)
    ensures code == 0 ==> exists ds :: IsDataset(ds, fs[DatasetDir(args[1], s.year, s.day)]) &&
                            |reports| == |ds| && forall i :: 0 <= i < |ds| ==> reports[i] == Report(s, ds[i])
    ensures forall i, j :: 0 <= i < j < |reports| ==> LexLess(reports[i].input.stem, reports[j].input.stem)
  {
    var config := ParseArgs(args, fs, s.year, s.day);
    if config.Err? {
      return 255, [], "an exception has occurred\n", [];
    }
    ghost var parses, cleanups;
    code, out, reports, parses, cleanups := Solve(s, config.value);
    err := [];
    ReportsInOrder(s, config.value, reports);
  }

  lemma ReportsInOrder<I>(s: Solver<I>, ds: seq<Problem>, reports: seq<ProblemReport>)
    requires forall i, j :: 0 <= i < j < |ds| ==> LexLess(ds[i].input.stem, ds[j].input.stem)
    requires |reports| == |ds| && forall i :: 0 <= i < |ds| ==> reports[i] == Report(s, ds[i])
    ensures forall i, j :: 0 <= i < j < |reports| ==> LexLess(reports[i].input.stem, reports[j].input.stem)
  {
    assert forall i :: 0 <= i < |ds| ==> reports[i].input == ds[i].input;
  }

  /** `solveA`/`solveB` are `noexcept`, so no part ever ends in `[ERROR]`. */
  lemma NeverErrored<I>(s: Solver<I>, p: Problem)
    ensures Report(s, p).status.Ran? ==> !Report(s, p).status.partA.Errored? && !Report(s, p).status.partB.Errored?
  {
  }

  /** A parse failure skips both parts; a successful parse runs both. */
  lemma ParseDecidesRun<I>(s: Solver<I>, p: Problem)
    ensures Report(s, p).status.ParseFailed? <==> Parse(s, p.input.contents).Err?
    ensures Report(s, p).status.ParseFailed? ==>
              Render(Report(s, p)) == Quoted(p.input.stem + p.input.ext) + "ERROR - could not parse input\n"
  {
  }

  /** Each part is compared exactly when its own expected file exists, passes
      exactly when the first lines agree, and is decided independently of the
      other part. */
  lemma PartModes<I>(s: Solver<I>, p: Problem, q: Problem)
    requires Report(s, p).status.Ran?
    ensures Report(s, p).status.partA.Printed? <==> p.compareA.None?
    ensures Report(s, p).status.partB.Printed? <==> p.compareB.None?
    ensures p.compareA.Some? ==>
              (Report(s, p).status.partA.Passed? <==>
               FirstLine(p.compareA.value.contents) == FirstLine(SolveA(s, Parse(s, p.input.contents).value)))
    ensures p.compareB.Some? ==>
              (Report(s, p).status.partB.Passed? <==>
               FirstLine(p.compareB.value.contents) == FirstLine(SolveB(s, Parse(s, p.input.contents).value)))
    ensures q.input.contents == p.input.contents && q.compareA == p.compareA ==>
              Report(s, q).status.Ran? && Report(s, q).status.partA == Report(s, p).status.partA
    ensures q.input.contents == p.input.contents && q.compareB == p.compareB ==>
              Report(s, q).status.Ran? && Report(s, q).status.partB == Report(s, p).status.partB
  {
  }

  /** The diagnostics block follows the summary line exactly when a part
      failed. */
  lemma DiagnosticsOnlyOnFailure(a: PartOutcome, b: PartOutcome)
    ensures ErrorBlock(a, b) != [] <==> IsError(a) || IsError(b)
  {
  }

  /** A listing determines its dataset: two datasets of one listing agree. */
  lemma DatasetUnique(ds1: seq<Problem>, ds2: seq<Problem>, entries: seq<Entry>)
    requires IsDataset(ds1, entries) && IsDataset(ds2, entries)
    ensures ds1 == ds2
  {
    var k1, k2 := StemsOf(ds1), StemsOf(ds2);
    DatasetStems(ds1, entries);
    DatasetStems(ds2, entries);
    AscendingUnique(k1, k2);
    forall i | 0 <= i < |ds1| ensures ds1[i] == ds2[i] {
      assert k1[i] == k2[i];
    }
  }

  /** The input stems of a dataset, in its order. */
  function StemsOf(ds: seq<Problem>): (k: seq<string>)
    ensures |k| == |ds| && forall i :: 0 <= i < |ds| ==> k[i] == ds[i].input.stem
  {
    seq(|ds|, i requires 0 <= i < |ds| => ds[i].input.stem)
  }

  /** A dataset's stems ascend and are exactly the listing's input stems. */
  lemma DatasetStems(ds: seq<Problem>, entries: seq<Entry>)
    requires IsDataset(ds, entries)
    ensures forall i, j :: 0 <= i < j < |ds| ==> LexLess(StemsOf(ds)[i], StemsOf(ds)[j])
    ensures forall x :: x in StemsOf(ds) <==> x in InputStems(entries)
  {
    var k := StemsOf(ds);
    forall x | x in k ensures x in InputStems(entries) {
      var i :| 0 <= i < |k| && k[i] == x;
      StemOfDataset(ds, entries, i);
    }
    forall x | x in InputStems(entries) ensures x in k {
      var i :| 0 <= i < |ds| && ds[i].input.stem == x;
      assert k[i] == x;
    }
  }

  lemma StemOfDataset(ds: seq<Problem>, entries: seq<Entry>, i: nat)
    requires IsDataset(ds, entries) && i < |ds|
    ensures ds[i].input.stem in InputStems(entries)
  {
    var e := LastEntry(entries, ds[i].input.stem, ".in").value;
    assert IsInput(e) && e.stem == ds[i].input.stem;
  }

  /** Two strictly ascending sequences with the same elements are equal. */
  lemma {:induction false} AscendingUnique(a: seq<string>, b: seq<string>)
    requires forall i, j :: 0 <= i < j < |a| ==> LexLess(a[i], a[j])
    requires forall i, j :: 0 <= i < j < |b| ==> LexLess(b[i], b[j])
    requires forall x :: x in a <==> x in b
    ensures a == b
    decreases |a|
  {
    SameElementsEmpty(a, b);
    if a != [] {
      if a[0] != b[0] {
        assert a[0] in b;
        var j :| 0 <= j < |b| && b[j] == a[0];
        assert b[0] in a;
        var i :| 0 <= i < |a| && a[i] == b[0];
        assert LexLess(b[0], a[0]);
        assert LexLess(a[0], b[0]);
        LexLessTransitive(a[0], b[0], a[0]);
        LexLessIrreflexive(a[0]);
      } else {
        forall x ensures x in a[1..] <==> x in b[1..] {
          if x in a[1..] {
            var i :| 1 <= i < |a| && a[i] == x;
            assert LexLess(a[0], x);
            LexLessIrreflexive(x);
            assert x in b && x != b[0];
            var j :| 0 <= j < |b| && b[j] == x;
            assert b[1..][j - 1] == x;
          }
          if x in b[1..] {
            var j :| 1 <= j < |b| && b[j] == x;
            assert LexLess(b[0], x);
            LexLessIrreflexive(x);
            assert x in a && x != a[0];
            var i :| 0 <= i < |a| && a[i] == x;
            assert a[1..][i - 1] == x;
          }
        }
        AscendingUnique(a[1..], b[1..]);
        assert a == [a[0]] + a[1..] && b == [b[0]] + b[1..];
      }
    }
  }

  lemma SameElementsEmpty(a: seq<string>, b: seq<string>)
    requires forall x :: x in a <==> x in b
    ensures a == [] <==> b == []
  {
    if a != [] {
      assert a[0] in b;
    }
    if b != [] {
      assert b[0] in a;
    }
  }
}
