/** `aoc::solver_interface` and the callback adapter `aoc::solver<YEAR, DAY, I, A, B>`.
    A parsed input is a value of type `I`; the `void*` handle, its `new` and
    its `delete` are the harness's business and are counted there. */
module SolverContract {
  import opened Wrappers
  import Text

  /** A solver: its year and day, the `parse_input` callback (which may
      throw a parse error) and what `os << resultA(in)` / `os << resultB(in)`
      write. */
  datatype Solver<!I> = Solver(
    year: nat,
    day: nat,
    parseInput: string -> Result<I>,
    resultA: I -> string,
    resultB: I -> string)

  /** `create_solver<YEAR, DAY>(i, a, b)`: a solver holding exactly the given callbacks. */
  function CreateSolver<I>(year: nat, day: nat, parseInput: string -> Result<I>,
                           resultA: I -> string, resultB: I -> string): (s: Solver<I>)
    ensures s.year == year && s.day == day
    ensures s.parseInput == parseInput && s.resultA == resultA && s.resultB == resultB
  {
    Solver(year, day, parseInput, resultA, resultB)
  }

  /** `parse(is)`: the sentry skips leading whitespace and fails on a stream
      with nothing else in it; otherwise `parse_input` reads the rest. */
  function Parse<I>(s: Solver<I>, text: string): (r: Result<I>)
    ensures Text.SkipWs(text) == [] ==> r == Err(ParseError("invalid input stream"))
    ensures Text.SkipWs(text) != [] ==> r == s.parseInput(Text.SkipWs(text))
  {
    var rest := Text.SkipWs(text);
    if rest == [] then Err(ParseError("invalid input stream")) else s.parseInput(rest)
  }

  /** `solveA(os, in)`: what is written for part A of a parsed input. */
  function SolveA<I>(s: Solver<I>, input: I): string {
    s.resultA(input)
  }

  /** `solveB(os, in)`: what is written for part B of a parsed input. */
  function SolveB<I>(s: Solver<I>, input: I): string {
    s.resultB(input)
  }

  /** Whitespace in front of the input never changes what `parse` returns. */
  lemma {:induction false} ParseSkipsLeadingSpace<I>(s: Solver<I>, ws: string, text: string)
    requires forall k :: 0 <= k < |ws| ==> Text.IsSpace(ws[k])
    ensures Parse(s, ws + text) == Parse(s, text)
  {
    SkipWsSpaces(ws, text);
  }

  lemma {:induction false} SkipWsSpaces(ws: string, text: string)
    requires forall k :: 0 <= k < |ws| ==> Text.IsSpace(ws[k])
    ensures Text.SkipWs(ws + text) == Text.SkipWs(text)
  {
    if ws != [] {
      assert (ws + text)[0] == ws[0] && Text.IsSpace(ws[0]);
      assert forall k :: 0 <= k < |ws[1..]| ==> Text.IsSpace(ws[1..][k]);
      assert (ws + text)[1..] == ws[1..] + text;
      SkipWsSpaces(ws[1..], text);
    } else {
      assert ws + text == text;
    }
  }
}
