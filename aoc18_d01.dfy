/** The older copy of 2018 day 1, written against a solver that parses once
    and writes each requested part to its own stream. It shares the sums and
    `result_B` with `Aoc2018D01`; its parser has no end-of-stream check and
    its parts print labelled lines. */
module Aoc18D01 {
  import opened Wrappers
  import opened Text
  import Aoc2018D01

  /** `parse`: the integers read until an extraction fails; only an empty
      list is an error. */
  function Parse(text: string): (r: Result<seq<int>>)
    ensures r.Ok? <==> ReadAllSigned(text).0 != []
    ensures r.Ok? ==> r.value == ReadAllSigned(text).0
  {
    var (xs, _) := ReadAllSigned(text);
    if xs == [] then Err(ParseError("")) else Ok(xs)
  }

  /** Unlike the newer parser, text after the numbers is ignored. */
  lemma ParseIgnoresTrailingText(xs: seq<int>, rest: string)
    requires xs != []
    ensures Parse(IntLines(xs) + "x" + rest) == Ok(xs)
    ensures Aoc2018D01.ParseInput(IntLines(xs) + "x" + rest).Err?
  {
    Aoc2018D01.ReadAllSignedWord(xs, rest);
  }

  /** A tag, a number and a newline, as `os << tag << v << std::endl`
      writes them. */
  function Labelled(tag: string, v: int): (r: string)
    ensures |r| > |tag| && r[..|tag|] == tag
    ensures ReadSigned(r[|tag|..]) == Got(v, "\n")
  {
    var r := tag + IntToString(v) + "\n";
    assert r[|tag|..] == IntToString(v) + "\n";
    ReadSignedIntToString(v, "\n");
    r
  }

  /** `solve_A`: "partA: ", the total, and a newline. */
  function PartAText(input: seq<int>): (r: string)
    ensures |r| > 7 && r[..7] == "partA: "
    ensures ReadSigned(r[7..]) == Got(Aoc2018D01.Sum(input), "\n")
  {
    Labelled("partA: ", Aoc2018D01.Sum(input))
  }

  /** The line `solve_B` writes for the answer of `result_B`: "partB: ",
      the value or "N/A", and a newline. */
  function PartBText(res: Option<int>): (r: string)
    ensures |r| > 7 && r[..7] == "partB: "
    ensures res.None? ==> r == "partB: N/A\n"
    ensures res.Some? ==> ReadSigned(r[7..]) == Got(res.value, "\n")
  {
    match res
    case None => "partB: N/A\n"
    case Some(v) => Labelled("partB: ", v)
  }

  /** What `operator()` writes to each stream; `None` for a stream that was
      not given. */
  datatype Written = Written(partA: Option<string>, partB: Option<string>)

  /** `operator()`: parse once, then write each part only to a stream that
      is present. A parse failure writes nothing. */
  method Run(text: string, wantA: bool, wantB: bool) returns (r: Result<Written>)
    ensures r.Err? <==> Parse(text).Err?
    ensures r.Ok? ==> (r.value.partA.Some? <==> wantA) && (r.value.partB.Some? <==> wantB)
    ensures r.Ok? && wantA ==> r.value.partA == Some(PartAText(Parse(text).value))
    ensures r.Ok? && wantB ==> exists res :: Aoc2018D01.AsWrittenAnswer(Parse(text).value, res) &&
                                         r.value.partB == Some(PartBText(res))
  {
    var parsed := Parse(text);
    if parsed.Err? {
      return Err(parsed.error);
    }
    var input := parsed.value;
    var a: Option<string> := None;
    var b: Option<string> := None;
    if wantA {
      a := Some(PartAText(input));
    }
    if wantB {
      var res := Aoc2018D01.ResultBAsWritten(input);
      b := Some(PartBText(res));
    }
    r := Ok(Written(a, b));
  }
}
