/** The older copy of 2018 day 2. Its parse, checksum loop, trie and
    `resultB` are the code of `Aoc2018D02`; it writes the answers itself. */
module Aoc18D02 {
  import opened Text
  import Aoc2018D02

  /** `solveA`: the checksum, written as a decimal numeral with no newline;
      reading it back gives the checksum. */
  method SolveA(ids: seq<string>) returns (out: string)
    ensures ReadUnsigned(out) == Got(Aoc2018D02.Tally(ids, 2) * Aoc2018D02.Tally(ids, 3), "")
  {
    var r := Aoc2018D02.ResultA(ids);
    out := NatToString(r);
    ReadUnsignedNatToString(r, "");
    assert out + "" == out;
  }

  /** `solveB`: the answer of `resultB`, or "N/A" when there is none. */
  method SolveB(ids: seq<string>) returns (out: string)
    requires ids != [] && forall k :: 0 <= k < |ids| ==> Aoc2018D02.AllLower(ids[k])
    ensures Aoc2018D02.Hits(ids, 1).None? ==> out == "N/A"
    ensures Aoc2018D02.Hits(ids, 1).Some? ==> out == Aoc2018D02.Hits(ids, 1).value
  {
    var result := Aoc2018D02.ResultB(ids);
    if result.Some? {
      out := result.value;
    } else {
      out := "N/A";
    }
  }

  /** An answer is made of lower-case letters, so it is never confused with
      "N/A". */
  lemma SolveBUnambiguous(ids: seq<string>)
    requires Aoc2018D02.ValidIds(ids)
    ensures Aoc2018D02.Hits(ids, 1).Some? ==> Aoc2018D02.AllLower(Aoc2018D02.Hits(ids, 1).value)
    ensures Aoc2018D02.Hits(ids, 1).Some? ==> Aoc2018D02.Hits(ids, 1).value != "N/A"
  {
    if Aoc2018D02.Hits(ids, 1).Some? {
      Aoc2018D02.HitSound(ids, 1);
      var j, k, p :| 0 <= j < k < |ids| && Aoc2018D02.OneApartAt(ids[j], ids[k], p) &&
                     Aoc2018D02.Hits(ids, 1).value == Aoc2018D02.Common(ids[k], p);
      assert Aoc2018D02.AllLower(ids[k]);
      Aoc2018D02.CommonLower(ids[k], p);
      assert !Aoc2018D02.IsLower("N/A"[0]);
    }
  }
}
