/** 2019 day 4: passwords. The input is a range of six-digit numbers; a
    password's digits never decrease from left to right and hold two equal
    neighbours (part A), or a run of exactly two equal digits (part B).
    Both parts count the passwords in the range. */
module Aoc2019D04 {
  import opened Wrappers
  import opened Text

  // ---------------------------------------------------------------------
  // parse_input

  /** `regex_match` of `(\d+)-(\d+)` against a whole line: the two runs of
      digits around the dash. */
  function MatchRange(line: string): (r: Option<(string, string)>)
    ensures r.Some? ==> line == r.value.0 + "-" + r.value.1
    ensures r.Some? ==> r.value.0 != [] && AllDigits(r.value.0)
    ensures r.Some? ==> r.value.1 != [] && AllDigits(r.value.1)
  {
    var k := IndexOf(line, '-');
    if k == |line| then None
    else
      var first, second := line[..k], line[k + 1..];
      assert line == first + "-" + second;
      if first != [] && AllDigits(first) && second != [] && AllDigits(second) then Some((first, second))
      else None
  }

  /** Two runs of digits around a dash always match, and give back the runs. */
  lemma MatchRangeOf(first: string, second: string)
    requires first != [] && AllDigits(first)
    requires second != [] && AllDigits(second)
    ensures MatchRange(first + "-" + second) == Some((first, second))
  {
    var line := first + "-" + second;
    assert line[|first|] == '-';
    assert forall j :: 0 <= j < |first| ==> line[j] == first[j];
    assert IndexOf(line, '-') == |first|;
    assert line[..|first|] == first;
    assert line[|first| + 1..] == second;
  }

  /** The bounds both numbers of the range must respect: six digits. */
  predicate SixDigits(v: nat) {
    100000 <= v < 1000000
  }

  /** A line that matched: `stoull` on both runs, each value checked
      against the six-digit bounds. */
  function ParseRange(line: string): (r: Result<(nat, nat)>)
    ensures r.Ok? ==> MatchRange(line).Some?
    ensures r.Ok? ==> SixDigits(r.value.0) && SixDigits(r.value.1)
  {
    match MatchRange(line)
    case None => Err(ParseError("no range"))
    case Some((first, second)) =>
      var lower, upper := DigitsValue(first), DigitsValue(second);
      if lower >= 1000000 || upper >= 1000000 || lower < 100000 || upper < 100000 then Err(ParseError("not six digits"))
      else Ok((lower, upper))
  }

  /** A range as the puzzle writes it. */
  function RangeText(lower: nat, upper: nat): string {
    NatToString(lower) + "-" + NatToString(upper)
  }

  /** A written range of six-digit numbers reads back as itself, and one
      whose numbers are not both six digits long is rejected. */
  lemma ParseRangeText(lower: nat, upper: nat)
    ensures ParseRange(RangeText(lower, upper)) ==
      if SixDigits(lower) && SixDigits(upper) then Ok((lower, upper)) else Err(ParseError("not six digits"))
  {
    NatToStringDigits(lower);
    NatToStringDigits(upper);
    MatchRangeOf(NatToString(lower), NatToString(upper));
  }

  predicate AllEmpty(lines: seq<string>) {
    forall k :: 0 <= k < |lines| ==> lines[k] == []
  }

  /** The index of the first non-empty line, or the number of lines. */
  function FirstNonEmpty(lines: seq<string>): (i: nat)
    ensures i <= |lines|
    ensures AllEmpty(lines[..i])
    ensures i < |lines| ==> lines[i] != []
  {
    if lines == [] || lines[0] != [] then 0
    else
      var i := 1 + FirstNonEmpty(lines[1..]);
      assert forall k :: 1 <= k < i ==> lines[..i][k] == lines[1..][..i - 1][k - 1];
      i
  }

  /** The two `getline` loops: empty lines are skipped, the first other line
      must be a range, and every line after it must be empty. Without any
      non-empty line the value-initialised pair (0, 0) comes back. */
  function ParseLines(lines: seq<string>): (r: Result<(nat, nat)>)
    ensures FirstNonEmpty(lines) == |lines| ==> r == Ok((0, 0))
    ensures FirstNonEmpty(lines) < |lines| ==>
              (r.Ok? <==> ParseRange(lines[FirstNonEmpty(lines)]).Ok? && AllEmpty(lines[FirstNonEmpty(lines) + 1..]))
    ensures FirstNonEmpty(lines) < |lines| && r.Ok? ==> r == ParseRange(lines[FirstNonEmpty(lines)])
  {
    if lines == [] then Ok((0, 0))
    else if lines[0] == [] then
      var r := ParseLines(lines[1..]);
      assert lines[1..][FirstNonEmpty(lines) - 1..] == lines[FirstNonEmpty(lines)..];
      r
    else
      var range := ParseRange(lines[0]);
      if range.Err? then range
      else if !AllEmpty(lines[1..]) then Err(ParseError("trailing line"))
      else range
  }

  function ParseInput(text: string): (r: Result<(nat, nat)>)
    ensures r.Ok? && FirstNonEmpty(Lines(text)) < |Lines(text)| ==> SixDigits(r.value.0) && SixDigits(r.value.1)
  {
    ParseLines(Lines(text))
  }

  /** A range written on a line of its own reads back. */
  lemma ParseInputText(lower: nat, upper: nat)
    requires SixDigits(lower) && SixDigits(upper)
    ensures ParseInput(Terminated([RangeText(lower, upper)], '\n')) == Ok((lower, upper))
  {
    var line := RangeText(lower, upper);
    NatToStringDigits(lower);
    NatToStringDigits(upper);
    assert '\n' !in line by {
      assert forall j :: 0 <= j < |line| ==> IsDigit(line[j]) || line[j] == '-';
    }
    SplitOfTerminated([line], '\n');
    ParseRangeText(lower, upper);
    assert FirstNonEmpty([line]) == 0;
  }

  /** Input with a second non-empty line is rejected. */
  lemma SecondLineRejected(lines: seq<string>)
    requires FirstNonEmpty(lines) < |lines|
    requires !AllEmpty(lines[FirstNonEmpty(lines) + 1..])
    ensures ParseLines(lines).Err?
  {
  }

  // ---------------------------------------------------------------------
  // to_digits / from_digits

  function Pow10(n: nat): (r: nat)
    ensures r >= 1
  {
    if n == 0 then 1 else 10 * Pow10(n - 1)
  }

  /** The last `n` decimal digits of `x`, most significant first. */
  function DigitsOf(n: nat, x: nat): (r: seq<nat>)
    ensures |r| == n
  {
    if n == 0 then [] else DigitsOf(n - 1, x / 10) + [x % 10]
  }

  /** Every digit `to_digits` stores is below ten. */
  lemma {:induction false} DigitsOfBelowTen(n: nat, x: nat)
    ensures forall k :: 0 <= k < n ==> DigitsOf(n, x)[k] < 10
  {
    if n > 0 {
      DigitsOfBelowTen(n - 1, x / 10);
    }
  }

  /** The number that digits stand for, most significant first. */
  function ValueOf(ds: seq<nat>): nat {
    if ds == [] then 0 else ValueOf(ds[..|ds| - 1]) * 10 + ds[|ds| - 1]
  }

  /** `from_digits(to_digits(x)) == x` for every `x` of at most `n` digits. */
  lemma {:induction false} ValueOfDigitsOf(n: nat, x: nat)
    requires x < Pow10(n)
    ensures ValueOf(DigitsOf(n, x)) == x
  {
    if n > 0 {
      assert x / 10 < Pow10(n - 1);
      ValueOfDigitsOf(n - 1, x / 10);
      var ds := DigitsOf(n, x);
      assert ds[..n - 1] == DigitsOf(n - 1, x / 10);
    }
  }

  /** `to_digits(from_digits(ds)) == ds` for every run of decimal digits. */
  lemma {:induction false} DigitsOfValueOf(ds: seq<nat>)
    requires forall k :: 0 <= k < |ds| ==> ds[k] < 10
    ensures DigitsOf(|ds|, ValueOf(ds)) == ds
  {
    if ds != [] {
      var init, last := ds[..|ds| - 1], ds[|ds| - 1];
      DigitsOfValueOf(init);
      var v := ValueOf(ds);
      assert v / 10 == ValueOf(init) && v % 10 == last;
      assert init + [last] == ds;
    }
  }

  /** One more digit taken off the bottom of `y`. */
  lemma DigitsOfStep(m: nat, y: nat, after: seq<nat>)
    requires m > 0
    ensures DigitsOf(m, y) + after == DigitsOf(m - 1, y / 10) + ([y % 10] + after)
  {
  }

  /** `to_digits<n>`: the loop stores `x % 10` from the last slot backwards,
      dividing `x` by ten each time. */
  method ToDigits(n: nat, x: nat) returns (digits: array<nat>)
    ensures fresh(digits)
    ensures digits[..] == DigitsOf(n, x)
  {
    digits := new nat[n];
    var y := x;
    for i := 0 to n
      invariant DigitsOf(n - i, y) + digits[n - i..] == DigitsOf(n, x)
    {
      ghost var after := digits[n - i..];
      DigitsOfStep(n - i, y, after);
      digits[n - i - 1] := y % 10;
      assert digits[n - i - 1..] == [y % 10] + after;
      y := y / 10;
    }
    assert digits[0..] == digits[..];
  }

  /** `from_digits`: multiply by ten and add the next digit, from the most
      significant one. */
  method FromDigits(digits: array<nat>) returns (x: nat)
    ensures x == ValueOf(digits[..])
  {
    x := 0;
    for i := 0 to digits.Length
      invariant x == ValueOf(digits[..i])
    {
      assert digits[..i + 1][..i] == digits[..i];
      x := x * 10 + digits[i];
    }
    assert digits[..digits.Length] == digits[..];
  }

  // ---------------------------------------------------------------------
  // The digit predicates

  /** The three comparisons handed to `std::adjacent_find`:
      `std::greater`, the default `==` and `std::not_equal_to`. */
  datatype Relation = Greater | EqualTo | NotEqualTo

  predicate Holds(p: Relation, a: nat, b: nat) {
    match p
    case Greater => a > b
    case EqualTo => a == b
    case NotEqualTo => a != b
  }

  /** `std::adjacent_find` from `start` with the relation `p`. */
  function AdjacentFind(ds: seq<nat>, start: nat, p: Relation): (r: nat)
    requires start <= |ds|
    ensures start <= r <= |ds|
    decreases |ds| - start
  {
    if start + 1 >= |ds| then |ds|
    else if Holds(p, ds[start], ds[start + 1]) then start
    else AdjacentFind(ds, start + 1, p)
  }

  /** `AdjacentFind` gives the first index whose pair with the next element
      satisfies `p`, or the end when there is none. */
  lemma {:induction false} AdjacentFindFirst(ds: seq<nat>, start: nat, p: Relation)
    requires start <= |ds|
    ensures var r := AdjacentFind(ds, start, p);
      r < |ds| ==> r + 1 < |ds| && Holds(p, ds[r], ds[r + 1])
    ensures var r := AdjacentFind(ds, start, p);
      forall i :: start <= i < r && i + 1 < |ds| ==> !Holds(p, ds[i], ds[i + 1])
    decreases |ds| - start
  {
    if start + 1 < |ds| && !Holds(p, ds[start], ds[start + 1]) {
      AdjacentFindFirst(ds, start + 1, p);
    }
  }

  /** `is_non_decreasing`: no neighbour pair with the left one greater. */
  predicate IsNonDecreasing(ds: seq<nat>) {
    AdjacentFind(ds, 0, Greater) == |ds|
  }

  lemma IsNonDecreasingIff(ds: seq<nat>)
    ensures IsNonDecreasing(ds) <==> forall i :: 0 <= i < |ds| - 1 ==> ds[i] <= ds[i + 1]
  {
    AdjacentFindFirst(ds, 0, Greater);
  }

  /** `contains_duplets`: `adjacent_find` with `==` finds a pair. */
  predicate ContainsDuplets(ds: seq<nat>) {
    AdjacentFind(ds, 0, EqualTo) != |ds|
  }

  lemma ContainsDupletsIff(ds: seq<nat>)
    ensures ContainsDuplets(ds) <==> exists i :: 0 <= i < |ds| - 1 && ds[i] == ds[i + 1]
  {
    AdjacentFindFirst(ds, 0, EqualTo);
  }

  /** Positions `i` and `i + 1` form a maximal run of equal digits: the
      digits before and after differ. */
  predicate ExactPairAt(ds: seq<nat>, i: int) {
    0 <= i && i + 1 < |ds| && ds[i] == ds[i + 1]
    && (i == 0 || ds[i - 1] != ds[i])
    && (i + 2 == |ds| || ds[i + 1] != ds[i + 2])
  }

  /** Some maximal run of equal digits has length exactly two. */
  predicate HasExactPair(ds: seq<nat>) {
    exists i :: 0 <= i < |ds| && ExactPairAt(ds, i)
  }

  /** `contains_unique_duplets`: walk the maximal runs of equal digits, one
      `adjacent_find` with `!=` per run, and stop at the first of length
      two. */
  method ContainsUniqueDuplets(ds: seq<nat>) returns (b: bool)
    ensures b <==> HasExactPair(ds)
  {
    var start := 0;
    while true
      invariant start <= |ds|
      invariant 0 < start ==> start < |ds| && ds[start - 1] != ds[start]
      invariant forall i :: 0 <= i < start ==> !ExactPairAt(ds, i)
      decreases |ds| - start
    {
      var it := AdjacentFind(ds, start, NotEqualTo);
      AdjacentFindFirst(ds, start, NotEqualTo);
      if it == |ds| {
        if |ds| - start == 2 {
          assert ExactPairAt(ds, start);
        } else {
          forall i | start <= i < |ds|
            ensures !ExactPairAt(ds, i)
          {
            if i == start && i + 2 < |ds| {
              assert ds[i + 1] == ds[i + 2];
            }
          }
        }
        return |ds| - start == 2;
      }
      if it + 1 - start == 2 {
        assert ExactPairAt(ds, start);
        return true;
      }
      forall i | start <= i <= it
        ensures !ExactPairAt(ds, i)
      {
        if i == start && i < it {
          assert ds[i + 1] == ds[i + 2];
        }
      }
      start := it + 1;
    }
  }

  /** A run of exactly two is in particular a pair of equal neighbours. */
  lemma ExactPairIsDuplet(ds: seq<nat>)
    requires HasExactPair(ds)
    ensures ContainsDuplets(ds)
  {
    var i :| 0 <= i < |ds| && ExactPairAt(ds, i);
    assert 0 <= i < |ds| - 1 && ds[i] == ds[i + 1];
    ContainsDupletsIff(ds);
  }

  // ---------------------------------------------------------------------
  // passwords_A_between / passwords_B_between

  /** The six digits the counters look at. */
  const WIDTH: nat := 6

  /** The digit test of part A. */
  predicate PasswordA(ds: seq<nat>) {
    IsNonDecreasing(ds) && ContainsDuplets(ds)
  }

  /** The digit test of part B. */
  predicate PasswordB(ds: seq<nat>) {
    IsNonDecreasing(ds) && HasExactPair(ds)
  }

  predicate IsPasswordA(x: nat) {
    PasswordA(DigitsOf(WIDTH, x))
  }

  predicate IsPasswordB(x: nat) {
    PasswordB(DigitsOf(WIDTH, x))
  }

  /** The number of part A passwords in `[lower, upper)`. */
  function CountA(lower: nat, upper: nat): (r: nat)
    ensures upper <= lower ==> r == 0
    ensures lower < upper ==> r <= upper - lower
    decreases upper
  {
    if upper <= lower then 0
    else CountA(lower, upper - 1) + (if IsPasswordA(upper - 1) then 1 else 0)
  }

  /** The number of part B passwords in `[lower, upper)`. */
  function CountB(lower: nat, upper: nat): (r: nat)
    ensures upper <= lower ==> r == 0
    ensures lower < upper ==> r <= upper - lower
    decreases upper
  {
    if upper <= lower then 0
    else CountB(lower, upper - 1) + (if IsPasswordB(upper - 1) then 1 else 0)
  }

  /** Both counts after one more value, from the digits of that value. */
  lemma CountStep(lower: nat, x: nat, ds: seq<nat>)
    requires lower <= x && ds == DigitsOf(WIDTH, x)
    ensures CountA(lower, x + 1) == CountA(lower, x) + (if PasswordA(ds) then 1 else 0)
    ensures CountB(lower, x + 1) == CountB(lower, x) + (if PasswordB(ds) then 1 else 0)
  {
  }

  /** `passwords_A_between`: counts over `[lower, upper)`. */
  method PasswordsABetween(lower: nat, upper: nat) returns (count: nat)
    ensures count == CountA(lower, upper)
  {
    count := 0;
    var x := lower;
    while x < upper
      invariant x == lower || lower < x <= upper
      invariant count == CountA(lower, x)
    {
      var ds := ToDigits(WIDTH, x);
      CountStep(lower, x, ds[..]);
      if PasswordA(ds[..]) {
        count := count + 1;
      }
      x := x + 1;
    }
  }

  /** `passwords_B_between`: as part A with a run of exactly two, tested
      only on non-decreasing digits. */
  method PasswordsBBetween(lower: nat, upper: nat) returns (count: nat)
    ensures count == CountB(lower, upper)
  {
    count := 0;
    var x := lower;
    while x < upper
      invariant x == lower || lower < x <= upper
      invariant count == CountB(lower, x)
    {
      var ds := ToDigits(WIDTH, x);
      CountStep(lower, x, ds[..]);
      if IsNonDecreasing(ds[..]) {
        var pair := ContainsUniqueDuplets(ds[..]);
        if pair {
          count := count + 1;
        }
      }
      x := x + 1;
    }
  }

  /** `resultA` */
  method ResultA(input: (nat, nat)) returns (r: nat)
    ensures r == CountA(input.0, input.1)
  {
    r := PasswordsABetween(input.0, input.1);
  }

  /** `resultB` */
  method ResultB(input: (nat, nat)) returns (r: nat)
    ensures r == CountB(input.0, input.1)
    ensures r <= CountA(input.0, input.1)
  {
    r := PasswordsBBetween(input.0, input.1);
    BAtMostA(input.0, input.1);
  }

  /** Every part B password is a part A password. */
  lemma PasswordBIsA(x: nat)
    requires IsPasswordB(x)
    ensures IsPasswordA(x)
  {
    ExactPairIsDuplet(DigitsOf(WIDTH, x));
  }

  /** So part B never counts more than part A. */
  lemma {:induction false} BAtMostA(lower: nat, upper: nat)
    ensures CountB(lower, upper) <= CountA(lower, upper)
    decreases upper
  {
    if upper > lower {
      BAtMostA(lower, upper - 1);
      if IsPasswordB(upper - 1) {
        PasswordBIsA(upper - 1);
      }
    }
  }

  /** From the puzzle: the digits of 223450 decrease at the end. */
  lemma DecreasingRejected()
    ensures !PasswordA([2, 2, 3, 4, 5, 0])
  {
    var ds := [2, 2, 3, 4, 5, 0];
    assert ds[4] > ds[5];
    IsNonDecreasingIff(ds);
  }

  /** From the puzzle: in 123444 the 4s form a run of three, not two. */
  lemma TripleRejected()
    ensures !PasswordB([1, 2, 3, 4, 4, 4])
  {
    var ds := [1, 2, 3, 4, 4, 4];
    forall i | 0 <= i < |ds|
      ensures !ExactPairAt(ds, i)
    {
    }
  }

  /** From the puzzle: 111122 qualifies for part B through its 22. */
  lemma LongRunThenPair()
    ensures PasswordB([1, 1, 1, 1, 2, 2])
  {
    var ds := [1, 1, 1, 1, 2, 2];
    assert ExactPairAt(ds, 4);
    assert forall i :: 0 <= i < 5 ==> ds[i] <= ds[i + 1];
    IsNonDecreasingIff(ds);
  }

  /** The digits `to_digits<6>` gives for 111122. */
  lemma DigitsExample()
    ensures DigitsOf(WIDTH, 111122) == [1, 1, 1, 1, 2, 2]
  {
  }
}
