/** 2018 day 1: a list of frequency changes. Part A is their total; part B
    is the first frequency reached twice when the list is applied over and
    over, starting from 0. */
module Aoc2018D01 {
  import opened Wrappers
  import opened Text
  import Grid
  import opened Hyperbox
  import Vector

  /** `parse_input`: every integer of the stream, which must be read to its
      end and hold at least one. */
  function ParseInput(text: string): (r: Result<seq<int>>)
    ensures r.Ok? <==> ReadAllSigned(text).1 && ReadAllSigned(text).0 != []
    ensures r.Ok? ==> r.value == ReadAllSigned(text).0
  {
    var (xs, atEnd) := ReadAllSigned(text);
    if !atEnd then Err(ParseError(""))
    else if xs == [] then Err(ParseError(""))
    else Ok(xs)
  }

  /** A non-empty list written one integer per line parses back to itself. */
  lemma ParseInputLines(xs: seq<int>)
    requires xs != []
    ensures ParseInput(IntLines(xs)) == Ok(xs)
  {
    ReadAllSignedIntLines(xs);
  }

  /** A stream with a word where a number should be is rejected. */
  lemma ParseInputRejectsWord(xs: seq<int>, rest: string)
    ensures ParseInput(IntLines(xs) + "x" + rest).Err?
  {
    ReadAllSignedWord(xs, rest);
  }

  /** Reading integers stops, short of the end, at a word after them. */
  lemma {:induction false} ReadAllSignedWord(xs: seq<int>, rest: string)
    ensures ReadAllSigned(IntLines(xs) + "x" + rest) == (xs, false)
  {
    if xs == [] {
      assert IntLines(xs) + "x" + rest == "x" + rest;
      ReadAllSignedStopsAtWord(rest);
    } else {
      var tail := IntLines(xs[1..]) + "x" + rest;
      assert IntLines(xs) + "x" + rest == IntToString(xs[0]) + ("\n" + tail);
      ReadAllSignedNumberLine(xs[0], tail);
      ReadAllSignedWord(xs[1..], rest);
      ConsBack(xs, ReadAllSigned(IntLines(xs) + "x" + rest), ReadAllSigned(tail));
    }
  }

  lemma ReadAllSignedStopsAtWord(rest: string)
    ensures ReadAllSigned("x" + rest) == ([], false)
  {
    assert SkipWs("x" + rest) == "x" + rest;
  }

  /** `std::accumulate` from 0: the total of the changes, folded from the left. */
  function Sum(xs: seq<int>): int {
    if xs == [] then 0 else Sum(xs[..|xs| - 1]) + xs[|xs| - 1]
  }

  /** `resultA`: the total of a concatenation is the sum of the totals, so
      the order in which the changes are grouped does not matter. */
  lemma {:induction false} SumConcat(a: seq<int>, b: seq<int>)
    ensures Sum(a + b) == Sum(a) + Sum(b)
  {
    if b == [] {
      assert a + b == a;
    } else {
      SumConcat(a, b[..|b| - 1]);
      assert (a + b)[..|a + b| - 1] == a + b[..|b| - 1];
    }
  }

  /** The frequency before each change of the first pass: `fs` in `resultB`. */
  function Prefix(input: seq<int>): seq<int> {
    seq(|input|, k requires 0 <= k < |input| => Sum(input[..k]))
  }

  /** The running-sum `std::transform` of `resultB`: 0, then the total after
      each change except the last. */
  method Frequencies(input: seq<int>) returns (fs: seq<int>)
    requires input != []
    ensures fs == Prefix(input)
  {
    fs := [0];
    var s := 0;
    var k := 0;
    assert input[..0] == [];
    while k + 1 < |input|
      invariant 0 <= k < |input|
      invariant |fs| == k + 1
      invariant s == Sum(input[..k])
      invariant forall m :: 0 <= m < |fs| ==> fs[m] == Sum(input[..m])
    {
      s := s + input[k];
      k := k + 1;
      assert input[..k][..k - 1] == input[..k - 1];
      fs := fs + [s];
    }
  }

  // ---------------------------------------------------------------------
  // The frequency sequence over time

  /** The frequency after `t` changes when the list is applied cyclically. */
  function Freq(input: seq<int>, t: nat): int
    requires input != []
  {
    if t == 0 then 0 else Freq(input, t - 1) + input[(t - 1) % |input|]
  }

  /** The frequency at time `t` was already seen at an earlier time. */
  ghost predicate RepeatsAt(input: seq<int>, t: nat)
    requires input != []
  {
    exists s: nat :: s < t && Freq(input, s) == Freq(input, t)
  }

  /** `t` is the first time at which a frequency is reached twice. */
  ghost predicate IsFirstRepeat(input: seq<int>, t: nat)
    requires input != []
  {
    RepeatsAt(input, t) && forall u: nat :: u < t ==> !RepeatsAt(input, u)
  }

  /** After `q` full passes and `i` more changes the frequency is the
      `i`-th running sum plus `q` times the total. */
  lemma {:induction false} FreqDecomp(input: seq<int>, q: nat, i: nat)
    requires input != [] && i <= |input|
    ensures Freq(input, q * |input| + i) == Sum(input[..i]) + q * Sum(input)
    decreases q, i
  {
    var n := |input|;
    if i == 0 {
      if q > 0 {
        FreqDecomp(input, q - 1, n);
        assert (q - 1) * n + n == q * n;
        assert input[..n] == input;
      }
    } else {
      FreqDecomp(input, q, i - 1);
      var t := q * n + i - 1;
      Grid.DivModUnique(t, n, q, i - 1);
      assert input[..i][..i - 1] == input[..i - 1];
    }
  }

  // ---------------------------------------------------------------------
  // Candidate repetitions within one pass

  /** Frequency `fs[i]` reached again after `k` more passes equals `fs[j]`,
      and `fs[j]` was first reached earlier than that. */
  predicate IsCandidate(fs: seq<int>, d: int, i: int, j: int, k: int) {
    0 <= i < |fs| && 0 <= j < |fs| && 0 <= k && fs[i] + k * d == fs[j] && j < i + k * |fs|
  }

  /** A candidate reached no later than every other. */
  ghost predicate IsFirstCandidate(fs: seq<int>, d: int, i: int, j: int, k: int) {
    IsCandidate(fs, d, i, j, k) &&
    forall i', j', k' :: IsCandidate(fs, d, i', j', k') ==> i + k * |fs| <= i' + k' * |fs|
  }

  /** Every candidate is a repetition in time, at time `i + k*N`. */
  lemma CandidateRepeats(input: seq<int>, i: int, j: int, k: int)
    requires input != [] && IsCandidate(Prefix(input), Sum(input), i, j, k)
    ensures RepeatsAt(input, i + k * |input|)
    ensures Freq(input, i + k * |input|) == Prefix(input)[j]
  {
    FreqDecomp(input, k, i);
    FreqDecomp(input, 0, j);
    assert Freq(input, j) == Freq(input, i + k * |input|);
  }

  /** Every repetition in time has a candidate no later than it. */
  lemma RepeatHasCandidate(input: seq<int>, s: nat, t: nat)
    requires input != [] && s < t && Freq(input, s) == Freq(input, t)
    ensures exists i, j, k :: IsCandidate(Prefix(input), Sum(input), i, j, k) && i + k * |input| <= t
  {
    var n := |input|;
    var qt, i := Decompose(t, n);
    var qs, j := Decompose(s, n);
    FreqDecomp(input, qt, i);
    FreqDecomp(input, qs, j);
    var fs := Prefix(input);
    RepeatArith(n, Sum(input), qs, j, qt, i, fs[j], fs[i]);
    assert IsCandidate(fs, Sum(input), i, j, qt - qs);
  }

  /** Time `t` as whole passes and the changes after them. */
  lemma Decompose(t: nat, n: nat) returns (q: nat, r: nat)
    requires n > 0
    ensures t == q * n + r && r < n
  {
    q, r := t / n, t % n;
  }

  /** The arithmetic of `RepeatHasCandidate`: time `s = qs*n + j` and time
      `t = qt*n + i` with equal frequencies are `qt - qs` passes apart. */
  lemma RepeatArith(n: int, d: int, qs: int, j: int, qt: int, i: int, fj: int, fi: int)
    requires 0 <= i < n && 0 <= j < n && 0 <= qs && 0 <= qt
    requires qs * n + j < qt * n + i
    requires fj + qs * d == fi + qt * d
    ensures 0 <= qt - qs
    ensures fi + (qt - qs) * d == fj
    ensures j < i + (qt - qs) * n
    ensures i + (qt - qs) * n <= qt * n + i
  {
    if qs > qt {
      Grid.MulLe(qt + 1, qs, n);
    }
    assert (qt - qs) * d == qt * d - qs * d;
    assert (qt - qs) * n == qt * n - qs * n;
    Grid.MulLe(0, qs, n);
  }

  /** The first candidate is the first repetition in time, and its value is
      the frequency reached twice. */
  lemma FirstCandidateIsFirstRepeat(input: seq<int>, i: int, j: int, k: int)
    requires input != [] && IsFirstCandidate(Prefix(input), Sum(input), i, j, k)
    ensures IsFirstRepeat(input, i + k * |input|)
    ensures Freq(input, i + k * |input|) == Prefix(input)[j]
  {
    CandidateRepeats(input, i, j, k);
    forall u: nat | u < i + k * |input|
      ensures !RepeatsAt(input, u)
    {
      if RepeatsAt(input, u) {
        var s: nat :| s < u && Freq(input, s) == Freq(input, u);
        RepeatHasCandidate(input, s, u);
      }
    }
  }

  /** Without candidates no frequency is ever reached twice. */
  lemma NoCandidateNoRepeat(input: seq<int>)
    requires input != []
    requires forall i, j, k :: !IsCandidate(Prefix(input), Sum(input), i, j, k)
    ensures forall t: nat :: !RepeatsAt(input, t)
  {
    forall t: nat | RepeatsAt(input, t)
      ensures false
    {
      var s: nat :| s < t && Freq(input, s) == Freq(input, t);
      RepeatHasCandidate(input, s, t);
    }
  }

  // ---------------------------------------------------------------------
  // first_repetition, as written and as intended

  predicate HasLaterEqual(fs: seq<int>, i: int) {
    0 <= i < |fs| && exists j :: i < j < |fs| && fs[i] == fs[j]
  }

  predicate HasEarlierEqual(fs: seq<int>, j: int) {
    0 <= j < |fs| && exists i :: 0 <= i < j && fs[i] == fs[j]
  }

  /** `i` is the first position whose value occurs again later. */
  predicate FirstWithLaterEqual(fs: seq<int>, i: int) {
    HasLaterEqual(fs, i) && forall m :: 0 <= m < i ==> !HasLaterEqual(fs, m)
  }

  /** `j` is the first position whose value occurred before. */
  predicate FirstWithEarlierEqual(fs: seq<int>, j: int) {
    HasEarlierEqual(fs, j) && forall m :: 0 <= m < j ==> !HasEarlierEqual(fs, m)
  }

  /** `first_repetition` as written: the value at the first position that
      has an equal value somewhere after it. */
  method FirstRepetition(fs: seq<int>) returns (r: Option<int>)
    ensures r.None? <==> forall i :: 0 <= i < |fs| ==> !HasLaterEqual(fs, i)
    ensures r.Some? ==> exists i :: FirstWithLaterEqual(fs, i) && r.value == fs[i]
  {
    var i := 0;
    while i + 1 < |fs|
      invariant 0 <= i
      invariant forall m :: 0 <= m < i && m < |fs| ==> !HasLaterEqual(fs, m)
    {
      var j := i + 1;
      while j < |fs|
        invariant i + 1 <= j <= |fs|
        invariant forall n :: i < n < j ==> fs[i] != fs[n]
      {
        if fs[i] == fs[j] {
          assert HasLaterEqual(fs, i);
          return Some(fs[i]);
        }
        j := j + 1;
      }
      i := i + 1;
    }
    return None;
  }

  /** `first_repetition` as intended: the value at the first position whose
      value was already seen, which is the first value met twice. */
  method FirstRepeat(fs: seq<int>) returns (r: Option<int>)
    ensures r.None? <==> forall j :: 0 <= j < |fs| ==> !HasEarlierEqual(fs, j)
    ensures r.Some? ==> exists j :: FirstWithEarlierEqual(fs, j) && r.value == fs[j]
  {
    var j := 0;
    while j < |fs|
      invariant 0 <= j <= |fs|
      invariant forall m :: 0 <= m < j ==> !HasEarlierEqual(fs, m)
    {
      var i := 0;
      while i < j
        invariant 0 <= i <= j
        invariant forall n :: 0 <= n < i ==> fs[n] != fs[j]
      {
        if fs[i] == fs[j] {
          assert HasEarlierEqual(fs, j);
          return Some(fs[j]);
        }
        i := i + 1;
      }
      j := j + 1;
    }
    return None;
  }

  // ---------------------------------------------------------------------
  // resultB as written

  /** The pairs the loop of `resultB` accepts: distinct positions whose
      difference is a non-negative multiple of the total `d`. */
  predicate PairHit(fs: seq<int>, d: int, i: int, j: int)
    requires d != 0
  {
    0 <= i < |fs| && 0 <= j < |fs| && i != j &&
    Rem(fs[j] - fs[i], d) == 0 && Quot(fs[j] - fs[i], d) >= 0
  }

  /** Hit `(i, j)` has a smaller quotient than hit `(i', j')`, or the same
      quotient and comes first in the loop's order. */
  predicate HitBefore(fs: seq<int>, d: int, i: int, j: int, i': int, j': int)
    requires d != 0 && PairHit(fs, d, i, j) && PairHit(fs, d, i', j')
  {
    var k, k' := Quot(fs[j] - fs[i], d), Quot(fs[j'] - fs[i'], d);
    k < k' || (k == k' && (i < i' || (i == i' && j <= j')))
  }

  /** The hit the loop of `resultB` keeps: the first one with the smallest
      quotient. */
  ghost predicate IsBestHit(fs: seq<int>, d: int, i: int, j: int)
    requires d != 0
  {
    PairHit(fs, d, i, j) &&
    forall i', j' :: PairHit(fs, d, i', j') ==> HitBefore(fs, d, i, j, i', j')
  }

  /** What `resultB` as written answers. With a zero total: `fs[0]` when no
      running sum occurs twice, else the value at the first position with a
      later equal value. Otherwise: the value `fs[j]` of the best hit, or
      none when there is no hit. */
  ghost predicate AsWrittenAnswer(input: seq<int>, r: Option<int>)
    requires input != []
  {
    var fs, d := Prefix(input), Sum(input);
    if d == 0 then
      (r == Some(fs[0]) && forall i :: 0 <= i < |fs| ==> !HasLaterEqual(fs, i)) ||
      (exists i :: FirstWithLaterEqual(fs, i) && r == Some(fs[i]))
    else
      (r.None? <==> forall i, j :: !PairHit(fs, d, i, j)) &&
      (r.Some? ==> exists i, j :: IsBestHit(fs, d, i, j) && r.value == fs[j])
  }

  /** `resultB` as written. */
  method ResultBAsWritten(input: seq<int>) returns (r: Option<int>)
    requires input != []
    ensures AsWrittenAnswer(input, r)
  {
    var d := Sum(input);
    var fs := Frequencies(input);
    if d == 0 {
      var rep := FirstRepetition(fs);
      r := Some(rep.GetOr(fs[0]));
    } else {
      r := BestHit(fs, d);
    }
  }

  /** The nested loop of `resultB` for a non-zero total: the value `fs[j]`
      of the first hit with the smallest quotient, which the strict `<`
      keeps. */
  method BestHit(fs: seq<int>, d: int) returns (r: Option<int>)
    requires d != 0
    ensures r.None? <==> forall i, j :: !PairHit(fs, d, i, j)
    ensures r.Some? ==> exists i, j :: IsBestHit(fs, d, i, j) && r.value == fs[j]
  {
    var result := 0;
    var k: Option<int> := None;
    ghost var bi, bj := 0, 0;
    for i := 0 to |fs|
      invariant k.Some? ==> PairHit(fs, d, bi, bj) && bi < i
      invariant k.Some? ==> result == fs[bj] && k.value == Quot(fs[bj] - fs[bi], d)
      invariant forall i', j' :: 0 <= i' < i && PairHit(fs, d, i', j') ==>
        k.Some? && HitBefore(fs, d, bi, bj, i', j')
    {
      for j := 0 to |fs|
        invariant k.Some? ==> PairHit(fs, d, bi, bj) && (bi < i || (bi == i && bj < j))
        invariant k.Some? ==> result == fs[bj] && k.value == Quot(fs[bj] - fs[bi], d)
        invariant forall i', j' :: (i' < i || (i' == i && j' < j)) && PairHit(fs, d, i', j') ==>
          k.Some? && HitBefore(fs, d, bi, bj, i', j')
      {
        var diff := fs[j] - fs[i];
        var quot, rem := Quot(diff, d), Rem(diff, d);
        if i != j && rem == 0 && quot >= 0 && (k.None? || quot < k.value) {
          result, k := fs[j], Some(quot);
          bi, bj := i, j;
        }
      }
    }
    if k.Some? {
      assert IsBestHit(fs, d, bi, bj);
      r := Some(result);
    } else {
      r := None;
    }
  }

  // ---------------------------------------------------------------------
  // resultB as intended

  /** The number of passes after which `fs[i]` becomes `fs[j]` when that is
      a repetition: the test of `resultB` with `j < i || k > 0` in place of
      `i != j`. */
  function CandidatePasses(fs: seq<int>, d: int, i: int, j: int): Option<int>
    requires d != 0 && 0 <= i < |fs| && 0 <= j < |fs|
  {
    var diff := fs[j] - fs[i];
    if Rem(diff, d) == 0 && Quot(diff, d) >= 0 && (j < i || Quot(diff, d) > 0)
    then Some(Quot(diff, d)) else None
  }

  /** Truncating division is exact on multiples. */
  lemma QuotExact(k: int, d: int)
    requires 0 <= k && d != 0
    ensures Quot(k * d, d) == k && Rem(k * d, d) == 0
  {
    var a := Vector.AbsInt(d);
    assert Vector.AbsInt(k * d) == k * a;
    Grid.DivModUnique(k * a, a, k, 0);
  }

  /** With a non-zero total a pair has at most one candidate pass count, and
      `CandidatePasses` finds it. */
  lemma CandidatePassesExact(fs: seq<int>, d: int, i: int, j: int, k: int)
    requires d != 0 && 0 <= i < |fs| && 0 <= j < |fs|
    ensures IsCandidate(fs, d, i, j, k) <==> CandidatePasses(fs, d, i, j) == Some(k)
  {
    var diff := fs[j] - fs[i];
    if CandidatePasses(fs, d, i, j) == Some(k) {
      assert diff == d * k;
      if k > 0 {
        Grid.MulLe(1, k, |fs|);
      }
    }
    if IsCandidate(fs, d, i, j, k) {
      assert diff == k * d;
      QuotExact(k, d);
    }
  }

  /** Pass counts order candidates before positions do. */
  lemma TimeOrder(bi: int, kb: int, i: int, q: int, n: int)
    requires 0 <= bi <= i < n && 0 <= kb && 0 <= q
    ensures q < kb ==> i + q * n < bi + kb * n
    ensures q >= kb ==> bi + kb * n <= i + q * n
  {
    if q < kb {
      Grid.MulLe(q + 1, kb, n);
    } else {
      Grid.MulLe(kb, q, n);
    }
  }

  /** With a zero total, a position whose value was seen before gives the
      first candidate. */
  lemma ZeroTotalRepeat(fs: seq<int>, j: int, i: int)
    requires FirstWithEarlierEqual(fs, j) && 0 <= i < j && fs[i] == fs[j]
    ensures IsFirstCandidate(fs, 0, j, i, 0)
  {
    forall i', j', k' | IsCandidate(fs, 0, i', j', k')
      ensures j <= i' + k' * |fs|
    {
      if k' == 0 {
        assert HasEarlierEqual(fs, i');
      } else {
        Grid.MulLe(1, k', |fs|);
      }
    }
  }

  /** With a zero total and no value seen twice in a pass, the first
      candidate is the start of the second pass. */
  lemma ZeroTotalNoRepeat(fs: seq<int>)
    requires |fs| > 0 && forall j :: 0 <= j < |fs| ==> !HasEarlierEqual(fs, j)
    ensures IsFirstCandidate(fs, 0, 0, 0, 1)
  {
    forall i', j', k' | IsCandidate(fs, 0, i', j', k')
      ensures |fs| <= i' + k' * |fs|
    {
      if k' == 0 {
        assert HasEarlierEqual(fs, i');
      } else {
        Grid.MulLe(1, k', |fs|);
      }
    }
  }

  /** `resultB` as intended: the first frequency reached twice, or none when
      no frequency ever repeats. */
  method ResultB(input: seq<int>) returns (r: Option<int>)
    requires input != []
    ensures r.Some? ==> exists t: nat :: IsFirstRepeat(input, t) && r.value == Freq(input, t)
    ensures r.None? <==> forall t: nat :: !RepeatsAt(input, t)
  {
    var d := Sum(input);
    var fs := Frequencies(input);
    if d == 0 {
      var rep := FirstRepeat(fs);
      if rep.Some? {
        ghost var j :| FirstWithEarlierEqual(fs, j) && rep.value == fs[j];
        ghost var i :| 0 <= i < j && fs[i] == fs[j];
        ZeroTotalRepeat(fs, j, i);
        FirstCandidateIsFirstRepeat(input, j, i, 0);
      } else {
        ZeroTotalNoRepeat(fs);
        FirstCandidateIsFirstRepeat(input, 0, 0, 1);
      }
      return Some(rep.GetOr(fs[0]));
    }
    var result := 0;
    var k: Option<int> := None;
    ghost var bi, bj := 0, 0;
    for i := 0 to |fs|
      invariant k.Some? ==> IsCandidate(fs, d, bi, bj, k.value) && result == fs[bj] && bi < i
      invariant forall i', j' :: 0 <= i' < i && 0 <= j' < |fs| && CandidatePasses(fs, d, i', j').Some? ==>
        k.Some? && bi + k.value * |fs| <= i' + CandidatePasses(fs, d, i', j').value * |fs|
    {
      for j := 0 to |fs|
        invariant k.Some? ==> IsCandidate(fs, d, bi, bj, k.value) && result == fs[bj] && bi <= i
        invariant forall i', j' ::
          0 <= i' < |fs| && 0 <= j' < |fs| && (i' < i || (i' == i && j' < j)) &&
          CandidatePasses(fs, d, i', j').Some? ==>
          k.Some? && bi + k.value * |fs| <= i' + CandidatePasses(fs, d, i', j').value * |fs|
      {
        var diff := fs[j] - fs[i];
        var quot := Quot(diff, d);
        if k.Some? && quot >= 0 {
          TimeOrder(bi, k.value, i, quot, |fs|);
        }
        if Rem(diff, d) == 0 && quot >= 0 && (j < i || quot > 0) && (k.None? || quot < k.value) {
          CandidatePassesExact(fs, d, i, j, quot);
          result, k := fs[j], Some(quot);
          bi, bj := i, j;
        }
      }
    }
    forall i', j', k' | IsCandidate(fs, d, i', j', k')
      ensures k.Some? && bi + k.value * |fs| <= i' + k' * |fs|
    {
      CandidatePassesExact(fs, d, i', j', k');
    }
    if k.Some? {
      FirstCandidateIsFirstRepeat(input, bi, bj, k.value);
      r := Some(result);
    } else {
      NoCandidateNoRepeat(input);
      r := None;
    }
  }

  // ---------------------------------------------------------------------
  // Where the two differ

  /** The first repetition in time is unique. */
  lemma FirstRepeatUnique(input: seq<int>, t: nat, u: nat)
    requires input != [] && IsFirstRepeat(input, t) && IsFirstRepeat(input, u)
    ensures t == u
  {
  }

  /** Three changes that return to a frequency seen one step before: the
      frequencies over time run 0, 1, 2, 2, and 2 is the first one reached
      twice, at time 3. */
  lemma ExampleFreqs(input: seq<int>)
    requires |input| == 5 && input[0] == 1 && input[1] == 1 && input[2] == 0
    ensures Freq(input, 1) == 1 && Freq(input, 2) == 2 && Freq(input, 3) == 2
    ensures IsFirstRepeat(input, 3)
    ensures forall t: nat :: IsFirstRepeat(input, t) ==> Freq(input, t) == 2
  {
    assert Freq(input, 0) == 0;
    assert Freq(input, 1) == 1;
    assert Freq(input, 2) == 2;
    assert Freq(input, 3) == 2;
    assert Freq(input, 2) == Freq(input, 3);
    assert RepeatsAt(input, 3);
    forall t: nat | IsFirstRepeat(input, t)
      ensures t == 3
    {
      FirstRepeatUnique(input, t, 3);
    }
  }

  /** With total 0, `resultB` as written returns 1 on the changes
      1, 1, 0, -1, -1, although the first frequency reached twice is 2. */
  lemma ZeroTotalCounterexample()
    ensures Sum([1, 1, 0, -1, -1]) == 0 && Prefix([1, 1, 0, -1, -1]) == [0, 1, 2, 2, 1]
    ensures forall i :: FirstWithLaterEqual([0, 1, 2, 2, 1], i) ==> [0, 1, 2, 2, 1][i] == 1
    ensures forall t: nat :: IsFirstRepeat([1, 1, 0, -1, -1], t) ==> Freq([1, 1, 0, -1, -1], t) == 2
  {
    var input := [1, 1, 0, -1, -1];
    PrefixOfExample(input);
    var fs := [0, 1, 2, 2, 1];
    assert fs[1] == fs[4];
    assert HasLaterEqual(fs, 1);
    assert !HasLaterEqual(fs, 0);
    assert forall i :: FirstWithLaterEqual(fs, i) ==> i == 1;
    ExampleFreqs(input);
  }

  /** With total 6, `resultB` as written returns 1 on the changes
      1, 1, 0, -1, 5, although the first frequency reached twice is 2. */
  lemma NonZeroTotalCounterexample()
    ensures Sum([1, 1, 0, -1, 5]) == 6 && Prefix([1, 1, 0, -1, 5]) == [0, 1, 2, 2, 1]
    ensures forall i, j :: IsBestHit([0, 1, 2, 2, 1], 6, i, j) ==> [0, 1, 2, 2, 1][j] == 1
    ensures forall t: nat :: IsFirstRepeat([1, 1, 0, -1, 5], t) ==> Freq([1, 1, 0, -1, 5], t) == 2
  {
    var input := [1, 1, 0, -1, 5];
    PrefixOfExample(input);
    var fs := [0, 1, 2, 2, 1];
    assert Quot(0, 6) == 0 && Rem(0, 6) == 0;
    assert PairHit(fs, 6, 1, 4);
    forall i, j | IsBestHit(fs, 6, i, j)
      ensures fs[j] == 1
    {
      assert HitBefore(fs, 6, i, j, 1, 4);
      var diff := fs[j] - fs[i];
      assert diff == 6 * Quot(diff, 6);
    }
    ExampleFreqs(input);
  }

  /** The running sums of both examples. */
  lemma PrefixOfExample(input: seq<int>)
    requires |input| == 5 && input[..4] == [1, 1, 0, -1]
    ensures Prefix(input) == [0, 1, 2, 2, 1]
    ensures Sum(input) == 1 + input[4]
  {
    assert input[..0] == [];
    assert input[..1][..0] == [] && input[..2][..1] == input[..1];
    assert input[..3][..2] == input[..2] && input[..4][..3] == input[..3];
    assert input[..5] == input && input[..4] == input[..|input| - 1];
    assert Sum(input[..1]) == 1 && Sum(input[..2]) == 2;
    assert Sum(input[..3]) == 2 && Sum(input[..4]) == 1;
    var fs := Prefix(input);
    assert |fs| == 5 && fs[0] == 0 && fs[1] == 1 && fs[2] == 2 && fs[3] == 2 && fs[4] == 1;
  }
}
