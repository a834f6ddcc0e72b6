/** 2018 day 5: polymer reduction. Adjacent units of the same type and
    opposite polarity (the same letter in different case) annihilate; part A
    is the length left, part B the shortest length after taking one unit
    type out. */
module Aoc2018D05 {
  import opened Wrappers
  import opened Text

  /** `SIZE_MAX`, the start of part B's minimum. */
  const SIZE_MAX: nat := 0xFFFF_FFFF_FFFF_FFFF

  predicate IsLetter(c: char) {
    'a' <= c <= 'z' || 'A' <= c <= 'Z'
  }

  predicate AllLetters(s: string) {
    forall k :: 0 <= k < |s| ==> IsLetter(s[k])
  }

  /** `parse_input`: the first whitespace-delimited word, which must exist and
      be made of ASCII letters; what follows it is not read. */
  function ParseInput(text: string): (r: Result<string>)
    ensures r.Ok? <==> ReadWord(text).Got? && AllLetters(ReadWord(text).value)
    ensures r.Ok? ==> r.value == ReadWord(text).value && r.value != []
  {
    match ReadWord(text)
    case Stuck(_) => Err(ParseError(""))
    case Got(w, _) => if AllLetters(w) then Ok(w) else Err(ParseError(""))
  }

  /** A polymer followed by more text parses back to itself. */
  lemma ParseInputWord(w: string, rest: string)
    requires w != [] && AllLetters(w) && rest != [] && IsSpace(rest[0])
    ensures ParseInput(w + rest) == Ok(w)
  {
    assert IsWord(w) by {
      forall k | 0 <= k < |w|
        ensures !IsSpace(w[k])
      {
        assert IsLetter(w[k]);
      }
    }
    ReadWordBack(w, rest);
  }

  /** `to_lower`: an upper-case letter moves down to its lower-case form,
      anything from 'a' on is kept. */
  function ToLower(c: char): (l: char)
    requires IsLetter(c)
    ensures 'a' <= l <= 'z'
    ensures 'a' <= c <= 'z' ==> l == c
    ensures 'A' <= c <= 'Z' ==> l as int == c as int + 32
  {
    if c < 'a' then (c as int + 32) as char else c
  }

  /** `opposite`: the codes are 'a' - 'A' = 32 apart. */
  predicate Opposite(a: char, b: char) {
    a as int - b as int == 32 || b as int - a as int == 32
  }

  /** For letters, `opposite` means the same type in different polarity. */
  lemma OppositeLetters(a: char, b: char)
    requires IsLetter(a) && IsLetter(b)
    ensures Opposite(a, b) <==> a != b && ToLower(a) == ToLower(b)
  {
  }

  /** One character of `reaction`: it annihilates the top of the stack when
      they are opposite, and is pushed otherwise. */
  function Push(stack: string, c: char): (r: string)
    ensures |r| == |stack| + 1 || |r| + 1 == |stack|
  {
    if stack != [] && Opposite(stack[|stack| - 1], c) then stack[..|stack| - 1] else stack + [c]
  }

  /** What `reaction` leaves: the stack after pushing every character. */
  function React(s: string): (r: string)
    ensures |r| <= |s|
  {
    if s == [] then [] else Push(React(s[..|s| - 1]), s[|s| - 1])
  }

  /** `reaction`: the stack loop over the characters. */
  method Reaction(str: string) returns (stack: string)
    ensures stack == React(str)
  {
    stack := [];
    for k := 0 to |str|
      invariant stack == React(str[..k])
    {
      assert str[..k + 1][..k] == str[..k];
      var c := str[k];
      if stack == [] || !Opposite(stack[|stack| - 1], c) {
        stack := stack + [c];
      } else {
        stack := stack[..|stack| - 1];
      }
    }
    assert str[..|str|] == str;
  }

  /** No two adjacent units of a polymer react. */
  predicate Inert(s: string) {
    forall k :: 0 < k < |s| ==> !Opposite(s[k - 1], s[k])
  }

  /** The reaction leaves an inert polymer. */
  lemma {:induction false} ReactInert(s: string)
    ensures Inert(React(s))
  {
    if s != [] {
      ReactInert(s[..|s| - 1]);
      PushInert(React(s[..|s| - 1]), s[|s| - 1]);
    }
  }

  /** One step of the reaction keeps the stack inert. */
  lemma PushInert(st: string, c: char)
    requires Inert(st)
    ensures Inert(Push(st, c))
  {
    var r := Push(st, c);
    if st != [] && Opposite(st[|st| - 1], c) {
      forall k | 0 < k < |r|
        ensures !Opposite(r[k - 1], r[k])
      {
        assert r[k - 1] == st[k - 1] && r[k] == st[k];
      }
    } else {
      forall k | 0 < k < |r|
        ensures !Opposite(r[k - 1], r[k])
      {
        if k < |st| {
          assert r[k - 1] == st[k - 1] && r[k] == st[k];
        }
      }
    }
  }

  /** The reaction never lengthens a polymer, and removes units in pairs. */
  lemma {:induction false} ReactLength(s: string)
    ensures |React(s)| <= |s|
    ensures (|s| - |React(s)|) % 2 == 0
  {
    if s != [] {
      ReactLength(s[..|s| - 1]);
    }
  }

  /** An inert polymer does not react. */
  lemma {:induction false} ReactOfInert(s: string)
    requires Inert(s)
    ensures React(s) == s
  {
    if s != [] {
      var init := s[..|s| - 1];
      assert Inert(init) by {
        forall k | 0 < k < |init|
          ensures !Opposite(init[k - 1], init[k])
        {
          assert init[k - 1] == s[k - 1] && init[k] == s[k];
        }
      }
      ReactOfInert(init);
      if init != [] {
        assert init[|init| - 1] == s[|s| - 2];
      }
      assert init + [s[|s| - 1]] == s;
    }
  }

  /** Reacting twice gives what reacting once gives. */
  lemma ReactIdempotent(s: string)
    ensures React(React(s)) == React(s)
  {
    ReactInert(s);
    ReactOfInert(React(s));
  }

  /** How many more units of type `l` are of lower than of upper polarity. */
  function Balance(s: string, l: char): int
    requires 'a' <= l <= 'z'
  {
    multiset(s)[l] as int - multiset(s)[(l as int - 32) as char] as int
  }

  /** Annihilating a pair of letters keeps the balance of every type. */
  lemma {:induction false} ReactBalance(s: string, l: char)
    requires AllLetters(s) && 'a' <= l <= 'z'
    ensures Balance(React(s), l) == Balance(s, l)
  {
    if s != [] {
      var init := s[..|s| - 1];
      var c := s[|s| - 1];
      assert s == init + [c];
      ReactBalance(init, l);
      ReactLetters(init);
      PushBalance(React(init), c, l);
      BalanceSnoc(init, c, l);
    }
  }

  lemma BalanceSnoc(t: string, c: char, l: char)
    requires 'a' <= l <= 'z'
    ensures Balance(t + [c], l) == Balance(t, l) + Balance([c], l)
  {
    assert multiset(t + [c]) == multiset(t) + multiset([c]);
  }

  /** Pushing a letter adds its balance: an annihilated pair has none. */
  lemma PushBalance(st: string, c: char, l: char)
    requires AllLetters(st) && IsLetter(c) && 'a' <= l <= 'z'
    ensures Balance(Push(st, c), l) == Balance(st, l) + Balance([c], l)
  {
    if st != [] && Opposite(st[|st| - 1], c) {
      var n := |st| - 1;
      var t := st[n];
      assert st == st[..n] + [t];
      BalanceSnoc(st[..n], t, l);
      assert IsLetter(t);
      PairBalance(t, c, l);
    } else {
      BalanceSnoc(st, c, l);
    }
  }

  /** An opposite pair of letters balances out for every type. */
  lemma PairBalance(a: char, b: char, l: char)
    requires IsLetter(a) && IsLetter(b) && Opposite(a, b) && 'a' <= l <= 'z'
    ensures Balance([a], l) + Balance([b], l) == 0
  {
    BalanceOne(a, l);
    BalanceOne(b, l);
  }

  lemma BalanceOne(c: char, l: char)
    requires 'a' <= l <= 'z'
    ensures Balance([c], l) == if c == l then 1 else if c as int == l as int - 32 then -1 else 0
  {
    assert multiset([c])[l] == if c == l then 1 else 0;
    assert multiset([c])[(l as int - 32) as char] == if c as int == l as int - 32 then 1 else 0;
  }

  /** The reaction keeps letters letters. */
  lemma {:induction false} ReactLetters(s: string)
    requires AllLetters(s)
    ensures AllLetters(React(s))
  {
    if s != [] {
      ReactLetters(s[..|s| - 1]);
      var st := React(s[..|s| - 1]);
      assert forall k :: 0 <= k < |st| - 1 ==> st[..|st| - 1][k] == st[k];
    }
  }

  /** `resultA`: the length of the reacted polymer. */
  method ResultA(input: string) returns (n: nat)
    ensures n == |React(input)| && n <= |input|
  {
    var reacted := Reaction(input);
    ReactLength(input);
    n := |reacted|;
  }

  // ---------------------------------------------------------------------
  // resultB

  /** The polymer with both polarities of type `l` taken out (`copy_if`). */
  function Without(s: string, l: char): (r: string)
    requires 'a' <= l <= 'z'
    requires AllLetters(s)
    ensures |r| <= |s| && AllLetters(r)
    ensures forall k :: 0 <= k < |r| ==> ToLower(r[k]) != l
  {
    if s == [] then []
    else
      var init := Without(s[..|s| - 1], l);
      if ToLower(s[|s| - 1]) != l then init + [s[|s| - 1]] else init
  }

  /** Some unit of `s` has type `l`. */
  predicate HasUnit(s: string, l: char)
    requires AllLetters(s)
  {
    exists k :: 0 <= k < |s| && ToLower(s[k]) == l
  }

  function Letter(i: nat): (l: char)
    requires i < 26
    ensures 'a' <= l <= 'z'
  {
    ('a' as int + i) as char
  }

  /** The shortest reacted length over the types `Letter(i)`, `i < n`, that
      occur in `r`, starting from `SIZE_MAX`. */
  function Shortest(r: string, n: nat): nat
    requires n <= 26 && AllLetters(r)
  {
    if n == 0 then SIZE_MAX
    else
      var best := Shortest(r, n - 1);
      if HasUnit(r, Letter(n - 1)) then Min(best, |React(Without(r, Letter(n - 1)))|) else best
  }

  function Min(a: nat, b: nat): nat {
    if a <= b then a else b
  }

  /** `Shortest` is the minimum it claims: below every candidate, and one of
      them unless no type occurs. */
  lemma {:induction false} ShortestIsMin(r: string, n: nat)
    requires n <= 26 && AllLetters(r)
    ensures forall i :: 0 <= i < n && HasUnit(r, Letter(i)) ==> Shortest(r, n) <= |React(Without(r, Letter(i)))|
    ensures Shortest(r, n) == SIZE_MAX ||
            exists i :: 0 <= i < n && HasUnit(r, Letter(i)) && Shortest(r, n) == |React(Without(r, Letter(i)))|
    ensures (forall i :: 0 <= i < n ==> !HasUnit(r, Letter(i))) ==> Shortest(r, n) == SIZE_MAX
  {
    forall i | 0 <= i < n && HasUnit(r, Letter(i))
      ensures Shortest(r, n) <= |React(Without(r, Letter(i)))|
    {
      ShortestBelow(r, n, i);
    }
    ShortestAttained(r, n);
    ShortestNone(r, n);
  }

  lemma {:induction false} ShortestBelow(r: string, n: nat, i: nat)
    requires i < n <= 26 && AllLetters(r) && HasUnit(r, Letter(i))
    ensures Shortest(r, n) <= |React(Without(r, Letter(i)))|
  {
    if i < n - 1 {
      ShortestBelow(r, n - 1, i);
    }
  }

  lemma {:induction false} ShortestAttained(r: string, n: nat)
    requires n <= 26 && AllLetters(r)
    ensures Shortest(r, n) == SIZE_MAX ||
            exists i :: 0 <= i < n && HasUnit(r, Letter(i)) && Shortest(r, n) == |React(Without(r, Letter(i)))|
  {
    if n > 0 && Shortest(r, n) != SIZE_MAX {
      if Shortest(r, n) == Shortest(r, n - 1) {
        ShortestAttained(r, n - 1);
        var i :| 0 <= i < n - 1 && HasUnit(r, Letter(i)) && Shortest(r, n - 1) == |React(Without(r, Letter(i)))|;
        assert 0 <= i < n && HasUnit(r, Letter(i)) && Shortest(r, n) == |React(Without(r, Letter(i)))|;
      } else {
        assert HasUnit(r, Letter(n - 1)) && Shortest(r, n) == |React(Without(r, Letter(n - 1)))|;
      }
    }
  }

  lemma {:induction false} ShortestNone(r: string, n: nat)
    requires n <= 26 && AllLetters(r)
    ensures (forall i :: 0 <= i < n ==> !HasUnit(r, Letter(i))) ==> Shortest(r, n) == SIZE_MAX
  {
    if n > 0 {
      ShortestNone(r, n - 1);
    }
  }

  /** Part B's answer for a polymer. */
  function AnswerB(input: string): nat
    requires AllLetters(input)
  {
    ReactLetters(input);
    Shortest(React(input), 26)
  }

  /** Every letter has one of the 26 types, so an empty reacted polymer is
      the only one for which part B stays at `SIZE_MAX`. */
  lemma AnswerBEmpty(input: string)
    requires AllLetters(input)
    ensures React(input) == [] ==> AnswerB(input) == SIZE_MAX
    ensures React(input) != [] ==> AnswerB(input) <= |React(input)|
  {
    ReactLetters(input);
    var r := React(input);
    ShortestIsMin(r, 26);
    if r != [] {
      var l := ToLower(r[0]);
      var i := l as int - 'a' as int;
      assert Letter(i) == l && HasUnit(r, l);
      var w := Without(r, l);
      ReactLength(w);
    }
  }

  /** `copy_if` into `filtered`. */
  method Filter(s: string, l: char) returns (filtered: string)
    requires 'a' <= l <= 'z' && AllLetters(s)
    ensures filtered == Without(s, l)
  {
    filtered := [];
    for k := 0 to |s|
      invariant filtered == Without(s[..k], l)
    {
      assert s[..k + 1][..k] == s[..k];
      if ToLower(s[k]) != l {
        filtered := filtered + [s[k]];
      }
    }
    assert s[..|s|] == s;
  }

  /** The first loop of `resultB`: `has_unit[t]` for every type `t` that
      occurs in the polymer. */
  method UnitTypes(reacted: string) returns (hasUnit: array<bool>)
    requires AllLetters(reacted)
    ensures fresh(hasUnit) && hasUnit.Length == 26
    ensures forall i :: 0 <= i < 26 ==> (hasUnit[i] <==> HasUnit(reacted, Letter(i)))
  {
    hasUnit := new bool[26](_ => false);
    for k := 0 to |reacted|
      invariant forall i :: 0 <= i < 26 ==> (hasUnit[i] <==> exists j :: 0 <= j < k && ToLower(reacted[j]) == Letter(i))
    {
      var i := ToLower(reacted[k]) as int - 'a' as int;
      assert Letter(i) == ToLower(reacted[k]);
      hasUnit[i] := true;
      forall i' | 0 <= i' < 26 && i' != i
        ensures (exists j :: 0 <= j < k + 1 && ToLower(reacted[j]) == Letter(i')) ==>
                (exists j :: 0 <= j < k && ToLower(reacted[j]) == Letter(i'))
      {
        assert Letter(i') != Letter(i);
      }
    }
  }

  /** `resultB`: mark the types present in the reacted polymer, then react
      it again without each of them and keep the shortest length. */
  method ResultB(input: string) returns (minSize: nat)
    requires AllLetters(input)
    ensures minSize == AnswerB(input)
  {
    var reacted := Reaction(input);
    ReactLetters(input);
    var hasUnit := UnitTypes(reacted);
    minSize := SIZE_MAX;
    for i := 0 to 26
      invariant minSize == Shortest(reacted, i)
      invariant forall i :: 0 <= i < 26 ==> (hasUnit[i] <==> HasUnit(reacted, Letter(i)))
    {
      if hasUnit[i] {
        assert HasUnit(reacted, Letter(i));
        var filtered := Filter(reacted, Letter(i));
        var shorter := Reaction(filtered);
        minSize := Min(minSize, |shorter|);
      }
    }
  }
}
