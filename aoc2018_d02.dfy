/** 2018 day 2: box ids. Part A is a checksum over letter counts; part B
    finds two ids that differ in exactly one position, with a trie. */
module Aoc2018D02 {
  import opened Wrappers
  import opened Text

  predicate IsLower(c: char) {
    'a' <= c <= 'z'
  }

  predicate AllLower(s: string) {
    forall k :: 0 <= k < |s| ==> IsLower(s[k])
  }

  /** What `parse_input` accepts: at least one id, all as long as the first
      and made of the letters 'a' to 'z'. */
  predicate ValidIds(ids: seq<string>) {
    ids != [] && forall k :: 0 <= k < |ids| ==> |ids[k]| == |ids[0]| && AllLower(ids[k])
  }

  /** `parse_input`: every word of the stream, which must be read to its end
      and form valid ids. */
  function ParseInput(text: string): (r: Result<seq<string>>)
    ensures r.Ok? <==> ReadAllWords(text).1 && ValidIds(ReadAllWords(text).0)
    ensures r.Ok? ==> r.value == ReadAllWords(text).0
  {
    var (ids, atEnd) := ReadAllWords(text);
    if ids == [] || !atEnd then Err(ParseError(""))
    else if exists k :: 0 <= k < |ids| && (|ids[k]| != |ids[0]| || !AllLower(ids[k])) then Err(ParseError(""))
    else Ok(ids)
  }

  /** Valid ids written one per line parse back to themselves. */
  lemma ParseInputLines(ids: seq<string>)
    requires ValidIds(ids) && ids[0] != []
    ensures ParseInput(WordLines(ids)) == Ok(ids)
  {
    assert AllWords(ids) by {
      forall k | 0 <= k < |ids|
        ensures IsWord(ids[k])
      {
        assert |ids[k]| == |ids[0]|;
      }
    }
    ReadAllWordsLines(ids);
  }

  /** Ids of different lengths are rejected. */
  lemma ParseInputRejectsLengths(a: string, b: string)
    requires a != [] && b != [] && AllLower(a) && AllLower(b) && |a| != |b|
    ensures ParseInput(WordLines([a, b])).Err?
  {
    assert AllWords([a, b]) by {
      assert IsWord(a) && IsWord(b);
    }
    ReadAllWordsLines([a, b]);
  }

  // ---------------------------------------------------------------------
  // resultA

  /** Some letter occurs exactly `n` times in `s`. */
  predicate HasExactly(s: string, n: nat) {
    exists c :: c in s && multiset(s)[c] == n
  }

  /** The number of ids with a letter occurring exactly `n` times. */
  function Tally(ids: seq<string>, n: nat): (r: nat)
    ensures r <= |ids|
  {
    if ids == [] then 0
    else Tally(ids[..|ids| - 1], n) + if HasExactly(ids[|ids| - 1], n) then 1 else 0
  }

  predicate Sorted(t: string) {
    forall i, j :: 0 <= i < j < |t| ==> t[i] <= t[j]
  }

  /** `std::sort` on a copy of an id: its letters in ascending order. */
  function Sort(s: string): (t: string)
    ensures Sorted(t) && multiset(t) == multiset(s)
  {
    if s == [] then []
    else
      assert s == s[..|s| - 1] + [s[|s| - 1]];
      InsertSorted(Sort(s[..|s| - 1]), s[|s| - 1])
  }

  function InsertSorted(t: string, c: char): (r: string)
    requires Sorted(t)
    ensures Sorted(r) && multiset(r) == multiset(t) + multiset{c}
  {
    if t == [] || c <= t[0] then [c] + t
    else
      var rest := InsertSorted(t[1..], c);
      InsertBehindHead(t, c, rest);
      [t[0]] + rest
  }

  /** Inserting behind the smaller first letter keeps it first. */
  lemma InsertBehindHead(t: string, c: char, rest: string)
    requires Sorted(t) && t != [] && t[0] < c
    requires Sorted(rest) && multiset(rest) == multiset(t[1..]) + multiset{c}
    ensures Sorted([t[0]] + rest) && multiset([t[0]] + rest) == multiset(t) + multiset{c}
  {
    assert t == [t[0]] + t[1..];
    forall k | 0 <= k < |rest|
      ensures t[0] <= rest[k]
    {
      assert rest[k] in multiset(rest);
      if rest[k] != c {
        var m :| 0 <= m < |t[1..]| && t[1..][m] == rest[k];
        assert t[m + 1] == rest[k];
      }
    }
  }

  /** A maximal run of equal characters: `t[i..j]`. */
  predicate IsRun(t: string, i: int, j: int) {
    0 <= i < j <= |t| &&
    (forall k :: i <= k < j ==> t[k] == t[i]) &&
    (i == 0 || t[i - 1] != t[i]) &&
    (j == |t| || t[j] != t[i])
  }

  /** Two maximal runs that overlap are the same run. */
  lemma RunsDisjoint(t: string, a: int, b: int, i: int, j: int)
    requires IsRun(t, a, b) && IsRun(t, i, j) && a < j && i < b
    ensures a == i && b == j
  {
  }

  /** The per-id loop of `resultA` over a sorted copy: `adjacent_find` marks
      the end of each run of equal letters, and runs of length 2 and 3 set the
      two flags. */
  method RunFlags(t: string) returns (hasTwo: bool, hasThree: bool)
    ensures hasTwo <==> exists i, j :: IsRun(t, i, j) && j - i == 2
    ensures hasThree <==> exists i, j :: IsRun(t, i, j) && j - i == 3
  {
    hasTwo, hasThree := false, false;
    var i := 0;
    while i != |t|
      invariant 0 <= i <= |t|
      invariant 0 < i < |t| ==> t[i - 1] != t[i]
      invariant hasTwo <==> exists a, b :: IsRun(t, a, b) && b <= i && b - a == 2
      invariant hasThree <==> exists a, b :: IsRun(t, a, b) && b <= i && b - a == 3
      decreases |t| - i
    {
      // std::adjacent_find(i, end, !=)
      var f := i;
      while f + 1 < |t| && t[f] == t[f + 1]
        invariant i <= f < |t|
        invariant forall k :: i <= k <= f ==> t[k] == t[i]
      {
        f := f + 1;
      }
      if f + 1 >= |t| {
        f := |t|;
      }
      var j := if f != |t| then f + 1 else f;
      assert IsRun(t, i, j);
      forall a, b | IsRun(t, a, b) && i < b <= j
        ensures a == i && b == j
      {
        RunsDisjoint(t, a, b, i, j);
      }
      var count := j - i;
      if count == 2 {
        hasTwo := true;
      } else if count == 3 {
        hasThree := true;
      }
      i := j;
    }
  }

  /** In a sorted string a maximal run holds every occurrence of its letter. */
  lemma RunCount(t: string, i: int, j: int)
    requires Sorted(t) && IsRun(t, i, j)
    ensures multiset(t)[t[i]] == j - i
  {
    NoneBefore(t, i);
    NoneAfter(t, i, j);
    CountSplit(t, i, j, t[i]);
  }

  lemma CountSplit(t: string, i: int, j: int, c: char)
    requires 0 <= i <= j <= |t|
    requires c !in t[..i] && c !in t[j..]
    requires forall k :: i <= k < j ==> t[k] == c
    ensures multiset(t)[c] == j - i
  {
    var pre, mid, post := t[..i], t[i..j], t[j..];
    assert t == pre + mid + post;
    assert multiset(t) == multiset(pre) + multiset(mid) + multiset(post);
    AllSameCount(mid, c);
  }

  lemma NoneBefore(t: string, i: int)
    requires Sorted(t) && 0 <= i < |t| && (i == 0 || t[i - 1] != t[i])
    ensures t[i] !in t[..i]
  {
    forall m | 0 <= m < i
      ensures t[m] != t[i]
    {
      assert t[m] <= t[i - 1];
    }
  }

  lemma NoneAfter(t: string, i: int, j: int)
    requires Sorted(t) && IsRun(t, i, j)
    ensures t[i] !in t[j..]
  {
    forall m | j <= m < |t|
      ensures t[m] != t[i]
    {
      assert t[j - 1] == t[i] && t[j] <= t[m];
    }
  }

  lemma {:induction false} AllSameCount(s: string, c: char)
    requires forall k :: 0 <= k < |s| ==> s[k] == c
    ensures multiset(s)[c] == |s|
  {
    if s != [] {
      assert s == s[..|s| - 1] + [c];
      AllSameCount(s[..|s| - 1], c);
    }
  }

  /** Every letter of a string has a maximal run in its sorted copy. */
  lemma RunOf(t: string, c: char) returns (i: int, j: int)
    requires c in t
    ensures IsRun(t, i, j) && t[i] == c
  {
    var w :| 0 <= w < |t| && t[w] == c;
    i := 0;
    while t[i] != c
      invariant 0 <= i <= w
      decreases w - i
      invariant forall m :: 0 <= m < i ==> t[m] != c
    {
      i := i + 1;
    }
    j := i;
    while j < |t| && t[j] == c
      invariant i <= j <= |t|
      invariant forall m :: i <= m < j ==> t[m] == c
    {
      j := j + 1;
    }
  }

  /** On a sorted string the run lengths are the letter counts, so the flags
      of `RunFlags` say whether some letter occurs exactly 2 or 3 times. */
  lemma SortedRuns(t: string, n: nat)
    requires Sorted(t) && n > 0
    ensures (exists i, j :: IsRun(t, i, j) && j - i == n) <==> HasExactly(t, n)
  {
    if exists i, j :: IsRun(t, i, j) && j - i == n {
      var i, j :| IsRun(t, i, j) && j - i == n;
      RunCount(t, i, j);
      assert t[i] in t;
    }
    if HasExactly(t, n) {
      var c :| c in t && multiset(t)[c] == n;
      var i, j := RunOf(t, c);
      RunCount(t, i, j);
    }
  }

  /** The per-id body of `resultA`: sort a copy, then scan its runs. */
  method IdFlags(id: string) returns (hasTwo: bool, hasThree: bool)
    ensures hasTwo == HasExactly(id, 2) && hasThree == HasExactly(id, 3)
  {
    var t := Sort(id);
    hasTwo, hasThree := RunFlags(t);
    SortedRuns(t, 2);
    SortedRuns(t, 3);
    SameLetters(t, id, 2);
    SameLetters(t, id, 3);
  }

  /** `resultA`: the number of ids with a letter occurring exactly twice
      times the number with one occurring exactly three times. */
  method ResultA(ids: seq<string>) returns (r: nat)
    ensures r == Tally(ids, 2) * Tally(ids, 3)
  {
    var exactly2, exactly3 := 0, 0;
    for k := 0 to |ids|
      invariant exactly2 == Tally(ids[..k], 2) && exactly3 == Tally(ids[..k], 3)
    {
      exactly2, exactly3 := CountId(ids, k, exactly2, exactly3);
    }
    assert ids[..|ids|] == ids;
    r := exactly2 * exactly3;
  }

  /** One iteration of `resultA`'s loop: the tallies grow by the flags of `ids[k]`. */
  method CountId(ids: seq<string>, k: nat, exactly2: nat, exactly3: nat) returns (next2: nat, next3: nat)
    requires k < |ids|
    requires exactly2 == Tally(ids[..k], 2) && exactly3 == Tally(ids[..k], 3)
    ensures next2 == Tally(ids[..k + 1], 2) && next3 == Tally(ids[..k + 1], 3)
  {
    var hasTwo, hasThree := IdFlags(ids[k]);
    TallyStep(ids, k, 2);
    TallyStep(ids, k, 3);
    next2 := exactly2 + if hasTwo then 1 else 0;
    next3 := exactly3 + if hasThree then 1 else 0;
  }

  lemma TallyStep(ids: seq<string>, k: nat, n: nat)
    requires k < |ids|
    ensures Tally(ids[..k + 1], n) == Tally(ids[..k], n) + if HasExactly(ids[k], n) then 1 else 0
  {
    assert ids[..k + 1][..k] == ids[..k];
  }

  /** Letter counts depend only on the multiset of letters. */
  lemma SameLetters(t: string, s: string, n: nat)
    requires multiset(t) == multiset(s)
    ensures HasExactly(t, n) == HasExactly(s, n)
  {
    if HasExactly(t, n) {
      var c :| c in t && multiset(t)[c] == n;
      assert c in multiset(s);
    }
    if HasExactly(s, n) {
      var c :| c in s && multiset(s)[c] == n;
      assert c in multiset(t);
    }
  }

  // ---------------------------------------------------------------------
  // The trie of part B. A node is identified by the path that leads to it
  // from the root, so the trie is the set of its paths; a child pointer is
  // present exactly when the path extended by that letter is in the set.

  /** Every proper prefix of a path is a path. */
  predicate PrefixClosed(paths: set<string>) {
    forall p :: p in paths && p != [] ==> p[..|p| - 1] in paths
  }

  /** The prefixes of `s`, `s` and the empty string included. */
  function Prefixes(s: string): (r: set<string>)
  {
    if s == [] then {[]} else Prefixes(s[..|s| - 1]) + {s}
  }

  /** The prefixes of `s` are the strings `s` starts with. */
  lemma {:induction false} PrefixesIff(s: string)
    ensures forall p :: p in Prefixes(s) <==> |p| <= |s| && p == s[..|p|]
  {
    if s != [] {
      PrefixesIff(s[..|s| - 1]);
      forall p
        ensures p in Prefixes(s) <==> |p| <= |s| && p == s[..|p|]
      {
        if |p| < |s| {
          assert s[..|s| - 1][..|p|] == s[..|p|];
        } else if |p| == |s| {
          assert s[..|s|] == s;
        }
      }
    }
  }

  /** The letter of child slot `c`. */
  function Letter(c: nat): (ch: char)
    requires c < 26
    ensures IsLower(ch) && ch as int - 'a' as int == c
  {
    ('a' as int + c) as char
  }

  class Trie {
    var paths: set<string>

    ghost predicate Valid()
      reads this
    {
      TrieSet(paths)
    }

    /** A trie holding only its root. */
    constructor()
      ensures Valid() && paths == {[]}
    {
      paths := {[]};
    }

    /** `insert`: follow the existing children, then create the remaining
        nodes one letter at a time. */
    method Insert(s: string)
      requires Valid() && AllLower(s)
      modifies this
      ensures Valid() && paths == old(paths) + Prefixes(s)
    {
      var i := 0;
      while i < |s|
        invariant 0 <= i <= |s|
        invariant TrieSet(paths) && paths == old(paths) + Prefixes(s[..i])
      {
        InsertStep(old(paths), paths, s, i);
        if s[..i + 1] in paths {
          assert paths + {s[..i + 1]} == paths;
          i := i + 1;
        } else {
          AddRemaining(s, i, old(paths));
          i := |s|;
        }
      }
      assert s[..|s|] == s;
    }

    /** The inner loop of `insert`: a new node for each remaining letter. */
    method AddRemaining(s: string, i0: nat, ghost before: set<string>)
      requires i0 <= |s| && AllLower(s)
      requires TrieSet(paths) && paths == before + Prefixes(s[..i0])
      modifies this
      ensures TrieSet(paths) && paths == before + Prefixes(s[..|s|])
    {
      var i := i0;
      while i < |s|
        invariant i0 <= i <= |s|
        invariant TrieSet(paths) && paths == before + Prefixes(s[..i])
      {
        InsertStep(before, paths, s, i);
        paths := paths + {s[..i + 1]};
        i := i + 1;
      }
    }

    /** `find_similar`: walk down the trie along `str` while the next letter
        has a child; at the first letter with none, spend one unit of `dis`
        on each child in turn and search the rest of `str` below it. */
    method FindSimilar(node: string, str: string, dis: nat) returns (r: Option<string>)
      requires Valid() && node in paths && AllLower(str)
      ensures r == Similar(paths, node, str, dis)
      decreases |str|
    {
      var at := node;
      var path := "";
      var i := 0;
      while i < |str|
        invariant 0 <= i <= |str| && path == str[..i] && at == node + path && at in paths
        invariant Walk(paths, node, str, i, dis) == Similar(paths, node, str, dis)
      {
        var next := at + [str[i]];
        if next in paths {
          path := path + [str[i]];
          at := next;
          i := i + 1;
          continue;
        }
        if dis == 0 {
          return None;
        }
        var rest := str[i + 1..];
        var c := 0;
        while c < 26
          invariant 0 <= c <= 26
          invariant Children(paths, at, rest, dis - 1, c) == Children(paths, at, rest, dis - 1, 0)
        {
          var child := at + [Letter(c)];
          if child in paths {
            var res := FindSimilar(child, rest, dis - 1);
            if res.Some? {
              return Some(path + res.value);
            }
          }
          c := c + 1;
        }
        // `break`: the budget is not zero here, so no match
        return None;
      }
      assert path == str;
      if dis == 0 {
        return Some(path);
      }
      return None;
    }

    /** `find`: a string one letter away from `s` along the trie, with the
        differing letter removed. */
    method Find(s: string) returns (r: Option<string>)
      requires Valid() && AllLower(s)
      ensures r == Similar(paths, [], s, 1)
    {
      r := FindSimilar([], s, 1);
    }
  }

  lemma PrefixesStep(s: string, i: nat)
    requires i < |s|
    ensures Prefixes(s[..i + 1]) == Prefixes(s[..i]) + {s[..i + 1]}
  {
    assert s[..i + 1][..i] == s[..i];
  }

  /** The paths of a trie: the root, every parent of a node, all lower-case. */
  ghost predicate TrieSet(paths: set<string>) {
    [] in paths && PrefixClosed(paths) && forall p :: p in paths ==> AllLower(p)
  }

  /** One more letter of `insert`: the node of the next prefix, whether it
      is already there or is created, keeps the paths a trie. */
  lemma InsertStep(before: set<string>, paths: set<string>, s: string, i: nat)
    requires i < |s| && AllLower(s) && TrieSet(paths) && paths == before + Prefixes(s[..i])
    ensures TrieSet(paths + {s[..i + 1]}) && paths + {s[..i + 1]} == before + Prefixes(s[..i + 1])
  {
    PrefixesStep(s, i);
    var p := s[..i + 1];
    assert p[..|p| - 1] == s[..i];
    PrefixesIff(s[..i]);
    assert s[..i] in Prefixes(s[..i]);
    AddChild(paths, p);
  }

  /** Adding a path whose parent is present keeps the set prefix-closed. */
  lemma AddChild(paths: set<string>, p: string)
    requires PrefixClosed(paths) && p != [] && p[..|p| - 1] in paths
    ensures PrefixClosed(paths + {p})
  {
  }

  // Specification of `find_similar` on the set of paths. `Walk` is the state
  // of the loop at position `i`, `Children` the scan over the child slots
  // from slot `c`.

  function Similar(paths: set<string>, node: string, str: string, dis: nat): (r: Option<string>)
    ensures dis == 0 && r.Some? ==> r.value == str
    decreases |str|, 2, 0
  {
    Walk(paths, node, str, 0, dis)
  }

  function Walk(paths: set<string>, node: string, str: string, i: nat, dis: nat): (r: Option<string>)
    requires i <= |str|
    ensures dis == 0 && r.Some? ==> r.value == str
    decreases |str|, 1, |str| - i
  {
    var at := node + str[..i];
    if i == |str| then
      if dis == 0 then Some(str) else None
    else if at + [str[i]] in paths then
      Walk(paths, node, str, i + 1, dis)
    else if dis == 0 then
      None
    else
      match Children(paths, at, str[i + 1..], dis - 1, 0)
      case Some(r) => Some(str[..i] + r)
      case None => None
  }

  function Children(paths: set<string>, at: string, rest: string, dis: nat, c: nat): Option<string>
    requires c <= 26
    decreases |rest|, 3, 26 - c
  {
    if c == 26 then None
    else if at + [Letter(c)] in paths then
      match Similar(paths, at + [Letter(c)], rest, dis)
      case Some(r) => Some(r)
      case None => Children(paths, at, rest, dis, c + 1)
    else Children(paths, at, rest, dis, c + 1)
  }

  lemma {:induction false} PrefixIn(paths: set<string>, p: string, k: nat)
    requires PrefixClosed(paths) && p in paths && k <= |p|
    ensures p[..k] in paths
    decreases |p| - k
  {
    if k < |p| {
      var q := p[..|p| - 1];
      PrefixIn(paths, q, k);
      assert q[..k] == p[..k];
    } else {
      assert p[..k] == p;
    }
  }

  /** With no budget, the walk from `node` succeeds exactly when all of
      `str` is a path below it, and then returns `str`. */
  lemma SimilarExact(paths: set<string>, node: string, str: string)
    requires PrefixClosed(paths) && node in paths
    ensures Similar(paths, node, str, 0) == if node + str in paths then Some(str) else None
  {
    assert node + str[..0] == node;
    WalkExact(paths, node, str, 0);
  }

  lemma {:induction false} WalkExact(paths: set<string>, node: string, str: string, i: nat)
    requires PrefixClosed(paths) && i <= |str| && node + str[..i] in paths
    ensures Walk(paths, node, str, i, 0) == if node + str in paths then Some(str) else None
    decreases |str| - i
  {
    var at := node + str[..i];
    if i == |str| {
      assert str[..i] == str;
    } else if at + [str[i]] in paths {
      assert node + str[..i + 1] == at + [str[i]];
      WalkExact(paths, node, str, i + 1);
    } else {
      assert (node + str)[..|node| + i + 1] == at + [str[i]];
      NotPath(paths, node + str, |node| + i + 1);
    }
  }

  lemma NotPath(paths: set<string>, q: string, k: nat)
    requires PrefixClosed(paths) && k <= |q| && q[..k] !in paths
    ensures q !in paths
  {
    if q in paths {
      PrefixIn(paths, q, k);
    }
  }

  /** A result of the search is `str` shortened by the budget spent. */
  lemma {:induction false} SimilarLength(paths: set<string>, node: string, str: string, dis: nat)
    ensures Similar(paths, node, str, dis).Some? ==> |Similar(paths, node, str, dis).value| + dis == |str|
    decreases |str|, 2, 0
  {
    WalkLength(paths, node, str, 0, dis);
  }

  lemma {:induction false} WalkLength(paths: set<string>, node: string, str: string, i: nat, dis: nat)
    requires i <= |str|
    ensures Walk(paths, node, str, i, dis).Some? ==> |Walk(paths, node, str, i, dis).value| + dis == |str|
    decreases |str|, 1, |str| - i
  {
    var at := node + str[..i];
    if i == |str| {
    } else if at + [str[i]] in paths {
      WalkLength(paths, node, str, i + 1, dis);
    } else if dis != 0 {
      ChildrenLength(paths, at, str[i + 1..], dis - 1, 0);
    }
  }

  lemma {:induction false} ChildrenLength(paths: set<string>, at: string, rest: string, dis: nat, c: nat)
    requires c <= 26
    ensures Children(paths, at, rest, dis, c).Some? ==> |Children(paths, at, rest, dis, c).value| + dis == |rest|
    decreases |rest|, 3, 26 - c
  {
    if c < 26 {
      if at + [Letter(c)] in paths {
        SimilarLength(paths, at + [Letter(c)], rest, dis);
      }
      ChildrenLength(paths, at, rest, dis, c + 1);
    }
  }

  /** The scan over the children fails exactly when the search fails below
      every present child from slot `c` on; otherwise the first success in
      slot order is returned. */
  lemma {:induction false} ChildrenNone(paths: set<string>, at: string, rest: string, dis: nat, c: nat)
    requires c <= 26
    ensures Children(paths, at, rest, dis, c).None? <==>
            forall d :: c <= d < 26 && at + [Letter(d)] in paths ==> Similar(paths, at + [Letter(d)], rest, dis).None?
    decreases 26 - c
  {
    if c < 26 {
      ChildrenNone(paths, at, rest, dis, c + 1);
    }
  }

  /** A string that is already a whole path is never one letter away. */
  lemma SimilarOfPath(paths: set<string>, node: string, str: string, dis: nat)
    requires PrefixClosed(paths) && node + str in paths && dis > 0
    ensures Similar(paths, node, str, dis).None?
  {
    assert node + str[..0] == node;
    PrefixIn(paths, node + str, |node|);
    assert (node + str)[..|node|] == node;
    WalkOfPath(paths, node, str, 0, dis);
  }

  lemma {:induction false} WalkOfPath(paths: set<string>, node: string, str: string, i: nat, dis: nat)
    requires PrefixClosed(paths) && node + str in paths && dis > 0 && i <= |str|
    ensures Walk(paths, node, str, i, dis).None?
    decreases |str| - i
  {
    if i < |str| {
      PrefixIn(paths, node + str, |node| + i + 1);
      assert (node + str)[..|node| + i + 1] == node + str[..i] + [str[i]];
      WalkOfPath(paths, node, str, i + 1, dis);
    }
  }

  /** With a budget of one, a result is `str` with one position `p` removed,
      and the trie holds `str` with a different letter at `p`. */
  lemma SimilarSound(paths: set<string>, node: string, str: string)
    requires PrefixClosed(paths) && node in paths && Similar(paths, node, str, 1).Some?
    ensures exists p, c :: 0 <= p < |str| && c != str[p] &&
                           Similar(paths, node, str, 1).value == str[..p] + str[p + 1..] &&
                           node + str[..p] + [c] + str[p + 1..] in paths
  {
    var p, c := SimilarWitness(paths, node, str);
  }

  lemma SimilarWitness(paths: set<string>, node: string, str: string) returns (p: nat, c: char)
    requires PrefixClosed(paths) && node in paths && Similar(paths, node, str, 1).Some?
    ensures p < |str| && c != str[p] && Similar(paths, node, str, 1).value == str[..p] + str[p + 1..]
    ensures node + str[..p] + [c] + str[p + 1..] in paths
  {
    assert node + str[..0] == node;
    WalkSound(paths, node, str, 0);
    p, c :| 0 <= p < |str| && c != str[p] &&
           Walk(paths, node, str, 0, 1).value == str[..p] + str[p + 1..] &&
           node + str[..p] + [c] + str[p + 1..] in paths;
  }

  lemma {:induction false} WalkSound(paths: set<string>, node: string, str: string, i: nat)
    requires PrefixClosed(paths) && i <= |str| && node + str[..i] in paths
    requires Walk(paths, node, str, i, 1).Some?
    ensures exists p, c :: i <= p < |str| && c != str[p] &&
                           Walk(paths, node, str, i, 1).value == str[..p] + str[p + 1..] &&
                           node + str[..p] + [c] + str[p + 1..] in paths
    decreases |str| - i
  {
    var at := node + str[..i];
    if at + [str[i]] in paths {
      assert node + str[..i + 1] == at + [str[i]];
      WalkSound(paths, node, str, i + 1);
    } else {
      var rest := str[i + 1..];
      var d := ChildrenSound(paths, at, rest, 0);
      PrefixIn(paths, at + [Letter(d)] + rest, |at| + 1);
      assert (at + [Letter(d)] + rest)[..|at| + 1] == at + [Letter(d)];
      assert node + str[..i] + [Letter(d)] + str[i + 1..] == at + [Letter(d)] + rest;
    }
  }

  lemma {:induction false} ChildrenSound(paths: set<string>, at: string, rest: string, c: nat) returns (d: nat)
    requires PrefixClosed(paths) && c <= 26 && Children(paths, at, rest, 0, c).Some?
    ensures c <= d < 26 && at + [Letter(d)] + rest in paths && Children(paths, at, rest, 0, c).value == rest
    decreases 26 - c
  {
    if at + [Letter(c)] in paths && Similar(paths, at + [Letter(c)], rest, 0).Some? {
      SimilarExact(paths, at + [Letter(c)], rest);
      d := c;
    } else {
      d := ChildrenSound(paths, at, rest, c + 1);
    }
  }

  // ---------------------------------------------------------------------
  // resultB

  /** The paths of a trie after inserting `ids` in order. */
  function PathsOf(ids: seq<string>): set<string> {
    if ids == [] then {[]} else PathsOf(ids[..|ids| - 1]) + Prefixes(ids[|ids| - 1])
  }

  /** The answer of the loop of `resultB` from id `i` on: the first id the
      trie of the earlier ids finds a near match for. */
  function Hits(ids: seq<string>, i: nat): (r: Option<string>)
    requires 1 <= i <= |ids|
    ensures r.None? <==> forall k :: i <= k < |ids| ==> Similar(PathsOf(ids[..k]), [], ids[k], 1).None?
    decreases |ids| - i
  {
    if i == |ids| then None
    else match Similar(PathsOf(ids[..i]), [], ids[i], 1)
      case Some(r) => Some(r)
      case None => Hits(ids, i + 1)
  }

  /** `resultB`: insert the first id, then look each later id up before
      inserting it. */
  method ResultB(ids: seq<string>) returns (r: Option<string>)
    requires ids != [] && forall k :: 0 <= k < |ids| ==> AllLower(ids[k])
    ensures r == Hits(ids, 1)
  {
    var trie := new Trie();
    trie.Insert(ids[0]);
    assert ids[..1] == [ids[0]] && [ids[0]][..0] == [];
    for i := 1 to |ids|
      invariant trie.Valid() && trie.paths == PathsOf(ids[..i])
      invariant Hits(ids, i) == Hits(ids, 1)
    {
      var str := ids[i];
      var result := trie.Find(str);
      if result.Some? {
        return result;
      }
      trie.Insert(str);
      assert ids[..i + 1][..i] == ids[..i];
    }
    r := None;
  }

  /** Two ids of the same length that differ exactly at position `p`. */
  predicate OneApartAt(a: string, b: string, p: int) {
    |a| == |b| && 0 <= p < |a| && a[p] != b[p] &&
    forall k :: 0 <= k < |a| && k != p ==> a[k] == b[k]
  }

  /** `a` with position `p` removed: the letters two such ids share. */
  function Common(a: string, p: nat): string
    requires p < |a|
  {
    a[..p] + a[p + 1..]
  }

  lemma CommonLower(s: string, p: nat)
    requires AllLower(s) && p < |s|
    ensures AllLower(Common(s, p))
  {
    var r := Common(s, p);
    forall m | 0 <= m < |r|
      ensures IsLower(r[m])
    {
      if m < p {
        assert r[m] == s[m];
      } else {
        assert r[m] == s[m + 1];
      }
    }
  }

  lemma {:induction false} PathsOfClosed(ids: seq<string>)
    ensures [] in PathsOf(ids) && PrefixClosed(PathsOf(ids))
  {
    if ids != [] {
      PathsOfClosed(ids[..|ids| - 1]);
      var last := ids[|ids| - 1];
      PrefixesIff(last);
      forall p | p in PathsOf(ids) && p != []
        ensures p[..|p| - 1] in PathsOf(ids)
      {
        if p in Prefixes(last) {
          assert p[..|p| - 1] == last[..|p| - 1];
        }
      }
    }
  }

  /** A non-empty path as long as every id is one of the ids. */
  lemma {:induction false} FullPaths(ids: seq<string>, p: string)
    requires p in PathsOf(ids) && p != [] && forall k :: 0 <= k < |ids| ==> |ids[k]| == |p|
    ensures exists j :: 0 <= j < |ids| && ids[j] == p
  {
    var init := ids[..|ids| - 1];
    PrefixesIff(ids[|ids| - 1]);
    if p in Prefixes(ids[|ids| - 1]) {
      assert ids[|ids| - 1] == p;
    } else {
      FullPaths(init, p);
      var j :| 0 <= j < |init| && init[j] == p;
      assert ids[j] == p;
    }
  }

  /** A near match found for `str` in the trie of `prev` pairs it with one
      of `prev`. */
  lemma MatchIn(prev: seq<string>, str: string)
    requires forall k :: 0 <= k < |prev| ==> |prev[k]| == |str|
    requires Similar(PathsOf(prev), [], str, 1).Some?
    ensures exists j, p :: 0 <= j < |prev| && OneApartAt(prev[j], str, p) &&
                           Similar(PathsOf(prev), [], str, 1).value == Common(str, p)
  {
    var paths := PathsOf(prev);
    PathsOfClosed(prev);
    var p, c := SimilarWitness(paths, [], str);
    var w := [] + str[..p] + [c] + str[p + 1..];
    ChangedAt(w, str, p, c);
    FullPaths(prev, w);
    var j :| 0 <= j < |prev| && prev[j] == w;
    var r := Similar(paths, [], str, 1).value;
    assert r == Common(str, p);
    assert 0 <= j < |prev| && OneApartAt(prev[j], str, p) && r == Common(str, p);
  }

  lemma ChangedAt(w: string, str: string, p: nat, c: char)
    requires p < |str| && c != str[p] && w == [] + str[..p] + [c] + str[p + 1..]
    ensures OneApartAt(w, str, p) && w != []
  {
    assert w[p] == c;
    forall k | 0 <= k < |w| && k != p
      ensures w[k] == str[k]
    {
      if k < p {
        assert w[k] == str[..p][k];
      } else {
        assert w[k] == str[p + 1..][k - p - 1];
      }
    }
  }

  /** A near match found for id `i` pairs it with an earlier id. */
  lemma HitAt(ids: seq<string>, i: nat)
    requires ValidIds(ids) && 1 <= i < |ids| && Similar(PathsOf(ids[..i]), [], ids[i], 1).Some?
    ensures exists j, p :: 0 <= j < i && OneApartAt(ids[j], ids[i], p) &&
                           Similar(PathsOf(ids[..i]), [], ids[i], 1).value == Common(ids[i], p)
  {
    forall k | 0 <= k < |ids[..i]|
      ensures |ids[..i][k]| == |ids[i]|
    {
      assert |ids[k]| == |ids[0]|;
    }
    MatchIn(ids[..i], ids[i]);
  }

  /** Every answer of `resultB` on valid ids is the common part of a later
      id and an earlier id one letter apart. */
  lemma {:induction false} HitSound(ids: seq<string>, i: nat)
    requires ValidIds(ids) && 1 <= i <= |ids| && Hits(ids, i).Some?
    ensures exists j, k, p :: 0 <= j < k < |ids| && OneApartAt(ids[j], ids[k], p) &&
                              Hits(ids, i).value == Common(ids[k], p)
    decreases |ids| - i
  {
    if Similar(PathsOf(ids[..i]), [], ids[i], 1).Some? {
      HitAt(ids, i);
    } else {
      HitSound(ids, i + 1);
    }
  }

  /** The greedy walk never backtracks over a letter it could follow, so it
      can miss a near match: "abc" follows 'a' from "aaa" and fails below
      it, although "bbc" differs from it only in its first letter. */
  lemma GreedyMiss()
    ensures OneApartAt("bbc", "abc", 0)
    ensures Hits(["aaa", "bbc", "abc"], 1).None?
  {
    var ids := ["aaa", "bbc", "abc"];
    assert ids[..1] == ["aaa"];
    assert ids[..2] == ["aaa", "bbc"];
    Paths1();
    Paths2();
    FirstMiss(PathsOf(["aaa"]));
    SecondMiss(PathsOf(["aaa", "bbc"]));
  }

  lemma Paths1()
    ensures PathsOf(["aaa"]) == {[], "a", "aa", "aaa"}
  {
    assert ["aaa"][..0] == [];
    Prefixes3("aaa");
    assert "aaa"[..1] == "a" && "aaa"[..2] == "aa";
  }

  lemma Paths2()
    ensures PathsOf(["aaa", "bbc"]) == {[], "a", "aa", "aaa", "b", "bb", "bbc"}
  {
    assert ["aaa", "bbc"][..1] == ["aaa"];
    Paths1();
    Prefixes3("bbc");
    assert "bbc"[..1] == "b" && "bbc"[..2] == "bb";
  }

  lemma Prefixes3(s: string)
    requires |s| == 3
    ensures Prefixes(s) == {[], s[..1], s[..2], s}
  {
    assert s[..1][..0] == [];
    assert Prefixes(s[..1]) == {[], s[..1]};
    assert s[..2][..1] == s[..1];
    assert Prefixes(s[..2]) == {[], s[..1], s[..2]};
    assert s[..2] == s[..|s| - 1];
  }

  /** "bbc" against the trie of "aaa": the root has no child 'b', and
      below its only child 'a' there is no 'b'. */
  lemma FirstMiss(paths: set<string>)
    requires paths == {[], "a", "aa", "aaa"}
    ensures Similar(paths, [], "bbc", 1).None?
  {
    assert [] + "bbc"[..0] + ['b'] == "b";
    assert "bbc"[1..] == "bc";
    forall d | 0 <= d < 26 && [] + [Letter(d)] in paths
      ensures Similar(paths, [] + [Letter(d)], "bc", 0).None?
    {
      assert [] + [Letter(d)] == "a";
      assert "a" + "bc"[..0] + ['b'] == "ab";
    }
    ChildrenNone(paths, [], "bc", 0, 0);
  }

  /** "abc" against the trie of "aaa" and "bbc": the walk follows 'a',
      which has no child 'b', and below its only child 'a' there is no
      'c'. */
  lemma SecondMiss(paths: set<string>)
    requires paths == {[], "a", "aa", "aaa", "b", "bb", "bbc"}
    ensures Similar(paths, [], "abc", 1).None?
  {
    assert "abc"[..1] == "a" && "abc"[2..] == "c";
    assert [] + "abc"[..1] == "a";
    assert [] + "abc"[..1] + ['b'] == "ab";
    forall d | 0 <= d < 26 && "a" + [Letter(d)] in paths
      ensures Similar(paths, "a" + [Letter(d)], "c", 0).None?
    {
      var w := "a" + [Letter(d)];
      assert |w| == 2 && w[0] == 'a';
      assert w != "bb" by {
        assert "bb"[0] != w[0];
      }
      assert w == "aa";
      assert "aa" + "c"[..0] + ['c'] == "aac";
    }
    ChildrenNone(paths, "a", "c", 0, 0);
    assert Walk(paths, [], "abc", 1, 1).None?;
    assert [] + "abc"[..0] + ['a'] == "a";
  }

  // ---------------------------------------------------------------------
  // The intended part B: compare each id with every earlier id.

  /** Id `i` has an earlier id one letter away. */
  ghost predicate HasPartner(ids: seq<string>, i: int)
    requires 0 <= i < |ids|
  {
    exists j, p :: 0 <= j < i && OneApartAt(ids[j], ids[i], p)
  }

  /** The only position where `a` and `b` differ, if there is exactly one. */
  method OnlyMismatch(a: string, b: string) returns (m: Option<nat>)
    requires |a| == |b|
    ensures m.Some? ==> OneApartAt(a, b, m.value)
    ensures m.None? ==> forall p :: !OneApartAt(a, b, p)
  {
    m := None;
    for k := 0 to |a|
      invariant m.None? ==> forall q :: 0 <= q < k ==> a[q] == b[q]
      invariant m.Some? ==> m.value < k && a[m.value] != b[m.value] &&
                            forall q :: 0 <= q < k && q != m.value ==> a[q] == b[q]
    {
      if a[k] != b[k] {
        if m.Some? {
          var q := m.value;
          assert forall p :: OneApartAt(a, b, p) ==> p == k && p == q;
          return None;
        }
        m := Some(k);
      }
    }
  }

  /** `resultB` as intended: the common letters of the first id, in input
      order, that is one letter away from an earlier id. */
  method ResultBPairwise(ids: seq<string>) returns (r: Option<string>)
    ensures r.None? <==> forall i :: 0 <= i < |ids| ==> !HasPartner(ids, i)
    ensures r.Some? ==> exists i, j, p :: 0 <= j < i < |ids| && OneApartAt(ids[j], ids[i], p) &&
                                          r.value == Common(ids[i], p) &&
                                          forall i' :: 0 <= i' < i ==> !HasPartner(ids, i')
  {
    for i := 0 to |ids|
      invariant forall i' :: 0 <= i' < i ==> !HasPartner(ids, i')
    {
      for j := 0 to i
        invariant forall j', p :: 0 <= j' < j ==> !OneApartAt(ids[j'], ids[i], p)
      {
        if |ids[j]| == |ids[i]| {
          var m := OnlyMismatch(ids[j], ids[i]);
          if m.Some? {
            assert HasPartner(ids, i);
            return Some(Common(ids[i], m.value));
          }
        }
      }
    }
    return None;
  }
}
