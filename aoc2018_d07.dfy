/** 2018 day 7: steps with prerequisites, named 'A' to 'Z'. Part A lists
    them in the order one worker does them, alphabetically first when
    several are ready; part B is the time five workers take, step `t`
    lasting `t + 61` seconds. Bitsets of 26 bits are sets of indices below
    `N`. */
module Aoc2018D07 {
  import opened Wrappers
  import opened Text

  const N: nat := 26

  /** A `std::bitset<N>` with every bit set. */
  function All(): (s: set<nat>)
    ensures forall t: int :: t in s <==> 0 <= t < N
  {
    Below(N)
  }

  function Below(n: nat): (s: set<nat>)
    ensures forall t: int :: t in s <==> 0 <= t < n
  {
    if n == 0 then {} else Below(n - 1) + {n - 1}
  }

  /** `graph_t`: `edges[b]` holds the prerequisites of `b`. */
  datatype Graph = Graph(edges: seq<set<nat>>, vertices: set<nat>)

  /** What a parsed graph satisfies: 26 rows, and every prerequisite, and
      every step that has one, is a vertex. */
  predicate WellFormed(g: Graph) {
    |g.edges| == N && g.vertices <= All() &&
    forall t :: 0 <= t < N ==> g.edges[t] <= g.vertices && (g.edges[t] != {} ==> t in g.vertices)
  }

  // ---------------------------------------------------------------------
  // parse_input

  predicate IsUpper(c: char) {
    'A' <= c <= 'Z'
  }

  /** What ECMAScript's `.` does not match. */
  predicate LineTerminator(c: char) {
    c == '\n' || c == '\r' || c == '\U{2028}' || c == '\U{2029}'
  }

  /** `std::regex_match` against "Step ([A-Z]) must be finished before step
      ([A-Z]) can begin." (whose final `.` matches any character but a
      line terminator): the two step indices. */
  function MatchStep(line: string): (r: Option<(nat, nat)>)
    ensures r.Some? ==> r.value.0 < N && r.value.1 < N
  {
    if |line| == 48 && line[..5] == "Step " && IsUpper(line[5]) &&
       line[6..36] == " must be finished before step " && IsUpper(line[36]) &&
       line[37..47] == " can begin" && !LineTerminator(line[47])
    then Some(((line[5] as int - 'A' as int) as nat, (line[36] as int - 'A' as int) as nat))
    else None
  }

  function Letter(t: nat): char
    requires t < N
  {
    (t + 'A' as int) as char
  }

  /** The line the puzzle writes for "`a` before `b`". */
  function StepLine(a: nat, b: nat): string
    requires a < N && b < N
  {
    "Step " + [Letter(a)] + " must be finished before step " + [Letter(b)] + " can begin."
  }

  /** Every line the puzzle writes matches, with its two steps. */
  lemma MatchStepLine(a: nat, b: nat)
    requires a < N && b < N
    ensures MatchStep(StepLine(a, b)) == Some((a, b))
  {
    var line := StepLine(a, b);
    assert line[..5] == "Step " && line[5] == Letter(a);
    assert line[6..36] == " must be finished before step " && line[36] == Letter(b);
    assert line[37..47] == " can begin" && line[47] == '.';
  }

  /** A graph with no vertices and no edges. */
  function NoSteps(): (g: Graph)
    ensures WellFormed(g)
  {
    Graph(seq(N, _ => {}), {})
  }

  /** `a` before `b`: both become vertices, `a` a prerequisite of `b`. */
  function AddEdge(g: Graph, a: nat, b: nat): (r: Graph)
    requires WellFormed(g) && a < N && b < N
    ensures WellFormed(r)
  {
    Graph(g.edges[b := g.edges[b] + {a}], g.vertices + {a, b})
  }

  /** The `getline` loop: empty lines are skipped, every other line must
      match; the first that does not fails the parse. */
  function Edges(lines: seq<string>): (r: Result<Graph>)
    ensures r.Ok? ==> WellFormed(r.value)
  {
    if lines == [] then Ok(NoSteps())
    else
      var init := Edges(lines[..|lines| - 1]);
      var line := lines[|lines| - 1];
      if init.Err? || line == [] then init
      else
        match MatchStep(line)
        case None => Err(ParseError(""))
        case Some((a, b)) => Ok(AddEdge(init.value, a, b))
  }

  /** Some non-empty line says "`a` before `b`". */
  predicate Says(lines: seq<string>, a: nat, b: nat) {
    exists k :: 0 <= k < |lines| && lines[k] != [] && MatchStep(lines[k]) == Some((a, b))
  }

  /** A parsed graph holds exactly the edges its lines state. */
  lemma {:induction false} EdgesMeaning(lines: seq<string>, a: nat, b: nat)
    requires Edges(lines).Ok? && b < N
    ensures a in Edges(lines).value.edges[b] <==> Says(lines, a, b)
  {
    if lines != [] {
      var init := lines[..|lines| - 1];
      var line := lines[|lines| - 1];
      EdgesMeaning(init, a, b);
      SaysLast(lines, a, b);
    }
  }

  /** A step stated by some line is stated by an earlier line or the last. */
  lemma SaysLast(lines: seq<string>, a: nat, b: nat)
    requires lines != []
    ensures var line := lines[|lines| - 1];
      Says(lines, a, b) <==> Says(lines[..|lines| - 1], a, b) || (line != [] && MatchStep(line) == Some((a, b)))
  {
    var init := lines[..|lines| - 1];
    if Says(init, a, b) {
      var k :| 0 <= k < |init| && init[k] != [] && MatchStep(init[k]) == Some((a, b));
      assert lines[k] == init[k];
    }
    if Says(lines, a, b) {
      var k :| 0 <= k < |lines| && lines[k] != [] && MatchStep(lines[k]) == Some((a, b));
      if k < |init| {
        assert init[k] == lines[k];
      }
    }
  }

  /** The getline loop of `parse_input`. */
  method BuildGraph(lines: seq<string>) returns (r: Result<Graph>)
    ensures r == Edges(lines)
  {
    var g := NoSteps();
    for k := 0 to |lines|
      invariant Edges(lines[..k]) == Ok(g)
    {
      assert lines[..k + 1][..k] == lines[..k];
      var line := lines[k];
      if line != [] {
        var m := MatchStep(line);
        if m.None? {
          r := Err(ParseError(""));
          EdgesErrSticks(lines, k + 1);
          return;
        }
        g := AddEdge(g, m.value.0, m.value.1);
      }
    }
    assert lines[..|lines|] == lines;
    r := Ok(g);
  }

  /** Once a line fails, the parse fails whatever follows. */
  lemma {:induction false} EdgesErrSticks(lines: seq<string>, n: nat)
    requires n <= |lines| && Edges(lines[..n]).Err?
    ensures Edges(lines) == Edges(lines[..n])
    decreases |lines| - n
  {
    if n < |lines| {
      assert lines[..n + 1][..n] == lines[..n];
      EdgesErrSticks(lines, n + 1);
    } else {
      assert lines[..n] == lines;
    }
  }

  // ---------------------------------------------------------------------
  // the cycle check of parse_input

  /** A ranking of the steps: every prerequisite ranks below its step. */
  ghost predicate Ranked(g: Graph, rank: map<nat, nat>)
    requires WellFormed(g)
  {
    (forall b :: 0 <= b < N ==> b in rank) &&
    forall b, a :: 0 <= b < N && a in g.edges[b] ==> a in rank && rank[a] < rank[b]
  }

  /** No step depends on itself, however indirectly. */
  ghost predicate Acyclic(g: Graph)
    requires WellFormed(g)
  {
    exists rank :: Ranked(g, rank)
  }

  /** A cycle: each step of `c` has the next one as a prerequisite, and the
      last has the first. */
  predicate Cycle(g: Graph, c: seq<nat>)
    requires WellFormed(g)
  {
    c != [] && (forall k :: 0 <= k < |c| ==> c[k] < N) &&
    (forall k :: 0 <= k < |c| - 1 ==> c[k + 1] in g.edges[c[k]]) &&
    c[0] in g.edges[c[|c| - 1]]
  }

  /** Along a chain of prerequisites the rank only falls. */
  lemma RankFalls(g: Graph, c: seq<nat>, rank: map<nat, nat>)
    requires WellFormed(g) && Ranked(g, rank) && c != []
    requires forall k :: 0 <= k < |c| ==> c[k] < N
    requires forall k :: 0 <= k < |c| - 1 ==> c[k + 1] in g.edges[c[k]]
    ensures rank[c[|c| - 1]] <= rank[c[0]]
  {
    var k := 0;
    while k < |c| - 1
      invariant 0 <= k < |c| && rank[c[k]] <= rank[c[0]]
    {
      k := k + 1;
    }
  }

  /** A graph with a cycle has no ranking. */
  lemma CycleUnranked(g: Graph, c: seq<nat>, rank: map<nat, nat>)
    requires WellFormed(g) && Cycle(g, c)
    ensures !Ranked(g, rank)
  {
    if Ranked(g, rank) {
      RankFalls(g, c, rank);
      assert false;
    }
  }

  lemma CycleNotAcyclic(g: Graph, c: seq<nat>)
    requires WellFormed(g) && Cycle(g, c)
    ensures !Acyclic(g)
  {
    forall rank: map<nat, nat>
      ensures !Ranked(g, rank)
    {
      CycleUnranked(g, c, rank);
    }
  }

  /** `a` is a prerequisite of `b`. */
  predicate Prereq(g: Graph, b: nat, a: nat)
    requires WellFormed(g)
  {
    b < N && a in g.edges[b]
  }

  /** `a` occurs in `stack` above position `p`. */
  predicate Above(stack: seq<nat>, p: int, a: nat) {
    exists k :: 0 <= p < k < |stack| && stack[k] == a
  }

  /** The state of the search in `parse_input`, with the bookkeeping of its
      proof: `chain` lists the steps of `path` in the order they were
      entered, `pos` the stack position each was entered from. */
  datatype Search = Search(visited: set<nat>, path: set<nat>, stack: seq<nat>, chain: seq<nat>, pos: seq<nat>)

  /** Visited and off the path: explored to the end. */
  predicate Done(s: Search, a: nat) {
    a in s.visited && a !in s.path
  }

  /** Bounds, and `chain` lists exactly the path. */
  ghost predicate Shape(s: Search) {
    s.visited <= All() && s.path <= s.visited &&
    (forall k :: 0 <= k < |s.stack| ==> s.stack[k] < N) &&
    (forall j :: 0 <= j < |s.chain| ==> s.chain[j] < N) &&
    |s.chain| == |s.pos| && (forall x :: x in s.path <==> x in s.chain)
  }

  /** Each step of the path was entered from its stack position, in order,
      and no copy of it lies above that position. */
  ghost predicate Entered(s: Search)
    requires Shape(s)
  {
    (s.pos != [] ==> s.pos[|s.pos| - 1] < |s.stack|) &&
    (forall j :: 0 <= j < |s.pos| ==> s.pos[j] < |s.stack| && s.stack[s.pos[j]] == s.chain[j]) &&
    (forall j, k :: 0 <= j < k < |s.pos| ==> s.pos[j] < s.pos[k]) &&
    (forall j, k :: 0 <= j < |s.chain| && s.pos[j] < k < |s.stack| ==> s.stack[k] != s.chain[j])
  }

  /** Where the entries pushed by the `j`th step of the path end. */
  function Limit(pos: seq<nat>, j: nat, top: nat): nat
    requires j < |pos|
  {
    if j + 1 < |pos| then pos[j + 1] else top
  }

  /** Each step of the path has the next as a prerequisite, and what it
      pushed, up to the next one, are its prerequisites. */
  ghost predicate Linked(g: Graph, s: Search)
    requires WellFormed(g)
  {
    (forall j :: 0 <= j < |s.chain| - 1 ==> Prereq(g, s.chain[j], s.chain[j + 1])) &&
    forall j, k {:trigger Prereq(g, s.chain[j], s.stack[k])} ::
      0 <= j < |s.chain| && j < |s.pos| && s.pos[j] < k < Limit(s.pos, j, |s.stack|) && k < |s.stack| ==>
      Prereq(g, s.chain[j], s.stack[k])
  }

  /** Every prerequisite of the first `m` steps of the path is done or
      waits above the step. */
  ghost predicate Pending(g: Graph, s: Search, m: nat)
    requires WellFormed(g) && Shape(s) && m <= |s.chain|
  {
    forall j, a: nat :: 0 <= j < m && Prereq(g, s.chain[j], a) ==> Done(s, a) || Above(s.stack, s.pos[j], a)
  }

  /** The prerequisites below `n` of the last step of the path wait above it. */
  ghost predicate LastPending(g: Graph, s: Search, n: nat)
    requires WellFormed(g) && Shape(s) && s.chain != []
  {
    WaitAbove(g, s.stack, s.chain[|s.chain| - 1], s.pos[|s.pos| - 1], n)
  }

  /** The prerequisites below `n` of `b` occur in `stack` above `p`. */
  ghost predicate WaitAbove(g: Graph, stack: seq<nat>, b: nat, p: nat, n: nat)
    requires WellFormed(g)
  {
    forall a: nat :: a < n && Prereq(g, b, a) ==> Above(stack, p, a)
  }

  /** Every done step is ranked below `next`, after all its prerequisites,
      which are done too. */
  ghost predicate Finished(g: Graph, s: Search, rank: map<nat, nat>, next: nat)
    requires WellFormed(g)
  {
    forall f: nat :: f < N && Done(s, f) ==>
      f in rank && rank[f] < next &&
      forall a: nat :: Prereq(g, f, a) ==> Done(s, a) && a in rank && rank[a] < rank[f]
  }

  /** The invariant of the search loop. */
  ghost predicate Searching(g: Graph, s: Search, rank: map<nat, nat>, next: nat)
    requires WellFormed(g)
  {
    match s
    case Search(_, _, _, chain, _) =>
      Shape(s) && Entered(s) && Linked(g, s) && Pending(g, s, |chain|) && Finished(g, s, rank, next)
  }

  /** The invariant while the prerequisites below `n` of the step just
      entered are pushed. */
  ghost predicate Pushing(g: Graph, s: Search, rank: map<nat, nat>, next: nat, n: nat)
    requires WellFormed(g)
  {
    match s
    case Search(_, _, _, chain, _) =>
      Shape(s) && chain != [] && Entered(s) && Linked(g, s) && Pending(g, s, |chain| - 1) &&
      LastPending(g, s, n) && Finished(g, s, rank, next)
  }

  // ---- popping a visited step

  /** The stack without its top; the step leaves the path (and the chain). */
  function Pop(s: Search): (p: Search)
    requires s.stack != [] && |s.chain| == |s.pos|
    ensures p.visited == s.visited && p.stack == s.stack[..|s.stack| - 1]
    ensures p.path == s.path - {s.stack[|s.stack| - 1]}
  {
    var node := s.stack[|s.stack| - 1];
    if node in s.path && s.chain != [] then
      Search(s.visited, s.path - {node}, s.stack[..|s.stack| - 1], s.chain[..|s.chain| - 1], s.pos[..|s.pos| - 1])
    else
      Search(s.visited, s.path - {node}, s.stack[..|s.stack| - 1], s.chain, s.pos)
  }

  /** A top that is on the path is its last step, entered from the top. */
  lemma PopOnPath(s: Search)
    requires Shape(s) && Entered(s) && s.stack != [] && s.stack[|s.stack| - 1] in s.path
    ensures s.chain != [] && s.chain[|s.chain| - 1] == s.stack[|s.stack| - 1]
    ensures s.pos[|s.pos| - 1] == |s.stack| - 1
    ensures forall i :: 0 <= i < |s.chain| - 1 ==> s.chain[i] != s.stack[|s.stack| - 1]
  {
    var top := |s.stack| - 1;
    var node := s.stack[top];
    var j :| 0 <= j < |s.chain| && s.chain[j] == node;
    assert s.pos[j] == top;
    var l := |s.chain| - 1;
    assert forall i :: 0 <= i < l ==> s.pos[i] < s.pos[l];
    assert j == l;
  }

  /** A top that is off the path lies above every step of the path. */
  lemma PopOffPath(s: Search)
    requires Shape(s) && Entered(s) && s.stack != [] && s.stack[|s.stack| - 1] !in s.path
    ensures forall j :: 0 <= j < |s.pos| ==> s.pos[j] < |s.stack| - 1
  {
    forall j | 0 <= j < |s.pos|
      ensures s.pos[j] < |s.stack| - 1
    {
      assert s.stack[s.pos[j]] == s.chain[j] && s.chain[j] in s.path;
    }
  }

  lemma PopShape(s: Search)
    requires Shape(s) && Entered(s) && s.stack != []
    ensures Shape(Pop(s)) && Entered(Pop(s))
  {
    var top := |s.stack| - 1;
    if s.stack[top] in s.path {
      PopShapeOn(s);
      var l := |s.chain| - 1;
      assert Pop(s) == Search(s.visited, s.path - {s.stack[top]}, s.stack[..top], s.chain[..l], s.pos[..l]);
    } else {
      PopShapeOff(s);
      assert s.path - {s.stack[top]} == s.path;
      assert Pop(s) == Search(s.visited, s.path, s.stack[..top], s.chain, s.pos);
    }
  }

  lemma PopShapeOn(s: Search)
    requires Shape(s) && Entered(s) && s.stack != [] && s.stack[|s.stack| - 1] in s.path
    ensures var top, l := |s.stack| - 1, |s.chain| - 1;
      l >= 0 && s.chain[l] == s.stack[top] && s.pos[l] == top &&
      var s' := Search(s.visited, s.path - {s.stack[top]}, s.stack[..top], s.chain[..l], s.pos[..l]);
      Shape(s') && Entered(s')
  {
    PopOnPath(s);
    var top, l := |s.stack| - 1, |s.chain| - 1;
    var node := s.stack[top];
    var s' := Search(s.visited, s.path - {node}, s.stack[..top], s.chain[..l], s.pos[..l]);
    PopShapeOnShape(s, s');
    PopShapeOnEntered(s, s');
  }

  lemma PopShapeOnShape(s: Search, s': Search)
    requires Shape(s) && s.stack != [] && s.chain != [] && s.chain[|s.chain| - 1] == s.stack[|s.stack| - 1]
    requires forall i :: 0 <= i < |s.chain| - 1 ==> s.chain[i] != s.stack[|s.stack| - 1]
    requires var top, l := |s.stack| - 1, |s.chain| - 1;
      s' == Search(s.visited, s.path - {s.stack[top]}, s.stack[..top], s.chain[..l], s.pos[..l])
    ensures Shape(s')
  {
    var top, l := |s.stack| - 1, |s.chain| - 1;
    var node := s.stack[top];
    assert forall k :: 0 <= k < top ==> s'.stack[k] == s.stack[k];
    assert forall j :: 0 <= j < l ==> s'.chain[j] == s.chain[j];
    forall x
      ensures x in s'.path <==> x in s'.chain
    {
      if x in s'.chain {
        var j :| 0 <= j < l && s'.chain[j] == x;
        assert s.chain[j] == x;
      }
      if x in s'.path {
        var j :| 0 <= j < |s.chain| && s.chain[j] == x;
        assert j < l && s'.chain[j] == x;
      }
    }
  }

  lemma PopShapeOnEntered(s: Search, s': Search)
    requires Shape(s) && Entered(s) && s.stack != [] && s.chain != [] && s.pos[|s.pos| - 1] == |s.stack| - 1
    requires var top, l := |s.stack| - 1, |s.chain| - 1;
      s' == Search(s.visited, s.path - {s.stack[top]}, s.stack[..top], s.chain[..l], s.pos[..l])
    requires Shape(s')
    ensures Entered(s')
  {
    var top, l := |s.stack| - 1, |s.chain| - 1;
    assert forall j :: 0 <= j < l ==> s.pos[j] < s.pos[l];
    forall j | 0 <= j < l
      ensures s'.pos[j] < |s'.stack| && s'.stack[s'.pos[j]] == s'.chain[j]
    {
      assert s'.pos[j] == s.pos[j] && s'.chain[j] == s.chain[j];
    }
    forall j, k | 0 <= j < k < l
      ensures s'.pos[j] < s'.pos[k]
    {
      assert s'.pos[j] == s.pos[j] && s'.pos[k] == s.pos[k];
    }
    forall j, k | 0 <= j < l && s'.pos[j] < k < top
      ensures s'.stack[k] != s'.chain[j]
    {
      assert s'.pos[j] == s.pos[j] && s'.chain[j] == s.chain[j] && s'.stack[k] == s.stack[k];
    }
  }

  lemma PopShapeOff(s: Search)
    requires Shape(s) && Entered(s) && s.stack != [] && s.stack[|s.stack| - 1] !in s.path
    ensures var s' := Search(s.visited, s.path, s.stack[..|s.stack| - 1], s.chain, s.pos);
      Shape(s') && Entered(s')
  {
    PopOffPath(s);
    var top := |s.stack| - 1;
    var s' := Search(s.visited, s.path, s.stack[..top], s.chain, s.pos);
    assert forall k :: 0 <= k < top ==> s'.stack[k] == s.stack[k];
  }

  lemma PopLinked(g: Graph, s: Search)
    requires WellFormed(g) && Shape(s) && Entered(s) && Linked(g, s) && s.stack != []
    ensures Linked(g, Pop(s))
  {
    var top := |s.stack| - 1;
    var node := s.stack[top];
    if node in s.path {
      PopOnPath(s);
      var l := |s.chain| - 1;
      PopLinkedOn(g, s);
      assert Pop(s) == Search(s.visited, s.path - {node}, s.stack[..top], s.chain[..l], s.pos[..l]);
    } else {
      PopLinkedOff(g, s);
    }
  }

  lemma PopLinkedOn(g: Graph, s: Search)
    requires WellFormed(g) && Linked(g, s)
    requires |s.chain| == |s.pos| && s.chain != [] && s.stack != [] && s.pos[|s.pos| - 1] == |s.stack| - 1
    ensures var top, l := |s.stack| - 1, |s.chain| - 1;
      Linked(g, Search(s.visited, s.path - {s.stack[top]}, s.stack[..top], s.chain[..l], s.pos[..l]))
  {
    var top, l := |s.stack| - 1, |s.chain| - 1;
    var s' := Search(s.visited, s.path - {s.stack[top]}, s.stack[..top], s.chain[..l], s.pos[..l]);
    forall j | 0 <= j < l - 1
      ensures Prereq(g, s'.chain[j], s'.chain[j + 1])
    {
      assert s'.chain[j] == s.chain[j] && s'.chain[j + 1] == s.chain[j + 1];
    }
    forall j, k | 0 <= j < l && s'.pos[j] < k < Limit(s'.pos, j, top) && k < top
      ensures Prereq(g, s'.chain[j], s'.stack[k])
    {
      assert s'.chain[j] == s.chain[j] && s'.pos[j] == s.pos[j] && s'.stack[k] == s.stack[k];
      assert Limit(s'.pos, j, top) == Limit(s.pos, j, |s.stack|);
    }
  }

  lemma PopLinkedOff(g: Graph, s: Search)
    requires WellFormed(g) && Shape(s) && Entered(s) && Linked(g, s)
    requires s.stack != [] && s.stack[|s.stack| - 1] !in s.path
    ensures Linked(g, Pop(s))
  {
    PopOffPath(s);
    var top := |s.stack| - 1;
    assert s.path - {s.stack[top]} == s.path;
    var s' := Search(s.visited, s.path, s.stack[..top], s.chain, s.pos);
    assert Pop(s) == s';
    forall j, k | 0 <= j < |s'.chain| && s'.pos[j] < k < Limit(s'.pos, j, |s'.stack|) && k < |s'.stack|
      ensures Prereq(g, s'.chain[j], s'.stack[k])
    {
      assert s'.stack[k] == s.stack[k];
      assert Limit(s'.pos, j, |s'.stack|) <= Limit(s.pos, j, |s.stack|);
    }
  }

  /** Popping keeps every pending prerequisite pending or done: the one
      popped is visited and, once popped, off the path. */
  lemma PopPending(g: Graph, s: Search)
    requires WellFormed(g) && Shape(s) && Entered(s) && Pending(g, s, |s.chain|)
    requires s.stack != [] && s.stack[|s.stack| - 1] in s.visited
    ensures Shape(Pop(s)) && Pending(g, Pop(s), |Pop(s).chain|)
  {
    PopShape(s);
    var s' := Pop(s);
    var top := |s.stack| - 1;
    if s.stack[top] in s.path {
      PopOnPath(s);
    }
    forall j, a: nat | 0 <= j < |s'.chain| && Prereq(g, s'.chain[j], a)
      ensures Done(s', a) || Above(s'.stack, s'.pos[j], a)
    {
      assert s'.chain[j] == s.chain[j] && s'.pos[j] == s.pos[j];
      if !Done(s', a) {
        assert !Done(s, a);
        var k :| 0 <= s.pos[j] < k < |s.stack| && s.stack[k] == a;
        assert k != top;
        assert s'.stack[k] == a;
      }
    }
  }

  /** The last step of the path, on top, has all its prerequisites done. */
  lemma PopReady(g: Graph, s: Search)
    requires WellFormed(g) && Shape(s) && Entered(s) && Pending(g, s, |s.chain|)
    requires s.stack != [] && s.stack[|s.stack| - 1] in s.path
    ensures forall a: nat :: Prereq(g, s.stack[|s.stack| - 1], a) ==> Done(s, a)
  {
    PopOnPath(s);
    var l := |s.chain| - 1;
    forall a: nat | Prereq(g, s.chain[l], a)
      ensures Done(s, a)
    {
      assert !Above(s.stack, s.pos[l], a);
    }
  }

  lemma PopFinished(g: Graph, s: Search, rank: map<nat, nat>, next: nat)
    requires WellFormed(g) && Shape(s) && Entered(s) && Pending(g, s, |s.chain|) && Finished(g, s, rank, next)
    requires s.stack != [] && s.stack[|s.stack| - 1] in s.visited
    ensures var node := s.stack[|s.stack| - 1];
      if node in s.path then Finished(g, Pop(s), rank[node := next], next + 1)
      else Finished(g, Pop(s), rank, next)
  {
    var node := s.stack[|s.stack| - 1];
    var s' := Pop(s);
    if node in s.path {
      PopOnPath(s);
      PopReady(g, s);
      var rank' := rank[node := next];
      forall f: nat | f < N && Done(s', f)
        ensures f in rank' && rank'[f] < next + 1 &&
                forall a: nat :: Prereq(g, f, a) ==> Done(s', a) && a in rank' && rank'[a] < rank'[f]
      {
        if f != node {
          assert Done(s, f);
        }
        forall a: nat | Prereq(g, f, a)
          ensures Done(s', a) && a in rank' && rank'[a] < rank'[f]
        {
          assert Done(s, a) && a != node;
        }
      }
    } else {
      assert forall a: nat :: Done(s', a) == Done(s, a);
    }
  }

  // ---- entering an unvisited step

  /** The top joins the visited steps and the path, as its last step. */
  function Visit(s: Search): (v: Search)
    requires s.stack != []
    ensures v.visited == s.visited + {s.stack[|s.stack| - 1]} && v.stack == s.stack
    ensures v.path == s.path + {s.stack[|s.stack| - 1]}
    ensures v.chain == s.chain + [s.stack[|s.stack| - 1]] && v.pos == s.pos + [|s.stack| - 1]
  {
    var node := s.stack[|s.stack| - 1];
    Search(s.visited + {node}, s.path + {node}, s.stack, s.chain + [node], s.pos + [|s.stack| - 1])
  }

  /** Every step of the path was entered below an unvisited top. */
  lemma BelowTop(s: Search)
    requires Shape(s) && Entered(s) && s.stack != [] && s.stack[|s.stack| - 1] !in s.visited
    ensures forall j :: 0 <= j < |s.pos| ==> s.pos[j] < |s.stack| - 1
  {
    forall j | 0 <= j < |s.pos|
      ensures s.pos[j] < |s.stack| - 1
    {
      assert s.stack[s.pos[j]] == s.chain[j] && s.chain[j] in s.visited;
    }
  }

  lemma VisitShape(s: Search)
    requires Shape(s) && s.stack != [] && s.stack[|s.stack| - 1] !in s.visited
    ensures Shape(Visit(s))
  {
    var s' := Visit(s);
    assert forall j :: 0 <= j < |s.chain| ==> s'.chain[j] == s.chain[j];
  }

  lemma VisitEntered(s: Search)
    requires Shape(s) && Entered(s) && s.stack != [] && s.stack[|s.stack| - 1] !in s.visited
    requires Shape(Visit(s))
    ensures Entered(Visit(s))
  {
    BelowTop(s);
    var v := Visit(s);
    var top, l := |s.stack| - 1, |s.chain|;
    forall j | 0 <= j < |v.pos|
      ensures v.pos[j] < |v.stack| && v.stack[v.pos[j]] == v.chain[j]
    {
      if j < l {
        assert v.pos[j] == s.pos[j] && v.chain[j] == s.chain[j];
      }
    }
    forall j, k | 0 <= j < k < |v.pos|
      ensures v.pos[j] < v.pos[k]
    {
      assert v.pos[j] == s.pos[j];
      if k < l {
        assert v.pos[k] == s.pos[k];
      }
    }
    forall j, k | 0 <= j < |v.chain| && v.pos[j] < k < |v.stack|
      ensures v.stack[k] != v.chain[j]
    {
      assert j < l;
      assert v.pos[j] == s.pos[j] && v.chain[j] == s.chain[j];
    }
  }

  lemma VisitLinked(g: Graph, s: Search)
    requires WellFormed(g) && Shape(s) && Entered(s) && Linked(g, s)
    requires s.stack != [] && s.stack[|s.stack| - 1] !in s.visited
    requires Shape(Visit(s))
    ensures Linked(g, Visit(s))
  {
    BelowTop(s);
    var s' := Visit(s);
    var top := |s.stack| - 1;
    if s.chain != [] {
      var l := |s.chain| - 1;
      assert Limit(s.pos, l, |s.stack|) == |s.stack|;
      assert Prereq(g, s.chain[l], s.stack[top]);
    }
    forall j | 0 <= j < |s'.chain| - 1
      ensures Prereq(g, s'.chain[j], s'.chain[j + 1])
    {
      assert s'.chain[j] == s.chain[j];
    }
    forall j, k | 0 <= j < |s'.chain| && s'.pos[j] < k < Limit(s'.pos, j, |s'.stack|) && k < |s'.stack|
      ensures Prereq(g, s'.chain[j], s'.stack[k])
    {
      assert j < |s.chain|;
      assert s'.chain[j] == s.chain[j] && s'.pos[j] == s.pos[j];
      assert Limit(s'.pos, j, |s'.stack|) <= Limit(s.pos, j, |s.stack|);
    }
  }

  lemma VisitPending(g: Graph, s: Search, rank: map<nat, nat>, next: nat)
    requires WellFormed(g) && Shape(s) && Pending(g, s, |s.chain|) && Finished(g, s, rank, next)
    requires s.stack != [] && s.stack[|s.stack| - 1] !in s.visited
    requires Shape(Visit(s))
    ensures Pending(g, Visit(s), |s.chain|) && Finished(g, Visit(s), rank, next)
  {
    var s' := Visit(s);
    var node := s.stack[|s.stack| - 1];
    assert forall a: nat :: a != node ==> Done(s', a) == Done(s, a);
    assert !Done(s', node) && !Done(s, node);
    forall j, a: nat | 0 <= j < |s.chain| && Prereq(g, s'.chain[j], a)
      ensures Done(s', a) || Above(s'.stack, s'.pos[j], a)
    {
      assert s'.chain[j] == s.chain[j] && s'.pos[j] == s.pos[j];
    }
  }

  /** The invariant of the pushing loop holds once a step is entered. */
  lemma VisitStep(g: Graph, s: Search, rank: map<nat, nat>, next: nat)
    requires WellFormed(g) && Searching(g, s, rank, next)
    requires s.stack != [] && s.stack[|s.stack| - 1] !in s.visited
    ensures Pushing(g, Visit(s), rank, next, 0)
  {
    VisitShape(s);
    VisitEntered(s);
    VisitLinked(g, s);
    VisitPending(g, s, rank, next);
  }

  /** Popping keeps the invariant of the search loop. */
  lemma PopStep(g: Graph, s: Search, rank: map<nat, nat>, next: nat)
    requires WellFormed(g) && Searching(g, s, rank, next)
    requires s.stack != [] && s.stack[|s.stack| - 1] in s.visited
    ensures var node := s.stack[|s.stack| - 1];
      if node in s.path then Searching(g, Pop(s), rank[node := next], next + 1)
      else Searching(g, Pop(s), rank, next)
  {
    PopShape(s);
    PopLinked(g, s);
    PopPending(g, s);
    PopFinished(g, s, rank, next);
  }

  // ---- pushing the prerequisites of the step entered

  function PushStack(s: Search, n: nat): Search {
    Search(s.visited, s.path, s.stack + [n], s.chain, s.pos)
  }

  lemma PushShape(s: Search, n: nat)
    requires Shape(s) && Entered(s) && n < N && n !in s.path
    ensures Shape(PushStack(s, n)) && Entered(PushStack(s, n))
  {
    var s' := PushStack(s, n);
    assert forall k :: 0 <= k < |s.stack| ==> s'.stack[k] == s.stack[k];
  }

  lemma PushLinked(g: Graph, s: Search, n: nat)
    requires WellFormed(g) && Shape(s) && s.chain != [] && Entered(s) && Linked(g, s)
    requires n < N && Prereq(g, s.chain[|s.chain| - 1], n) && Shape(PushStack(s, n))
    ensures Linked(g, PushStack(s, n))
  {
    var s' := PushStack(s, n);
    forall j, k | 0 <= j < |s.chain| && s.pos[j] < k < Limit(s.pos, j, |s'.stack|) && k < |s'.stack|
      ensures Prereq(g, s.chain[j], s'.stack[k])
    {
      if k < |s.stack| {
        assert s'.stack[k] == s.stack[k];
        assert k < Limit(s.pos, j, |s.stack|);
      } else {
        assert forall i :: 0 <= i < |s.pos| ==> s.pos[i] < |s.stack|;
        assert j == |s.chain| - 1 && s'.stack[k] == n;
      }
    }
  }

  lemma PushPending(g: Graph, s: Search, n: nat)
    requires WellFormed(g) && Shape(s) && s.chain != [] && Entered(s) && Pending(g, s, |s.chain| - 1) && LastPending(g, s, n)
    requires n < N && Prereq(g, s.chain[|s.chain| - 1], n) && Shape(PushStack(s, n))
    ensures Pending(g, PushStack(s, n), |s.chain| - 1) && LastPending(g, PushStack(s, n), n + 1)
  {
    PushPendingOthers(g, s, n);
    PushPendingLast(g, s, n);
  }

  lemma PushPendingOthers(g: Graph, s: Search, n: nat)
    requires WellFormed(g) && Shape(s) && s.chain != [] && Pending(g, s, |s.chain| - 1)
    requires Shape(PushStack(s, n))
    ensures Pending(g, PushStack(s, n), |s.chain| - 1)
  {
    var s' := PushStack(s, n);
    var l := |s.chain| - 1;
    forall j, a: nat | 0 <= j < l && Prereq(g, s'.chain[j], a) && !Done(s', a)
      ensures Above(s'.stack, s'.pos[j], a)
    {
      assert !Done(s, a);
      var k :| 0 <= s.pos[j] < k < |s.stack| && s.stack[k] == a;
      assert s'.stack[k] == a;
    }
  }

  lemma PushPendingLast(g: Graph, s: Search, n: nat)
    requires WellFormed(g) && Shape(s) && s.chain != [] && s.pos[|s.pos| - 1] < |s.stack| && LastPending(g, s, n)
    requires n < N && Prereq(g, s.chain[|s.chain| - 1], n) && Shape(PushStack(s, n))
    ensures LastPending(g, PushStack(s, n), n + 1)
  {
    var s' := PushStack(s, n);
    var l := |s.chain| - 1;
    forall a: nat | a < n + 1 && Prereq(g, s'.chain[l], a)
      ensures Above(s'.stack, s'.pos[l], a)
    {
      if a < n {
        var k :| 0 <= s.pos[l] < k < |s.stack| && s.stack[k] == a;
        assert s'.stack[k] == a;
      } else {
        assert s.pos[l] < |s.stack| && s'.stack[|s.stack|] == a;
      }
    }
  }

  /** Pushing a prerequisite of the last step of the path that is not on
      the path. */
  lemma PushStep(g: Graph, s: Search, rank: map<nat, nat>, next: nat, n: nat)
    requires WellFormed(g) && Pushing(g, s, rank, next, n)
    requires n < N && Prereq(g, s.chain[|s.chain| - 1], n) && n !in s.path
    ensures Pushing(g, PushStack(s, n), rank, next, n + 1)
  {
    PushShape(s, n);
    PushLinked(g, s, n);
    PushPending(g, s, n);
  }

  /** Passing over a step that is not a prerequisite. */
  lemma SkipStep(g: Graph, s: Search, rank: map<nat, nat>, next: nat, n: nat)
    requires WellFormed(g) && Pushing(g, s, rank, next, n)
    requires !Prereq(g, s.chain[|s.chain| - 1], n)
    ensures Pushing(g, s, rank, next, n + 1)
  {
  }

  /** Once every prerequisite is pushed, the search invariant holds again. */
  lemma PushDone(g: Graph, s: Search, rank: map<nat, nat>, next: nat)
    requires WellFormed(g) && Pushing(g, s, rank, next, N)
    ensures Searching(g, s, rank, next)
  {
    var l := |s.chain| - 1;
    forall j, a: nat | 0 <= j < |s.chain| && Prereq(g, s.chain[j], a)
      ensures Done(s, a) || Above(s.stack, s.pos[j], a)
    {
      if j == l {
        assert a in g.vertices;
      }
    }
  }

  /** A prerequisite of the last step of the path that is on the path
      closes a cycle through the path from it to the last step. */
  lemma PathCycle(g: Graph, s: Search, n: nat)
    requires WellFormed(g) && Shape(s) && s.chain != [] && Linked(g, s)
    requires Prereq(g, s.chain[|s.chain| - 1], n) && n in s.path
    ensures !Acyclic(g)
  {
    var j :| 0 <= j < |s.chain| && s.chain[j] == n;
    var c := s.chain[j..];
    assert forall k :: 0 <= k < |c| ==> c[k] == s.chain[j + k];
    forall k | 0 <= k < |c| - 1
      ensures c[k + 1] in g.edges[c[k]]
    {
      assert Prereq(g, s.chain[j + k], s.chain[j + k + 1]);
    }
    assert Cycle(g, c);
    CycleNotAcyclic(g, c);
  }

  /** The cycle check of `parse_input`: a depth-first search from every
      step not yet visited. It fails exactly when the graph has a cycle. */
  method CheckCycles(g: Graph) returns (ok: bool)
    requires WellFormed(g)
    ensures ok <==> Acyclic(g)
  {
    var visited: set<nat> := {};
    ghost var rank: map<nat, nat> := map[];
    ghost var next: nat := 0;
    for i := 0 to N
      invariant visited <= All()
      invariant forall t :: 0 <= t < i ==> t in visited
      invariant Finished(g, Search(visited, {}, [], [], []), rank, next)
    {
      if i !in visited {
        ok, visited, rank, next := SearchFrom(g, i, visited, rank, next);
        if !ok {
          return;
        }
      }
    }
    assert Ranked(g, rank);
    ok := true;
  }

  /** One search of `parse_input`'s cycle check, from step `i`: the stack
      holds the steps still to visit; a visited step on top is popped (and
      leaves the path), an unvisited one joins the path and pushes its
      prerequisites, unless one of them is on the path: a cycle. */
  method SearchFrom(g: Graph, i: nat, visited0: set<nat>, ghost rank0: map<nat, nat>, ghost next0: nat)
    returns (ok: bool, visited: set<nat>, ghost rank: map<nat, nat>, ghost next: nat)
    requires WellFormed(g) && i < N && i !in visited0 && visited0 <= All()
    requires Finished(g, Search(visited0, {}, [], [], []), rank0, next0)
    ensures ok ==> visited0 + {i} <= visited <= All() && Finished(g, Search(visited, {}, [], [], []), rank, next)
    ensures !ok ==> !Acyclic(g)
  {
    visited, rank, next := visited0, rank0, next0;
    var path: set<nat> := {};
    var stack: seq<nat> := [i];
    ghost var s := Search(visited, path, stack, [], []);
    while stack != []
      invariant s.visited == visited && s.path == path && s.stack == stack
      invariant Searching(g, s, rank, next)
      invariant visited0 <= visited
      invariant i in visited || stack == [i]
      decreases All() - visited, |stack|
    {
      var node := stack[|stack| - 1];
      if node in visited {
        path, stack, s, rank, next := Leave(g, node, path, stack, s, rank, next);
      } else {
        ok, visited, path, stack, s := Enter(g, node, visited, path, stack, s, rank, next);
        if !ok {
          return false, visited, rank, next;
        }
      }
    }
    SearchEmptied(g, s, rank, next);
    ok := true;
  }

  /** A visited step on top of the stack is popped and leaves the path; a
      step that was on the path is ranked. */
  method Leave(g: Graph, node: nat, path0: set<nat>, stack0: seq<nat>, ghost s0: Search,
               ghost rank0: map<nat, nat>, ghost next0: nat)
    returns (path: set<nat>, stack: seq<nat>, ghost s: Search, ghost rank: map<nat, nat>, ghost next: nat)
    requires WellFormed(g) && Searching(g, s0, rank0, next0)
    requires s0.path == path0 && s0.stack == stack0 && stack0 != [] && node == stack0[|stack0| - 1] && node in s0.visited
    ensures Searching(g, s, rank, next)
    ensures s.visited == s0.visited && s.path == path && s.stack == stack
    ensures path == path0 - {node} && stack == stack0[..|stack0| - 1]
  {
    PopStep(g, s0, rank0, next0);
    rank, next := rank0, next0;
    if node in path0 {
      rank, next := rank[node := next], next + 1;
    }
    path := path0 - {node};
    stack := stack0[..|stack0| - 1];
    s := Pop(s0);
  }

  /** An unvisited step on top of the stack is visited, joins the path and
      pushes its prerequisites. */
  method Enter(g: Graph, node: nat, visited0: set<nat>, path0: set<nat>, stack0: seq<nat>, ghost s0: Search,
               ghost rank: map<nat, nat>, ghost next: nat)
    returns (ok: bool, visited: set<nat>, path: set<nat>, stack: seq<nat>, ghost s: Search)
    requires WellFormed(g) && Searching(g, s0, rank, next)
    requires s0.visited == visited0 && s0.path == path0 && s0.stack == stack0
    requires stack0 != [] && node == stack0[|stack0| - 1] && node !in visited0
    ensures node < N && visited == visited0 + {node} && path == path0 + {node}
    ensures s.visited == visited && s.path == path && s.stack == stack
    ensures ok ==> Searching(g, s, rank, next)
    ensures !ok ==> !Acyclic(g)
  {
    VisitStep(g, s0, rank, next);
    visited := visited0 + {node};
    path := path0 + {node};
    s := Visit(s0);
    ok, stack, s := PushPrereqs(g, node, path, stack0, s, rank, next);
  }

  /** The inner loop of the search: push every prerequisite of `node`,
      just entered, in increasing order; one on the path is a cycle. */
  method PushPrereqs(g: Graph, node: nat, path: set<nat>, stack0: seq<nat>, ghost s0: Search,
                     ghost rank: map<nat, nat>, ghost next: nat)
    returns (ok: bool, stack: seq<nat>, ghost s: Search)
    requires WellFormed(g) && Pushing(g, s0, rank, next, 0)
    requires s0.path == path && s0.stack == stack0 && node == s0.chain[|s0.chain| - 1]
    ensures ok ==> Searching(g, s, rank, next)
    ensures s.stack == stack && s.visited == s0.visited && s.path == path
    ensures !ok ==> !Acyclic(g)
  {
    stack := stack0;
    s := s0;
    var edges := g.edges[node];
    for nextNode := 0 to N
      invariant s.stack == stack && s.visited == s0.visited && s.path == path
      invariant s.chain == s0.chain
      invariant Pushing(g, s, rank, next, nextNode)
    {
      ok, stack, s := PushOne(g, node, edges, nextNode, path, stack, s, rank, next);
      if !ok {
        return;
      }
    }
    PushDone(g, s, rank, next);
    ok := true;
  }

  /** One round of the inner loop: `n` is pushed if it is a prerequisite
      of `node`, and closes a cycle if it is on the path. */
  method PushOne(g: Graph, node: nat, edges: set<nat>, n: nat, path: set<nat>, stack0: seq<nat>, ghost s0: Search,
                 ghost rank: map<nat, nat>, ghost next: nat)
    returns (ok: bool, stack: seq<nat>, ghost s: Search)
    requires WellFormed(g) && n < N && Pushing(g, s0, rank, next, n)
    requires s0.path == path && s0.stack == stack0 && node == s0.chain[|s0.chain| - 1] && edges == g.edges[node]
    ensures ok ==> Pushing(g, s, rank, next, n + 1)
    ensures s.stack == stack && s.visited == s0.visited && s.path == path && s.chain == s0.chain
    ensures !ok ==> !Acyclic(g)
  {
    ok, stack, s := true, stack0, s0;
    if n in edges {
      assert Prereq(g, node, n);
      if n in path {
        PathCycle(g, s, n);
        return false, stack, s;
      }
      PushStep(g, s, rank, next, n);
      stack := stack + [n];
      s := PushStack(s, n);
    } else {
      SkipStep(g, s, rank, next, n);
    }
  }

  /** With the stack empty, the path is empty too. */
  lemma SearchEmptied(g: Graph, s: Search, rank: map<nat, nat>, next: nat)
    requires WellFormed(g) && Searching(g, s, rank, next) && s.stack == []
    ensures s.chain == [] && s.path == {}
  {
    assert s.chain == [];
    assert forall x :: x in s.path ==> x in s.chain;
    assert forall x :: x !in s.path;
  }

  /** The graph `parse_input` returns: the parsed lines, unless they form a
      cycle. */
  ghost function Parsed(text: string): Result<Graph> {
    var r := Edges(Lines(text));
    if r.Ok? && !Acyclic(r.value) then Err(ParseError("graph contains cycles")) else r
  }

  /** `parse_input`: read the lines into a graph, then reject cycles. */
  method ParseInput(text: string) returns (r: Result<Graph>)
    ensures r == Parsed(text)
    ensures r.Ok? ==> WellFormed(r.value) && Acyclic(r.value)
  {
    r := BuildGraph(Lines(text));
    if r.Ok? {
      var ok := CheckCycles(r.value);
      if !ok {
        r := Err(ParseError("graph contains cycles"));
      }
    }
  }

  // ---------------------------------------------------------------------
  // tasks_t

  /** The steps below `n` whose prerequisites are all done. */
  function ReadyBelow(g: Graph, done: set<nat>, n: nat): (r: set<nat>)
    requires WellFormed(g) && n <= N
    ensures forall t: int :: t in r <==> 0 <= t < n && g.edges[t] <= done
  {
    if n == 0 then {}
    else ReadyBelow(g, done, n - 1) + (if g.edges[n - 1] * (All() - done) == {} then {n - 1} else {})
  }

  /** The steps `update` finds free to start: nothing impedes them. */
  function Ready(g: Graph, done: set<nat>): set<nat>
    requires WellFormed(g)
  {
    ReadyBelow(g, done, N)
  }

  /** The lowest member of `s` from `i` on, as `next_available` scans. */
  function First(s: set<nat>, i: nat): (r: Option<nat>)
    requires i <= N
    ensures r.None? <==> forall t :: i <= t < N ==> t !in s
    ensures r.Some? ==> i <= r.value < N && r.value in s && forall t :: i <= t < r.value ==> t !in s
    decreases N - i
  {
    if i == N then None else if i in s then Some(i) else First(s, i + 1)
  }

  /** `tasks_t`: the steps free to start, the steps in progress and the
      steps done. */
  class Tasks {
    var available: set<nat>
    var taken: set<nat>
    var done: set<nat>

    ghost predicate Valid()
      reads this
    {
      available <= All() && taken <= All() && done <= All() &&
      available * taken == {} && available * done == {} && taken * done == {}
    }

    /** Everything not among `tasks` counts as done already. */
    constructor (tasks: set<nat>)
      ensures Valid() && available == {} && taken == {} && done == All() - tasks
    {
      available, taken, done := {}, {}, All() - tasks;
    }

    /** `operator bool`: some step is not done. */
    function Pending(): (b: bool)
      reads this
      ensures b <==> exists t :: 0 <= t < N && t !in done
    {
      !(All() <= done)
    }

    function AreAvailable(): (b: bool)
      reads this
      ensures b <==> exists t :: t in available
    {
      available != {}
    }

    /** `next_available`: the lowest step free to start. */
    method NextAvailable() returns (t: Option<nat>)
      requires Valid()
      ensures t == First(available, 0)
      ensures t.None? <==> available == {}
      ensures t.Some? ==> t.value in available && forall u :: u in available ==> t.value <= u
    {
      for i := 0 to N
        invariant First(available, 0) == First(available, i)
      {
        if i in available {
          return Some(i);
        }
      }
      return None;
    }

    /** `take`: a step free to start moves into progress. */
    method Take(t: nat)
      requires Valid() && t in available
      modifies this
      ensures Valid()
      ensures available == old(available) - {t} && taken == old(taken) + {t} && done == old(done)
    {
      available, taken := available - {t}, taken + {t};
    }

    /** `mark_as_done`. */
    method MarkAsDone(t: nat)
      requires Valid() && t < N
      modifies this
      ensures Valid()
      ensures available == old(available) - {t} && taken == old(taken) - {t} && done == old(done) + {t}
    {
      available, taken, done := available - {t}, taken - {t}, done + {t};
    }

    /** `update`: every step nothing impedes becomes free to start, unless
        it is in progress or done. */
    method Update(g: Graph)
      requires WellFormed(g) && Valid()
      modifies this
      ensures Valid() && taken == old(taken) && done == old(done)
      ensures available == (old(available) + Ready(g, done)) - taken - done
    {
      var toDo := All() - done;
      for t := 0 to N
        invariant available == old(available) + ReadyBelow(g, done, t)
        invariant taken == old(taken) && done == old(done)
      {
        var impeding := g.edges[t];
        assert ReadyBelow(g, done, t + 1) == ReadyBelow(g, done, t) + (if impeding * toDo == {} then {t} else {});
        if impeding * toDo == {} {
          available := available + {t};
        }
      }
      assert available <= All();
      available := available * (All() - taken);
      available := available * toDo;
    }
  }

  // ---------------------------------------------------------------------
  // resultA

  /** The steps free to start once `done` are done. */
  function Avail(g: Graph, done: set<nat>): set<nat>
    requires WellFormed(g)
  {
    Ready(g, done) - done
  }

  /** The order one worker does the steps in, from `done` on: always the
      lowest step free to start. */
  function Order(g: Graph, done: set<nat>): (o: seq<nat>)
    requires WellFormed(g)
    ensures Outside(o, done)
    decreases All() - done
  {
    match First(Avail(g, done), 0)
    case None => []
    case Some(t) =>
      OrderShrinks(g, done, t);
      var rest := Order(g, done + {t});
      OutsideCons(t, rest, done);
      [t] + rest
  }

  /** Every step of `o` is a step and not in `done`. */
  predicate Outside(o: seq<nat>, done: set<nat>) {
    forall k :: 0 <= k < |o| ==> o[k] < N && o[k] !in done
  }

  lemma OutsideCons(t: nat, rest: seq<nat>, done: set<nat>)
    requires t < N && t !in done && Outside(rest, done + {t})
    ensures Outside([t] + rest, done)
  {
  }

  /** Doing an available step shrinks what is left to do. */
  lemma OrderShrinks(g: Graph, done: set<nat>, t: nat)
    requires WellFormed(g) && t in Avail(g, done)
    ensures t < N && t !in done
    ensures All() - (done + {t}) < All() - done
  {
    assert t in All() - done;
  }

  function Letters(ts: seq<nat>): string
    requires forall k :: 0 <= k < |ts| ==> ts[k] < N
  {
    if ts == [] then [] else [Letter(ts[0])] + Letters(ts[1..])
  }

  /** The order from `done` is the first available step `t`, then the
      order from `done + {t}`, letter by letter. */
  lemma OrderNext(g: Graph, done: set<nat>, t: nat)
    requires WellFormed(g) && First(Avail(g, done), 0) == Some(t)
    ensures t < N && Order(g, done) == [t] + Order(g, done + {t})
    ensures Letters(Order(g, done)) == [Letter(t)] + Letters(Order(g, done + {t}))
  {
    var o := Order(g, done);
    assert o[1..] == Order(g, done + {t});
  }

  /** After step `t` is done and `update` runs, the available steps are
      again those ready and not done. */
  lemma AvailNext(g: Graph, done: set<nat>, t: nat)
    requires WellFormed(g) && t in Avail(g, done)
    ensures ((Avail(g, done) - {t}) + Ready(g, done + {t})) - {} - (done + {t}) == Avail(g, done + {t})
  {
    assert Avail(g, done) - {t} <= Ready(g, done + {t});
  }

  /** No step comes twice. */
  lemma {:induction false} OrderDistinct(g: Graph, done: set<nat>)
    requires WellFormed(g)
    ensures var o := Order(g, done);
      forall i, j :: 0 <= i < j < |o| ==> o[i] != o[j]
    decreases All() - done
  {
    match First(Avail(g, done), 0)
    case None =>
    case Some(t) =>
      OrderShrinks(g, done, t);
      OrderNext(g, done, t);
      OrderDistinct(g, done + {t});
      var o, rest := Order(g, done), Order(g, done + {t});
      forall i, j | 0 <= i < j < |o|
        ensures o[i] != o[j]
      {
        assert o[j] == rest[j - 1] && rest[j - 1] !in done + {t};
        if i > 0 {
          assert o[i] == rest[i - 1];
        }
      }
  }

  /** Every prerequisite of a step of `o` is in `done` or comes before it. */
  ghost predicate Topological(g: Graph, done: set<nat>, o: seq<nat>)
    requires WellFormed(g)
  {
    forall k, a :: 0 <= k < |o| && Prereq(g, o[k], a) ==> a in done || exists i :: 0 <= i < k && o[i] == a
  }

  lemma TopologicalCons(g: Graph, done: set<nat>, t: nat, rest: seq<nat>)
    requires WellFormed(g) && t < N && g.edges[t] <= done && Topological(g, done + {t}, rest)
    ensures Topological(g, done, [t] + rest)
  {
    var o := [t] + rest;
    forall k, a | 0 <= k < |o| && Prereq(g, o[k], a) && a !in done
      ensures exists i :: 0 <= i < k && o[i] == a
    {
      assert k > 0 && o[k] == rest[k - 1];
      if a == t {
        assert o[0] == a;
      } else {
        assert Prereq(g, rest[k - 1], a) && a !in done + {t};
        var i :| 0 <= i < k - 1 && rest[i] == a;
        assert o[i + 1] == a;
      }
    }
  }

  /** Every prerequisite of a step comes before it, unless it was done
      already. */
  lemma {:induction false} OrderAfterPrereqs(g: Graph, done: set<nat>)
    requires WellFormed(g)
    ensures Topological(g, done, Order(g, done))
    decreases All() - done
  {
    if Order(g, done) != [] {
      OrderHead(g, done);
      var t := Order(g, done)[0];
      OrderShrinks(g, done, t);
      OrderAfterPrereqs(g, done + {t});
      assert t in Ready(g, done);
      TopologicalCons(g, done, t, Order(g, done + {t}));
    }
  }

  /** In a graph without cycles some step is free to start as long as one
      is not done: follow prerequisites that are not done down the ranks. */
  lemma ReadyExists(g: Graph, done: set<nat>, t: nat)
    requires WellFormed(g) && Acyclic(g) && t < N && t !in done
    ensures First(Avail(g, done), 0).Some?
  {
    var rank :| Ranked(g, rank);
    var u := t;
    while !(g.edges[u] <= done)
      invariant u < N && u !in done && u in rank
      decreases rank[u]
    {
      var a :| a in g.edges[u] && a !in done;
      assert a in g.vertices;
      u := a;
    }
    assert u in Avail(g, done);
  }

  /** In a graph without cycles, nothing is free to start only once
      everything is done. */
  lemma NothingReady(g: Graph, done: set<nat>)
    requires WellFormed(g) && Acyclic(g) && First(Avail(g, done), 0).None?
    ensures forall t :: 0 <= t < N ==> t in done
  {
    forall t | 0 <= t < N
      ensures t in done
    {
      if t !in done {
        ReadyExists(g, done, t);
        assert false;
      }
    }
  }

  /** In a graph without cycles, every step not done is done in the end. */
  lemma {:induction false} OrderComplete(g: Graph, done: set<nat>)
    requires WellFormed(g) && Acyclic(g)
    ensures forall t :: 0 <= t < N && t !in done ==> t in Order(g, done)
    decreases All() - done
  {
    match First(Avail(g, done), 0)
    case None =>
      NothingReady(g, done);
    case Some(t) =>
      OrderShrinks(g, done, t);
      OrderNext(g, done, t);
      OrderComplete(g, done + {t});
  }

  /** The steps of the first `k` entries of `o`. */
  function Prefix(o: seq<nat>, k: nat): (r: set<nat>)
    requires k <= |o|
    ensures forall u :: u in r <==> exists i :: 0 <= i < k && o[i] == u
  {
    set i | 0 <= i < k :: o[i]
  }

  lemma PrefixCons(t: nat, rest: seq<nat>, k: nat)
    requires 0 < k <= |rest| + 1
    ensures Prefix([t] + rest, k) == {t} + Prefix(rest, k - 1)
  {
    var o := [t] + rest;
    forall u
      ensures u in Prefix(o, k) <==> u in {t} + Prefix(rest, k - 1)
    {
      if u in Prefix(rest, k - 1) {
        var i :| 0 <= i < k - 1 && rest[i] == u;
        assert o[i + 1] == u;
      }
      if u == t {
        assert o[0] == u;
      }
      if u in Prefix(o, k) {
        var i :| 0 <= i < k && o[i] == u;
        if i > 0 {
          assert rest[i - 1] == u;
        }
      }
    }
  }

  /** Each step of the order is the lowest one free to start once `done`
      and the steps before it are done. */
  lemma {:induction false} OrderGreedy(g: Graph, done: set<nat>, k: nat)
    requires WellFormed(g) && k < |Order(g, done)|
    ensures var o := Order(g, done);
      First(Avail(g, done + Prefix(o, k)), 0) == Some(o[k])
    decreases k
  {
    var o := Order(g, done);
    OrderHead(g, done);
    var t := o[0];
    if k == 0 {
      assert done + Prefix(o, k) == done;
    } else {
      var rest := Order(g, done + {t});
      OrderGreedy(g, done + {t}, k - 1);
      PrefixShift(done, t, rest, k);
    }
  }

  /** A non-empty order starts with the first available step. */
  lemma OrderHead(g: Graph, done: set<nat>)
    requires WellFormed(g) && Order(g, done) != []
    ensures var o := Order(g, done);
      First(Avail(g, done), 0) == Some(o[0]) && o == [o[0]] + Order(g, done + {o[0]})
  {
    assert First(Avail(g, done), 0).Some?;
    OrderNext(g, done, First(Avail(g, done), 0).value);
  }

  lemma PrefixShift(done: set<nat>, t: nat, rest: seq<nat>, k: nat)
    requires 0 < k <= |rest| + 1
    ensures done + {t} + Prefix(rest, k - 1) == done + Prefix([t] + rest, k)
  {
    PrefixCons(t, rest, k);
  }

  /** `resultA`'s order in a parsed graph: every vertex exactly once, and
      each after all its prerequisites. */
  lemma OrderTopological(g: Graph)
    requires WellFormed(g) && Acyclic(g)
    ensures var o := Order(g, All() - g.vertices);
      (forall t :: t in o <==> t in g.vertices) &&
      (forall i, j :: 0 <= i < j < |o| ==> o[i] != o[j]) &&
      (forall k, a :: 0 <= k < |o| && Prereq(g, o[k], a) ==> exists i :: 0 <= i < k && o[i] == a)
  {
    var done := All() - g.vertices;
    var o := Order(g, done);
    OrderComplete(g, done);
    OrderDistinct(g, done);
    OrderAfterPrereqs(g, done);
    assert Topological(g, done, o);
    forall k, a | 0 <= k < |o| && Prereq(g, o[k], a)
      ensures a !in done
    {
      assert a in g.vertices;
    }
  }

  lemma Associative(a: string, b: string, c: string)
    ensures (a + b) + c == a + (b + c)
  {
  }

  /** `resultA`: the letters of the steps in the order one worker does them. */
  method ResultA(g: Graph) returns (str: string)
    requires WellFormed(g)
    ensures str == Letters(Order(g, All() - g.vertices))
  {
    str := "";
    var tasks := new Tasks(g.vertices);
    tasks.Update(g);
    while tasks.AreAvailable()
      invariant tasks.Valid() && tasks.taken == {} && tasks.available == Avail(g, tasks.done)
      invariant str + Letters(Order(g, tasks.done)) == Letters(Order(g, All() - g.vertices))
      decreases All() - tasks.done
    {
      var next := tasks.NextAvailable();
      var t := next.value;
      ghost var done := tasks.done;
      OrderShrinks(g, done, t);
      OrderNext(g, done, t);
      ghost var rest := Letters(Order(g, done + {t}));
      Associative(str, [Letter(t)], rest);
      str := str + [Letter(t)];
      tasks.MarkAsDone(t);
      assert tasks.taken == {} && tasks.available == Avail(g, done) - {t};
      tasks.Update(g);
      AvailNext(g, done, t);
    }
  }
}
