/** 2019 day 3: two wires, each a list of moves up, right, down or left by
    some distance from the origin. Part A cuts the first wire into vertical
    and horizontal straights; neither part computes an answer yet, both
    return none. */
module Aoc2019D03 {
  import opened Wrappers
  import opened Text
  import opened Vector

  datatype Direction = Up | Down | Left | Right

  /** `move_t`: a direction and an unsigned distance. */
  datatype Move = Move(dir: Direction, length: nat)

  // ---------------------------------------------------------------------
  // parse_input

  /** The direction a letter names, if it names one. */
  function DirectionOf(c: char): (r: Option<Direction>)
    ensures r.Some? <==> c in "URDL"
    ensures r.Some? ==> !IsSpace(c)
  {
    if c == 'U' then Some(Up)
    else if c == 'R' then Some(Right)
    else if c == 'D' then Some(Down)
    else if c == 'L' then Some(Left)
    else None
  }

  /** `substr >> dir >> value` on one comma-separated part; what follows the
      number is not read. */
  function ParseMove(part: string): (r: Result<Move>)
    ensures ReadChar(part).Got? && DirectionOf(ReadChar(part).value).None? ==> r.Err?
    ensures r.Ok? ==> ReadChar(part).Got? && DirectionOf(ReadChar(part).value) == Some(r.value.dir)
  {
    var c := ReadChar(part);
    if c.Stuck? then Err(ParseError(""))
    else
      var v := ReadUnsigned(c.rest);
      if v.Stuck? then Err(ParseError(""))
      else
        var d := DirectionOf(c.value);
        if d.None? then Err(ParseError("")) else Ok(Move(d.value, v.value))
  }

  /** The values of a run of results, or the first error among them. */
  function Collect<T>(results: seq<Result<T>>): (r: Result<seq<T>>)
    ensures r.Ok? ==> |r.value| == |results|
  {
    if results == [] then Ok([])
    else if results[0].Err? then Err(results[0].error)
    else
      var others := Collect(results[1..]);
      if others.Err? then others else Ok([results[0].value] + others.value)
  }

  /** Results that are all values collect to those values. */
  lemma {:induction false} CollectOk<T>(results: seq<Result<T>>, values: seq<T>)
    requires |results| == |values|
    requires forall k :: 0 <= k < |results| ==> results[k] == Ok(values[k])
    ensures Collect(results) == Ok(values)
  {
    if results != [] {
      CollectOk(results[1..], values[1..]);
      assert [values[0]] + values[1..] == values;
    }
  }

  /** The moves of a line's parts, in order; the first bad part fails. */
  function ParseCurve(parts: seq<string>): (r: Result<seq<Move>>)
    ensures r.Ok? ==> |r.value| == |parts|
  {
    Collect(seq(|parts|, k requires 0 <= k < |parts| => ParseMove(parts[k])))
  }

  /** The lines that are not empty, in order. */
  function NonEmpty(lines: seq<string>): (r: seq<string>)
    ensures |r| <= |lines|
    ensures forall k :: 0 <= k < |r| ==> r[k] != []
  {
    if lines == [] then []
    else if lines[0] == [] then NonEmpty(lines[1..])
    else [lines[0]] + NonEmpty(lines[1..])
  }

  /** The curve of the `i`-th non-empty line; a missing line leaves the
      curve empty. */
  function CurveAt(lines: seq<string>, i: nat): (r: Result<seq<Move>>)
    ensures i >= |lines| ==> r == Ok([])
  {
    if i < |lines| then ParseCurve(Split(lines[i], ',')) else Ok([])
  }

  /** `parse_input`: each non-empty line fills the next of the two curves,
      a third one fails, and a curve without a line stays empty. */
  function ParseInput(text: string): (r: Result<seq<seq<Move>>>)
    ensures r.Ok? <==> |NonEmpty(Lines(text))| <= 2
                       && CurveAt(NonEmpty(Lines(text)), 0).Ok?
                       && CurveAt(NonEmpty(Lines(text)), 1).Ok?
    ensures r.Ok? ==> r.value == [CurveAt(NonEmpty(Lines(text)), 0).value,
                                  CurveAt(NonEmpty(Lines(text)), 1).value]
  {
    var lines := NonEmpty(Lines(text));
    if |lines| > 2 then Err(ParseError(""))
    else
      var first := CurveAt(lines, 0);
      var second := CurveAt(lines, 1);
      if first.Err? then Err(first.error)
      else if second.Err? then Err(second.error)
      else Ok([first.value, second.value])
  }

  /** The letter of a direction, which names it back. */
  function DirectionChar(d: Direction): (c: char)
    ensures DirectionOf(c) == Some(d)
  {
    match d
    case Up => 'U'
    case Right => 'R'
    case Down => 'D'
    case Left => 'L'
  }

  /** A move as the puzzle writes it: the letter, then the distance. */
  function RenderMove(m: Move): string {
    [DirectionChar(m.dir)] + NatToString(m.length)
  }

  /** A wire's moves, each followed by a comma. */
  function RenderCurve(curve: seq<Move>): string {
    Terminated(seq(|curve|, k requires 0 <= k < |curve| => RenderMove(curve[k])), ',')
  }

  /** A written move reads back. */
  lemma ParseMoveRender(m: Move)
    ensures ParseMove(RenderMove(m)) == Ok(m)
  {
    ReadUnsignedDigits(m.length);
    ParseMoveOf(DirectionChar(m.dir), NatToString(m.length), m.length);
  }

  /** A direction letter followed by a number that reads to its end. */
  lemma ParseMoveOf(c: char, digits: string, n: nat)
    requires DirectionOf(c).Some?
    requires ReadUnsigned(digits) == Got(n, [])
    ensures ParseMove([c] + digits) == Ok(Move(DirectionOf(c).value, n))
  {
    assert !IsSpace(c);
    ReadCharFirst(c, digits);
    ParseMoveSteps([c] + digits, c, digits, n);
  }

  /** A number written alone reads back to its end. */
  lemma ReadUnsignedDigits(n: nat)
    ensures ReadUnsigned(NatToString(n)) == Got(n, [])
  {
    ReadUnsignedNatToString(n, []);
    assert NatToString(n) + [] == NatToString(n);
  }

  /** `ParseMove` from the results of its two extractions. */
  lemma ParseMoveSteps(part: string, c: char, rest: string, n: nat)
    requires ReadChar(part) == Got(c, rest) && ReadUnsigned(rest) == Got(n, [])
    requires DirectionOf(c).Some?
    ensures ParseMove(part) == Ok(Move(DirectionOf(c).value, n))
  {
  }

  /** A character that is not whitespace is read as it stands. */
  lemma ReadCharFirst(c: char, rest: string)
    requires !IsSpace(c)
    ensures ReadChar([c] + rest) == Got(c, rest)
  {
    assert SkipWs([c] + rest) == [c] + rest;
    assert ([c] + rest)[1..] == rest;
  }

  /** Parts that each parse make the whole line parse. */
  lemma ParseCurveOk(parts: seq<string>, curve: seq<Move>)
    requires |parts| == |curve|
    requires forall k :: 0 <= k < |curve| ==> ParseMove(parts[k]) == Ok(curve[k])
    ensures ParseCurve(parts) == Ok(curve)
  {
    CollectOk(seq(|parts|, k requires 0 <= k < |parts| => ParseMove(parts[k])), curve);
  }

  /** A written wire reads back as its moves. */
  lemma ParseCurveRender(curve: seq<Move>)
    ensures ParseCurve(Split(RenderCurve(curve), ',')) == Ok(curve)
  {
    var parts := seq(|curve|, k requires 0 <= k < |curve| => RenderMove(curve[k]));
    forall k | 0 <= k < |parts|
      ensures ',' !in parts[k] && ParseMove(parts[k]) == Ok(curve[k])
    {
      RenderMoveWithout(curve[k], ',');
      ParseMoveRender(curve[k]);
    }
    SplitOfTerminated(parts, ',');
    ParseCurveOk(parts, curve);
  }

  /** Two written wires, one per line, read back as themselves. */
  lemma ParseInputRender(a: seq<Move>, b: seq<Move>)
    requires a != [] && b != []
    ensures ParseInput(Terminated([RenderCurve(a), RenderCurve(b)], '\n')) == Ok([a, b])
  {
    var la, lb := RenderCurve(a), RenderCurve(b);
    NoNewline(a);
    NoNewline(b);
    SplitOfTerminated([la, lb], '\n');
    assert la != [] && lb != [] by {
      assert |la| >= |RenderMove(a[0])|;
      assert |lb| >= |RenderMove(b[0])|;
    }
    assert NonEmpty([la, lb]) == [la, lb] by {
      assert [la, lb][1..] == [lb];
      assert NonEmpty([lb]) == [lb] + NonEmpty([]);
    }
    ParseCurveRender(a);
    ParseCurveRender(b);
  }

  /** A written wire is a single line. */
  lemma NoNewline(curve: seq<Move>)
    ensures '\n' !in RenderCurve(curve)
  {
    var parts := seq(|curve|, k requires 0 <= k < |curve| => RenderMove(curve[k]));
    forall k | 0 <= k < |parts|
      ensures '\n' !in parts[k]
    {
      RenderMoveWithout(curve[k], '\n');
    }
    TerminatedWithout(parts, ',', '\n');
  }

  /** A written move holds only its letter and digits. */
  lemma RenderMoveWithout(m: Move, x: char)
    requires !IsDigit(x) && DirectionOf(x).None?
    ensures x !in RenderMove(m)
  {
    NatToStringDigits(m.length);
    assert DirectionChar(m.dir) != x;
  }

  /** Gluing pieces with a delimiter adds no other character. */
  lemma {:induction false} TerminatedWithout(pieces: seq<string>, delim: char, c: char)
    requires c != delim
    requires forall k :: 0 <= k < |pieces| ==> c !in pieces[k]
    ensures c !in Terminated(pieces, delim)
  {
    if pieces != [] {
      TerminatedWithout(pieces[1..], delim, c);
    }
  }

  /** A wire of more lines than two is rejected. */
  lemma ThirdLineRejected(text: string)
    requires |NonEmpty(Lines(text))| > 2
    ensures ParseInput(text).Err?
  {
  }

  // ---------------------------------------------------------------------
  // resultA: get_straight

  datatype StraightType = Vertical | Horizontal

  /** `straight_t`: the fixed coordinate and the bounds of the other one. */
  datatype Straight = Straight(at: int, lo: int, hi: int)

  /** The displacement of a move. */
  function Delta(m: Move): Vec2 {
    match m.dir
    case Up => Vec2(0, m.length)
    case Down => Vec2(0, -(m.length as int))
    case Left => Vec2(-(m.length as int), 0)
    case Right => Vec2(m.length, 0)
  }

  /** What `get_straight` returns for a move from `from`, computed from the
      moved offset as the source does. */
  function Straighten(from: Vec2, m: Move): (r: (StraightType, Straight))
    ensures r.1.lo <= r.1.hi && r.1.hi - r.1.lo == m.length
    ensures r.0 == Vertical <==> m.dir == Up || m.dir == Down
  {
    var to := Add(from, Delta(m));
    match m.dir
    case Up => (Vertical, Straight(to.x, to.y - m.length, to.y))
    case Down => (Vertical, Straight(to.x, to.y, to.y + m.length))
    case Left => (Horizontal, Straight(to.y, to.x, to.x + m.length))
    case Right => (Horizontal, Straight(to.y, to.x - m.length, to.x))
  }

  /** The straight joins where the move starts and where it ends: up and
      down give a vertical straight at their column, left and right a
      horizontal one at their row, with the lower bound first and the
      move's length between the bounds. */
  lemma StraightJoins(from: Vec2, m: Move)
    ensures var (t, s) := Straighten(from, m);
            var to := Add(from, Delta(m));
            s.lo <= s.hi && s.hi - s.lo == m.length &&
            (t == Vertical <==> m.dir == Up || m.dir == Down) &&
            (t == Vertical ==> s.at == from.x == to.x && {s.lo, s.hi} == {from.y, to.y}) &&
            (t == Horizontal ==> s.at == from.y == to.y && {s.lo, s.hi} == {from.x, to.x})
  {
  }

  /** `get_straight`: moves `offset` by the move and returns the straight
      it covered. */
  method GetStraight(offset: Vec2Var, m: Move) returns (t: StraightType, s: Straight)
    modifies offset
    ensures offset.Value() == Add(old(offset.Value()), Delta(m))
    ensures (t, s) == Straighten(old(offset.Value()), m)
  {
    match m.dir {
      case Up =>
        offset.AddAssign(Vec2(0, m.length));
        t, s := Vertical, Straight(offset.x, offset.y - m.length, offset.y);
      case Down =>
        offset.AddAssign(Vec2(0, -(m.length as int)));
        t, s := Vertical, Straight(offset.x, offset.y, offset.y + m.length);
      case Left =>
        offset.AddAssign(Vec2(-(m.length as int), 0));
        t, s := Horizontal, Straight(offset.y, offset.x, offset.x + m.length);
      case Right =>
        offset.AddAssign(Vec2(m.length, 0));
        t, s := Horizontal, Straight(offset.y, offset.x - m.length, offset.x);
    }
  }

  /** Where a wire ends, from the origin. */
  function EndPoint(curve: seq<Move>): Vec2 {
    if curve == [] then Vec2(0, 0)
    else Add(EndPoint(curve[..|curve| - 1]), Delta(curve[|curve| - 1]))
  }

  /** The straights of a wire of type `t`, in order. */
  function Straights(curve: seq<Move>, t: StraightType): seq<Straight> {
    if curve == [] then []
    else
      var init := curve[..|curve| - 1];
      var (t', s) := Straighten(EndPoint(init), curve[|curve| - 1]);
      if t' == t then Straights(init, t) + [s] else Straights(init, t)
  }

  /** Every move gives exactly one straight, of one of the two types. */
  lemma {:induction false} StraightsCount(curve: seq<Move>)
    ensures |Straights(curve, Vertical)| + |Straights(curve, Horizontal)| == |curve|
  {
    if curve != [] {
      StraightsCount(curve[..|curve| - 1]);
    }
  }

  /** The loop of `resultA` over the first wire, from the origin, sorting
      each straight into `vsegments` or `hsegments`. */
  method SplitStraights(curve: seq<Move>) returns (vsegments: seq<Straight>, hsegments: seq<Straight>)
    ensures vsegments == Straights(curve, Vertical)
    ensures hsegments == Straights(curve, Horizontal)
  {
    var pos := new Vec2Var(Vec2(0, 0));
    vsegments, hsegments := [], [];
    for k := 0 to |curve|
      invariant pos.Value() == EndPoint(curve[..k])
      invariant vsegments == Straights(curve[..k], Vertical)
      invariant hsegments == Straights(curve[..k], Horizontal)
    {
      assert curve[..k + 1][..k] == curve[..k];
      var t, s := GetStraight(pos, curve[k]);
      if t == Horizontal {
        hsegments := hsegments + [s];
      } else {
        vsegments := vsegments + [s];
      }
    }
    assert curve[..|curve|] == curve;
  }

  /** `resultA`: the straights are computed, but no answer is. */
  method ResultA(input: seq<seq<Move>>) returns (r: Option<nat>)
    requires |input| == 2
    ensures r.None?
  {
    var vsegments, hsegments := SplitStraights(input[0]);
    r := None;
  }

  /** `resultB`: no answer. */
  function ResultB(input: seq<seq<Move>>): (r: Option<nat>)
    ensures r.None?
  {
    None
  }
}
