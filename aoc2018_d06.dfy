/** 2018 day 6: a discrete Voronoi diagram under the Manhattan distance.
    Every cell of the bounding box belongs to the unique nearest input point,
    or to none on a tie; part A is the largest region that does not reach
    the border of the box. */
module Aoc2018D06 {
  import opened Wrappers
  import opened Text
  import opened Vector
  import Grid
  import Hyperbox

  const INTMAX_MAX: int := 0x7FFF_FFFF_FFFF_FFFF
  const SIZE_MAX: nat := 0xFFFF_FFFF_FFFF_FFFF

  /** A bound on the coordinates under which no `intmax_t` arithmetic of
      `resultA` overflows and every distance stays below `INTMAX_MAX`. */
  const BOUND: int := 0x2000_0000_0000_0000

  // ---------------------------------------------------------------------
  // parse

  /** One line "x, y": a number, a comma (after optional spaces), a number;
      the rest of the line is not read. */
  function ParsePoint(line: string): (r: Result<Vec2>)
    ensures ReadSigned(line).Stuck? ==> r.Err?
    ensures r.Ok? ==> ReadSigned(line).Got? && r.value.x == ReadSigned(line).value
  {
    match ReadSigned(line)
    case Stuck(_) => Err(ParseError(""))
    case Got(x, afterX) =>
      match ReadChar(afterX)
      case Stuck(_) => Err(ParseError(""))
      case Got(c, afterComma) =>
        if c != ',' then Err(ParseError(""))
        else
          match ReadSigned(afterComma)
          case Stuck(_) => Err(ParseError(""))
          case Got(y, _) => Ok(Vec2(x, y))
  }

  /** The line `operator<<` would write for a point parses back to it. */
  lemma ParsePointBack(p: Vec2, tail: string)
    requires tail == [] || !IsDigit(tail[0])
    ensures ParsePoint(IntToString(p.x) + ", " + IntToString(p.y) + tail) == Ok(p)
  {
    var afterComma := " " + IntToString(p.y) + tail;
    var afterX := [','] + afterComma;
    assert IntToString(p.x) + ", " + IntToString(p.y) + tail == IntToString(p.x) + afterX;
    ReadSignedIntToString(p.x, afterX);
    ReadCharComma(afterComma);
    ReadSignedAfterSpace(p.y, tail);
  }

  lemma ReadCharComma(rest: string)
    ensures ReadChar([','] + rest) == Got(',', rest)
  {
    assert ([','] + rest)[1..] == rest;
  }

  lemma ReadSignedAfterSpace(y: int, tail: string)
    requires tail == [] || !IsDigit(tail[0])
    ensures ReadSigned(" " + IntToString(y) + tail) == Got(y, tail)
  {
    assert " " + IntToString(y) + tail == [' '] + (IntToString(y) + tail);
    ReadSignedSkipsSpace(' ', IntToString(y) + tail);
    ReadSignedIntToString(y, tail);
  }

  /** The `getline` loop: empty lines are skipped, every other line is one
      point; the first bad line fails the whole parse. */
  function Points(lines: seq<string>): (r: Result<seq<Vec2>>)
    ensures r.Ok? ==> |r.value| <= |lines|
  {
    if lines == [] then Ok([])
    else
      var init := Points(lines[..|lines| - 1]);
      var line := lines[|lines| - 1];
      if init.Err? || line == [] then init
      else
        match ParsePoint(line)
        case Err(e) => Err(e)
        case Ok(p) => Ok(init.value + [p])
  }

  /** A line without a comma after its first number is refused. */
  lemma MissingComma(x: int, tail: string)
    requires tail == [] || !IsDigit(tail[0])
    requires SkipWs(tail) == [] || SkipWs(tail)[0] != ','
    ensures ParsePoint(IntToString(x) + tail).Err?
  {
    ReadSignedIntToString(x, tail);
  }

  /** A line with no number after its comma is refused. */
  lemma MissingSecond(x: int, tail: string)
    requires ReadSigned(tail).Stuck?
    ensures ParsePoint(IntToString(x) + "," + tail).Err?
  {
    var line := IntToString(x) + "," + tail;
    var afterX := [','] + tail;
    assert line == IntToString(x) + afterX;
    ReadSignedIntToString(x, afterX);
    assert ReadSigned(line) == Got(x, afterX);
    ReadCharComma(tail);
    assert ReadChar(afterX) == Got(',', tail);
  }

  /** The line a point is written as: "x, y". */
  function PointLine(p: Vec2): string
  {
    IntToString(p.x) + ", " + IntToString(p.y)
  }

  /** A point's line starts with '-' or a digit and holds no line break. */
  lemma PointLineChars(p: Vec2)
    ensures PointLine(p) != [] && !IsSpace(PointLine(p)[0]) && '\n' !in PointLine(p)
  {
    IntToStringChars(p.x);
    IntToStringChars(p.y);
  }

  /** Every non-empty line is a point. */
  predicate AllPoints(lines: seq<string>)
  {
    forall k :: 0 <= k < |lines| && lines[k] != [] ==> ParsePoint(lines[k]).Ok?
  }

  lemma AllPointsInit(lines: seq<string>)
    requires lines != [] && AllPoints(lines)
    ensures AllPoints(lines[..|lines| - 1])
  {
    var init := lines[..|lines| - 1];
    forall k | 0 <= k < |init| && init[k] != []
      ensures ParsePoint(init[k]).Ok?
    {
      assert init[k] == lines[k];
    }
  }

  lemma AllPointsSnoc(lines: seq<string>)
    requires lines != [] && AllPoints(lines[..|lines| - 1])
    requires lines[|lines| - 1] == [] || ParsePoint(lines[|lines| - 1]).Ok?
    ensures AllPoints(lines)
  {
    var init := lines[..|lines| - 1];
    forall k | 0 <= k < |lines| && lines[k] != []
      ensures ParsePoint(lines[k]).Ok?
    {
      if k < |init| {
        assert init[k] == lines[k];
      }
    }
  }

  /** The loop succeeds exactly when every non-empty line is a point. */
  lemma {:induction false} PointsAccepted(lines: seq<string>)
    ensures Points(lines).Ok? <==> AllPoints(lines)
  {
    if lines != [] {
      PointsAccepted(lines[..|lines| - 1]);
      if Points(lines).Ok? {
        AllPointsSnoc(lines);
      }
      if AllPoints(lines) {
        AllPointsInit(lines);
      }
    }
  }

  /** Points written one per line, in order. */
  function PointLines(pts: seq<Vec2>): (lines: seq<string>)
    ensures |lines| == |pts|
    ensures forall k :: 0 <= k < |pts| ==> lines[k] == PointLine(pts[k])
  {
    seq(|pts|, k requires 0 <= k < |pts| => PointLine(pts[k]))
  }

  /** Each line is non-empty and is the point at the same position. */
  predicate ParsedAs(lines: seq<string>, pts: seq<Vec2>)
  {
    |lines| == |pts| &&
    forall k :: 0 <= k < |lines| ==> lines[k] != [] && ParsePoint(lines[k]) == Ok(pts[k])
  }

  lemma ParsedAsInit(lines: seq<string>, pts: seq<Vec2>)
    requires lines != [] && ParsedAs(lines, pts)
    ensures ParsedAs(lines[..|lines| - 1], pts[..|pts| - 1])
  {
    var before := lines[..|lines| - 1];
    var init := pts[..|pts| - 1];
    forall k | 0 <= k < |before|
      ensures before[k] != [] && ParsePoint(before[k]) == Ok(init[k])
    {
      assert before[k] == lines[k] && init[k] == pts[k];
    }
  }

  /** Lines that are each a point are read back as those points, in
      order. */
  lemma {:induction false} PointsOfParsed(lines: seq<string>, pts: seq<Vec2>)
    requires ParsedAs(lines, pts)
    ensures Points(lines) == Ok(pts)
  {
    if lines != [] {
      ParsedAsInit(lines, pts);
      PointsOfParsed(lines[..|lines| - 1], pts[..|pts| - 1]);
      PointsSnoc(lines, pts[..|pts| - 1], pts[|pts| - 1]);
      InitLast(pts);
    }
  }

  /** Points written one per line are read back, in order. */
  lemma PointsOfLines(pts: seq<Vec2>)
    ensures Points(PointLines(pts)) == Ok(pts)
  {
    var lines := PointLines(pts);
    forall k | 0 <= k < |lines|
      ensures lines[k] != [] && ParsePoint(lines[k]) == Ok(pts[k])
    {
      PointLineChars(pts[k]);
      ParsePointLine(pts[k]);
    }
    PointsOfParsed(lines, pts);
  }

  /** A non-empty list of points, each on its own line, parses back to
      itself. */
  lemma ParseOfLines(pts: seq<Vec2>)
    requires pts != []
    ensures Parse(Terminated(PointLines(pts), '\n')) == Ok(pts)
  {
    var lines := PointLines(pts);
    forall k | 0 <= k < |lines|
      ensures '\n' !in lines[k]
    {
      PointLineChars(pts[k]);
    }
    PointLineChars(pts[0]);
    var text := Terminated(lines, '\n');
    assert text == lines[0] + ['\n'] + Terminated(lines[1..], '\n');
    assert text[0] == lines[0][0];
    assert SkipWs(text) == text;
    SplitOfTerminated(lines, '\n');
    PointsOfLines(pts);
  }

  /** A point's line parses back to it. */
  lemma ParsePointLine(p: Vec2)
    ensures ParsePoint(PointLine(p)) == Ok(p)
  {
    ParsePointBack(p, []);
    assert PointLine(p) + [] == PointLine(p);
  }

  /** One more line that is a point adds it at the end. */
  lemma PointsSnoc(lines: seq<string>, init: seq<Vec2>, p: Vec2)
    requires lines != [] && Points(lines[..|lines| - 1]) == Ok(init)
    requires lines[|lines| - 1] != [] && ParsePoint(lines[|lines| - 1]) == Ok(p)
    ensures Points(lines) == Ok(init + [p])
  {
  }

  lemma InitLast(pts: seq<Vec2>)
    requires pts != []
    ensures pts[..|pts| - 1] + [pts[|pts| - 1]] == pts
  {
  }

  /** One non-empty line that is not a point fails the whole parse, as the
      `parse_exception` thrown inside the loop does. */
  lemma ParseBadLine(text: string, k: nat)
    requires k < |Lines(SkipWs(text))| && Lines(SkipWs(text))[k] != []
    requires ParsePoint(Lines(SkipWs(text))[k]).Err?
    ensures Parse(text).Err?
  {
    PointsAccepted(Lines(SkipWs(text)));
  }

  /** `parse`: its own sentry fails on a stream with nothing but
      whitespace; an empty list is refused too. */
  function Parse(text: string): (r: Result<seq<Vec2>>)
    ensures SkipWs(text) == [] ==> r.Err?
    ensures r.Ok? ==> r.value != [] && r == Points(Lines(SkipWs(text)))
  {
    var rest := SkipWs(text);
    if rest == [] then Err(ParseError(""))
    else
      var r := Points(Lines(rest));
      if r.Ok? && r.value == [] then Err(ParseError("")) else r
  }

  // ---------------------------------------------------------------------
  // moving to the origin

  /** `std::reduce` with `min`: the componentwise smallest point. */
  function Lowest(pts: seq<Vec2>): (m: Vec2)
    requires pts != []
    ensures forall i :: 0 <= i < |pts| ==> m.x <= pts[i].x && m.y <= pts[i].y
    ensures exists i :: 0 <= i < |pts| && m.x == pts[i].x
    ensures exists i :: 0 <= i < |pts| && m.y == pts[i].y
  {
    if |pts| == 1 then pts[0]
    else
      var m := Lowest(pts[..|pts| - 1]);
      assert forall i :: 0 <= i < |pts| - 1 ==> pts[..|pts| - 1][i] == pts[i];
      Min(m, pts[|pts| - 1])
  }

  /** `std::reduce` with `max`: the componentwise largest point. */
  function Highest(pts: seq<Vec2>): (m: Vec2)
    requires pts != []
    ensures forall i :: 0 <= i < |pts| ==> m.x >= pts[i].x && m.y >= pts[i].y
    ensures exists i :: 0 <= i < |pts| && m.x == pts[i].x
    ensures exists i :: 0 <= i < |pts| && m.y == pts[i].y
  {
    if |pts| == 1 then pts[0]
    else
      var m := Highest(pts[..|pts| - 1]);
      assert forall i :: 0 <= i < |pts| - 1 ==> pts[..|pts| - 1][i] == pts[i];
      Max(m, pts[|pts| - 1])
  }

  /** `std::transform` with `x - min_point`. */
  function Translate(pts: seq<Vec2>, t: Vec2): (r: seq<Vec2>)
    ensures |r| == |pts| && forall i :: 0 <= i < |pts| ==> r[i] == Sub(pts[i], t)
  {
    seq(|pts|, i requires 0 <= i < |pts| => Sub(pts[i], t))
  }

  /** After translation by the smallest point every point lies in the box
      from the origin to the largest point. */
  lemma TranslatedInBox(pts: seq<Vec2>)
    requires pts != []
    ensures var q := Translate(pts, Lowest(pts));
      Lowest(q) == Vec2(0, 0) &&
      forall i :: 0 <= i < |q| ==> 0 <= q[i].x <= Highest(q).x && 0 <= q[i].y <= Highest(q).y
  {
    var q := Translate(pts, Lowest(pts));
    TranslatedLowest(pts);
    InBox(q);
  }

  /** Translation by the smallest point makes the origin the smallest point. */
  lemma TranslatedLowest(pts: seq<Vec2>)
    requires pts != []
    ensures Lowest(Translate(pts, Lowest(pts))) == Vec2(0, 0)
  {
    var m := Lowest(pts);
    var q := Translate(pts, m);
    var ix :| 0 <= ix < |pts| && m.x == pts[ix].x;
    var iy :| 0 <= iy < |pts| && m.y == pts[iy].y;
    assert q[ix].x == 0 && q[iy].y == 0;
    LowestIs(q, Vec2(0, 0));
  }

  /** A point below every point and met by some point in each coordinate
      is the smallest point. */
  lemma LowestIs(q: seq<Vec2>, v: Vec2)
    requires q != [] && forall i :: 0 <= i < |q| ==> v.x <= q[i].x && v.y <= q[i].y
    requires (exists i :: 0 <= i < |q| && q[i].x == v.x) && (exists i :: 0 <= i < |q| && q[i].y == v.y)
    ensures Lowest(q) == v
  {
    var lo := Lowest(q);
    var ix :| 0 <= ix < |q| && q[ix].x == v.x;
    var iy :| 0 <= iy < |q| && q[iy].y == v.y;
    assert lo.x <= v.x && lo.y <= v.y;
  }

  /** A point above every point and met by some point in each coordinate
      is the largest point. */
  lemma HighestIs(q: seq<Vec2>, v: Vec2)
    requires q != [] && forall i :: 0 <= i < |q| ==> v.x >= q[i].x && v.y >= q[i].y
    requires (exists i :: 0 <= i < |q| && q[i].x == v.x) && (exists i :: 0 <= i < |q| && q[i].y == v.y)
    ensures Highest(q) == v
  {
    var hi := Highest(q);
    var ix :| 0 <= ix < |q| && q[ix].x == v.x;
    var iy :| 0 <= iy < |q| && q[iy].y == v.y;
    assert hi.x >= v.x && hi.y >= v.y;
  }

  /** Points whose smallest point is the origin lie between it and their
      largest point. */
  lemma InBox(q: seq<Vec2>)
    requires q != [] && Lowest(q) == Vec2(0, 0)
    ensures forall i :: 0 <= i < |q| ==> 0 <= q[i].x <= Highest(q).x && 0 <= q[i].y <= Highest(q).y
  {
  }

  // ---------------------------------------------------------------------
  // closest_point

  /** The state of the inner loop over the points: the nearest index so
      far, its distance, and whether that distance was met again. */
  datatype Scan = Scan(minI: nat, minDist: int, moreThanOnce: bool)

  /** The inner loop after the first `n` points, starting from
      `SIZE_MAX`/`INTMAX_MAX`. */
  function Nearest(pts: seq<Vec2>, p: Vec2, n: nat): (r: Scan)
    requires n <= |pts|
    ensures r.minDist <= INTMAX_MAX
    ensures r.minI == SIZE_MAX || r.minI < n
  {
    if n == 0 then Scan(SIZE_MAX, INTMAX_MAX, false)
    else
      var s := Nearest(pts, p, n - 1);
      var d := Manh(pts[n - 1], p);
      if d == s.minDist then Scan(s.minI, s.minDist, true)
      else if d < s.minDist then Scan(n - 1, d, false)
      else s
  }

  /** `closest_point[p]`: the nearest point's index, none on a tie. */
  function Closest(pts: seq<Vec2>, p: Vec2): (r: Option<nat>)
    ensures r.Some? ==> r.value == SIZE_MAX || r.value < |pts|
  {
    var s := Nearest(pts, p, |pts|);
    if s.moreThanOnce then None else Some(s.minI)
  }

  /** No distance reaches the starting `INTMAX_MAX`. */
  predicate Near(pts: seq<Vec2>, p: Vec2) {
    forall i :: 0 <= i < |pts| ==> Manh(pts[i], p) < INTMAX_MAX
  }

  /** The invariant of the inner loop: a first nearest index among the
      first `n` points, its distance the smallest, and the flag set exactly
      when another of those points is as near. */
  lemma {:induction false} NearestMeaning(pts: seq<Vec2>, p: Vec2, n: nat)
    requires 0 < n <= |pts| && Near(pts, p)
    ensures var s := Nearest(pts, p, n);
      s.minI < n && s.minDist == Manh(pts[s.minI], p) &&
      (forall j :: 0 <= j < n ==> Manh(pts[j], p) >= s.minDist) &&
      (forall j :: 0 <= j < s.minI ==> Manh(pts[j], p) > s.minDist) &&
      (s.moreThanOnce <==> exists j :: 0 <= j < n && j != s.minI && Manh(pts[j], p) == s.minDist)
  {
    if n > 1 {
      NearestMeaning(pts, p, n - 1);
    }
  }

  /** A cell belongs to point `i` exactly when `i` is strictly nearer to it
      than every other point. */
  lemma ClosestMeaning(pts: seq<Vec2>, p: Vec2, i: nat)
    requires pts != [] && Near(pts, p)
    ensures Closest(pts, p) == Some(i) <==>
      i < |pts| && forall j :: 0 <= j < |pts| && j != i ==> Manh(pts[j], p) > Manh(pts[i], p)
  {
    NearestMeaning(pts, p, |pts|);
  }

  /** A cell has no owner exactly when two points tie for nearest. */
  lemma ClosestNone(pts: seq<Vec2>, p: Vec2)
    requires pts != [] && Near(pts, p)
    ensures Closest(pts, p) == None <==>
      exists i, j :: 0 <= i < j < |pts| && Manh(pts[i], p) == Manh(pts[j], p) &&
        forall k :: 0 <= k < |pts| ==> Manh(pts[k], p) >= Manh(pts[i], p)
  {
    NearestMeaning(pts, p, |pts|);
    var s := Nearest(pts, p, |pts|);
    if s.moreThanOnce {
      var j :| 0 <= j < |pts| && j != s.minI && Manh(pts[j], p) == s.minDist;
      assert s.minI < j;
    }
  }

  /** The owner of a cell is the same before and after moving every point
      and the cell by the same vector. */
  lemma {:induction false} NearestTranslated(pts: seq<Vec2>, p: Vec2, t: Vec2, n: nat)
    requires n <= |pts|
    ensures Nearest(Translate(pts, t), Sub(p, t), n) == Nearest(pts, p, n)
  {
    if n > 0 {
      NearestTranslated(pts, p, t, n - 1);
      ManhTranslation(pts[n - 1], p, t);
    }
  }

  /** Moving to a new origin does not change who owns a cell. */
  lemma ClosestTranslated(pts: seq<Vec2>, p: Vec2, t: Vec2)
    ensures Closest(Translate(pts, t), Sub(p, t)) == Closest(pts, p)
  {
    NearestTranslated(pts, p, t, |pts|);
  }

  /** The inner loop of `resultA` over the points, for one cell. */
  method NearestTo(pts: seq<Vec2>, p: Vec2) returns (owner: Option<nat>)
    ensures owner == Closest(pts, p)
  {
    var minI: nat := SIZE_MAX;
    var minDist := INTMAX_MAX;
    var moreThanOnce := false;
    for i := 0 to |pts|
      invariant Nearest(pts, p, i) == Scan(minI, minDist, moreThanOnce)
    {
      var d := Manh(pts[i], p);
      if d == minDist {
        moreThanOnce := true;
      } else if d < minDist {
        moreThanOnce := false;
        minDist := d;
        minI := i;
      }
    }
    owner := if moreThanOnce then None else Some(minI);
  }

  /** Distances inside a box of side at most `2 * BOUND` stay below
      `INTMAX_MAX`, so every owner found there is an index of a point. */
  lemma NearInBox(pts: seq<Vec2>, size: Vec2, p: Vec2)
    requires pts != [] && size.x <= 2 * BOUND && size.y <= 2 * BOUND && Grid.InBounds(p, size)
    requires forall i :: 0 <= i < |pts| ==> Grid.InBounds(pts[i], size)
    ensures Near(pts, p)
    ensures Closest(pts, p).Some? ==> Closest(pts, p).value < |pts|
  {
    NearestMeaning(pts, p, |pts|);
  }

  // ---------------------------------------------------------------------
  // the grid of owners

  /** Every owner recorded in the grid is the index of a point. */
  lemma OwnersInRange(cells: seq<Option<nat>>, size: Vec2, pts: seq<Vec2>)
    requires Owners(cells, size, pts)
    requires pts != [] && size.x <= 2 * BOUND && size.y <= 2 * BOUND
    requires forall i :: 0 <= i < |pts| ==> Grid.InBounds(pts[i], size)
    ensures forall k :: 0 <= k < |cells| && cells[k].Some? ==> cells[k].value < |pts|
  {
    forall k | 0 <= k < |cells| && cells[k].Some?
      ensures cells[k].value < |pts|
    {
      Grid.PointRowMajor(k, size);
      NearInBox(pts, size, Grid.Point(k, size.x));
    }
  }

  /** Every cell of the grid holds the owner of its point. */
  ghost predicate Owners(cells: seq<Option<nat>>, size: Vec2, pts: seq<Vec2>) {
    size.x > 0 && size.y > 0 && |cells| == size.x * size.y &&
    forall k :: 0 <= k < |cells| ==> cells[k] == Closest(pts, Grid.Point(k, size.x))
  }

  /** Reading the grid at an in-bounds point gives that point's owner. */
  lemma OwnerAt(cells: seq<Option<nat>>, size: Vec2, pts: seq<Vec2>, p: Vec2)
    requires Owners(cells, size, pts) && Grid.InBounds(p, size)
    ensures 0 <= Grid.RowMajor(p, size.x) < |cells|
    ensures cells[Grid.RowMajor(p, size.x)] == Closest(pts, p)
  {
    Grid.RowMajorInRange(p, size);
    assert Grid.Point(Grid.RowMajor(p, size.x), size.x) == p;
  }

  /** The first loop of `resultA`: the owner of every cell of the box, walked
      row by row with the rectangle's iterator. */
  method ClosestGrid(pts: seq<Vec2>, size: Vec2) returns (grid: Grid.Grid2<Option<nat>>)
    requires size.x > 0 && size.y > 0
    ensures fresh(grid) && fresh(grid.cells) && grid.Valid() && grid.bounds == size
    ensures Owners(grid.cells[..], size, pts)
  {
    grid := new Grid.Grid2(None, size);
    var r := Hyperbox.Rect(Vec2(0, 0), size);
    var it := Hyperbox.Begin(r);
    ghost var j: nat := 0;
    while !Hyperbox.Same(it, Hyperbox.End(r))
      invariant fresh(grid) && fresh(grid.cells) && grid.Valid() && grid.bounds == size
      invariant it.rect == r && j <= size.x * size.y && it.idx == Hyperbox.Nth(r, j)
      invariant forall k :: 0 <= k < j ==> grid.cells[k] == Closest(pts, Grid.Point(k, size.x))
      decreases size.x * size.y - j
    {
      Hyperbox.NthEnd(r, j);
      var p := it.idx;
      var owner := NearestTo(pts, p);
      assert p == Grid.Point(j, size.x);
      Grid.PointRowMajor(j, size);
      grid.Set(p, owner);
      Hyperbox.IncrementNth(r, j);
      it := Hyperbox.Increment(it);
      j := j + 1;
    }
    Hyperbox.NthEnd(r, j);
  }

  // ---------------------------------------------------------------------
  // region sizes

  /** The rectangle the source walks to count region sizes:
      `rect{(1,1), size_board - (2,2)}`. */
  function InteriorAsWritten(size: Vec2): (r: Hyperbox.Rect)
    ensures r.start == Vec2(1, 1) && Add(Add(r.start, r.size), Vec2(1, 1)) == size
  {
    Hyperbox.Rect(Vec2(1, 1), Sub(size, Vec2(2, 2)))
  }

  /** The cells strictly inside the box, as a rectangle the iterator can
      walk: the source's rectangle when both its sides are positive, an
      empty one otherwise. */
  function Interior(size: Vec2): (r: Hyperbox.Rect)
    ensures r.start == Vec2(1, 1) && r.size.x >= 0 && r.size.y >= 0
    ensures r.size.y > 0 ==> r.size.x > 0
  {
    if size.x > 2 && size.y > 2 then InteriorAsWritten(size) else Hyperbox.Rect(Vec2(1, 1), Vec2(0, 0))
  }

  /** The corrected rectangle holds exactly the cells off the border. */
  lemma InteriorCells(size: Vec2, q: Vec2)
    ensures Hyperbox.Inside(Interior(size), q) <==> 0 < q.x < size.x - 1 && 0 < q.y < size.y - 1
  {
  }

  /** Wherever the source's walk ends, it walks the same cells as the
      corrected one: both rectangles are empty or they are equal. */
  lemma InteriorAgrees(size: Vec2)
    requires size.y == 2 || (size.x > 2 && size.y > 2)
    ensures Interior(size) == InteriorAsWritten(size) ||
            (Interior(size).size.y == 0 && InteriorAsWritten(size).size.y == 0)
  {
  }

  /** The iterator of the source's rectangle for a box one cell high (every
      point on one row) never meets `end()`: the row it starts on lies
      below the end row, and every cell it reads is outside the grid. */
  lemma OneRowWalkNeverEnds(size: Vec2, k: nat)
    requires size.y == 1 && size.x > 2
    ensures Hyperbox.Nth(InteriorAsWritten(size), k) != Hyperbox.End(InteriorAsWritten(size)).idx
    ensures !Grid.InBounds(Hyperbox.Nth(InteriorAsWritten(size), k), size)
  {
  }

  /** A box one cell high: the points (0, 0) and (4, 0). */
  lemma OneRowCounterexample()
    ensures SizeBoard([Vec2(0, 0), Vec2(4, 0)]) == Vec2(5, 1)
    ensures InteriorAsWritten(Vec2(5, 1)).size == Vec2(3, -1)
  {
    SizeBoardOneRow(Vec2(0, 0), Vec2(4, 0));
  }

  /** Two points on one row make a box one cell high. */
  lemma SizeBoardOneRow(p: Vec2, q: Vec2)
    requires p.x <= q.x && p.y == q.y
    ensures SizeBoard([p, q]) == Vec2(q.x - p.x + 1, 1)
  {
    var pts := [p, q];
    assert pts[0] == p;
    LowestIs(pts, p);
    var t := Translate(pts, p);
    assert t[0] == Vec2(0, 0) && t[1] == Vec2(q.x - p.x, 0);
    HighestIs(t, Vec2(q.x - p.x, 0));
  }

  /** `size_board`: one past the largest point after translation. */
  function SizeBoard(input: seq<Vec2>): (size: Vec2)
    requires input != []
  {
    Add(Highest(Translate(input, Lowest(input))), Vec2(1, 1))
  }

  /** The number of the first `n` cells of the walk of `r` that `i` owns. */
  function Owned(pts: seq<Vec2>, r: Hyperbox.Rect, i: nat, n: nat): (c: nat)
    requires r.size.x > 0
    ensures c <= n
  {
    if n == 0 then 0
    else Owned(pts, r, i, n - 1) + if Closest(pts, Hyperbox.Nth(r, n - 1)) == Some(i) then 1 else 0
  }

  /** The size of `i`'s region off the border of the box. */
  function RegionSize(pts: seq<Vec2>, size: Vec2, i: nat): nat {
    var r := Interior(size);
    if r.size.y > 0 then Owned(pts, r, i, r.size.x * r.size.y) else 0
  }

  /** The second loop of `resultA`: one increment per interior cell for its
      owner, if any, starting from `Some(0)` for every point. */
  method CountInterior(grid: Grid.Grid2<Option<nat>>, pts: seq<Vec2>, size: Vec2)
      returns (regionSize: seq<Option<nat>>)
    requires grid.Valid() && grid.bounds == size && Owners(grid.cells[..], size, pts)
    requires forall k :: 0 <= k < grid.cells.Length && grid.cells[k].Some? ==> grid.cells[k].value < |pts|
    ensures |regionSize| == |pts|
    ensures forall i :: 0 <= i < |pts| ==> regionSize[i] == Some(RegionSize(pts, size, i))
  {
    regionSize := seq(|pts|, _ => Some(0));
    var r := Interior(size);
    var it := Hyperbox.Begin(r);
    ghost var j: nat := 0;
    while !Hyperbox.Same(it, Hyperbox.End(r))
      invariant it.rect == r
      invariant r.size.y == 0 ==> it.idx == r.start
      invariant r.size.y > 0 ==> j <= r.size.x * r.size.y && it.idx == Hyperbox.Nth(r, j)
      invariant |regionSize| == |pts|
      invariant forall i :: 0 <= i < |pts| ==>
        regionSize[i] == Some(if r.size.y > 0 then Owned(pts, r, i, j) else 0)
      decreases if r.size.y > 0 then r.size.x * r.size.y - j else 0
    {
      Hyperbox.NthEnd(r, j);
      var p := it.idx;
      OwnerAt(grid.cells[..], size, pts, p);
      var idx := grid.At(p);
      if idx.Some? {
        regionSize := regionSize[idx.value := Some(regionSize[idx.value].value + 1)];
      }
      Hyperbox.IncrementNth(r, j);
      it := Hyperbox.Increment(it);
      j := j + 1;
    }
    if r.size.y > 0 {
      Hyperbox.NthEnd(r, j);
    }
  }

  // ---------------------------------------------------------------------
  // regions reaching the border

  /** Point `i` owns the top or the bottom cell of column `x`. */
  predicate RowEnds(pts: seq<Vec2>, size: Vec2, i: nat, x: int) {
    Closest(pts, Vec2(x, 0)) == Some(i) || Closest(pts, Vec2(x, size.y - 1)) == Some(i)
  }

  /** Point `i` owns the left or the right cell of row `y`. */
  predicate ColEnds(pts: seq<Vec2>, size: Vec2, i: nat, y: int) {
    Closest(pts, Vec2(0, y)) == Some(i) || Closest(pts, Vec2(size.x - 1, y)) == Some(i)
  }

  /** Point `i` owns a cell of the top or bottom row among the first `n`
      columns. */
  ghost predicate RowTouch(pts: seq<Vec2>, size: Vec2, i: nat, n: int) {
    exists x :: 0 <= x < n && RowEnds(pts, size, i, x)
  }

  /** Point `i` owns a cell of the left or right column among the first
      `n` rows. */
  ghost predicate ColTouch(pts: seq<Vec2>, size: Vec2, i: nat, n: int) {
    exists y :: 0 <= y < n && ColEnds(pts, size, i, y)
  }

  /** Point `i`'s region reaches the border of the box, so it is infinite. */
  ghost predicate Unbounded(pts: seq<Vec2>, size: Vec2, i: nat) {
    RowTouch(pts, size, i, size.x) || ColTouch(pts, size, i, size.y)
  }

  predicate OnBorder(size: Vec2, q: Vec2) {
    Grid.InBounds(q, size) && (q.x == 0 || q.y == 0 || q.x == size.x - 1 || q.y == size.y - 1)
  }

  /** The two border loops look at exactly the border cells. */
  lemma UnboundedMeaning(pts: seq<Vec2>, size: Vec2, i: nat)
    requires size.x > 0 && size.y > 0
    ensures Unbounded(pts, size, i) <==> exists q :: OnBorder(size, q) && Closest(pts, q) == Some(i)
  {
    if q :| OnBorder(size, q) && Closest(pts, q) == Some(i) {
      if q.y == 0 || q.y == size.y - 1 {
        assert RowEnds(pts, size, i, q.x);
        assert RowTouch(pts, size, i, size.x);
      } else {
        assert ColEnds(pts, size, i, q.y);
        assert ColTouch(pts, size, i, size.y);
      }
    }
    if RowTouch(pts, size, i, size.x) {
      var x :| 0 <= x < size.x && RowEnds(pts, size, i, x);
      assert OnBorder(size, Vec2(x, 0)) && OnBorder(size, Vec2(x, size.y - 1));
    }
    if ColTouch(pts, size, i, size.y) {
      var y :| 0 <= y < size.y && ColEnds(pts, size, i, y);
      assert OnBorder(size, Vec2(0, y)) && OnBorder(size, Vec2(size.x - 1, y));
    }
  }

  lemma RowTouchStep(pts: seq<Vec2>, size: Vec2, i: nat, x: int)
    requires x >= 0
    ensures RowTouch(pts, size, i, x + 1) <==> RowTouch(pts, size, i, x) || RowEnds(pts, size, i, x)
  {
    if RowTouch(pts, size, i, x + 1) && !RowEnds(pts, size, i, x) {
      var x' :| 0 <= x' < x + 1 && RowEnds(pts, size, i, x');
      assert x' < x;
    }
  }

  lemma ColTouchStep(pts: seq<Vec2>, size: Vec2, i: nat, y: int)
    requires y >= 0
    ensures ColTouch(pts, size, i, y + 1) <==> ColTouch(pts, size, i, y) || ColEnds(pts, size, i, y)
  {
    if ColTouch(pts, size, i, y + 1) && !ColEnds(pts, size, i, y) {
      var y' :| 0 <= y' < y + 1 && ColEnds(pts, size, i, y');
      assert y' < y;
    }
  }

  /** `region_size[*i] = std::nullopt` for an owner `i`. */
  function Drop(sizes: seq<Option<nat>>, owner: Option<nat>): (r: seq<Option<nat>>)
    requires owner.Some? ==> owner.value < |sizes|
    ensures |r| == |sizes|
    ensures forall i :: 0 <= i < |sizes| ==> r[i] == if owner == Some(i) then None else sizes[i]
  {
    if owner.Some? then sizes[owner.value := None] else sizes
  }

  /** The first border loop of `resultA`: along the top and bottom rows,
      every owner loses its size. */
  method DropRows(grid: Grid.Grid2<Option<nat>>, pts: seq<Vec2>, size: Vec2, sizes: seq<Option<nat>>)
      returns (out: seq<Option<nat>>)
    requires grid.Valid() && grid.bounds == size && Owners(grid.cells[..], size, pts)
    requires forall k :: 0 <= k < grid.cells.Length && grid.cells[k].Some? ==> grid.cells[k].value < |pts|
    requires |sizes| == |pts|
    ensures |out| == |pts|
    ensures forall i :: 0 <= i < |pts| ==> out[i] == if RowTouch(pts, size, i, size.x) then None else sizes[i]
  {
    out := sizes;
    for x := 0 to size.x
      invariant |out| == |pts|
      invariant forall i :: 0 <= i < |pts| ==> out[i] == if RowTouch(pts, size, i, x) then None else sizes[i]
    {
      OwnerAt(grid.cells[..], size, pts, Vec2(x, 0));
      OwnerAt(grid.cells[..], size, pts, Vec2(x, size.y - 1));
      var top := grid.At(Vec2(x, 0));
      var bottom := grid.At(Vec2(x, size.y - 1));
      ghost var before := out;
      out := Drop(Drop(out, top), bottom);
      forall i | 0 <= i < |pts|
        ensures out[i] == if RowTouch(pts, size, i, x + 1) then None else sizes[i]
      {
        RowTouchStep(pts, size, i, x);
      }
    }
  }

  /** The second border loop of `resultA`: along the left and right
      columns, every owner loses its size. */
  method DropCols(grid: Grid.Grid2<Option<nat>>, pts: seq<Vec2>, size: Vec2, sizes: seq<Option<nat>>)
      returns (out: seq<Option<nat>>)
    requires grid.Valid() && grid.bounds == size && Owners(grid.cells[..], size, pts)
    requires forall k :: 0 <= k < grid.cells.Length && grid.cells[k].Some? ==> grid.cells[k].value < |pts|
    requires |sizes| == |pts|
    ensures |out| == |pts|
    ensures forall i :: 0 <= i < |pts| ==> out[i] == if ColTouch(pts, size, i, size.y) then None else sizes[i]
  {
    out := sizes;
    for y := 0 to size.y
      invariant |out| == |pts|
      invariant forall i :: 0 <= i < |pts| ==> out[i] == if ColTouch(pts, size, i, y) then None else sizes[i]
    {
      OwnerAt(grid.cells[..], size, pts, Vec2(0, y));
      OwnerAt(grid.cells[..], size, pts, Vec2(size.x - 1, y));
      var left := grid.At(Vec2(0, y));
      var right := grid.At(Vec2(size.x - 1, y));
      out := Drop(Drop(out, left), right);
      forall i | 0 <= i < |pts|
        ensures out[i] == if ColTouch(pts, size, i, y + 1) then None else sizes[i]
      {
        ColTouchStep(pts, size, i, y);
      }
    }
  }

  // ---------------------------------------------------------------------
  // the answer

  /** The largest size left, 0 if there is none. */
  function Largest(sizes: seq<Option<nat>>): nat {
    if sizes == [] then 0
    else
      var m := Largest(sizes[..|sizes| - 1]);
      var last := sizes[|sizes| - 1];
      if last.Some? && last.value > m then last.value else m
  }

  /** `Largest` is a maximum: no size left exceeds it, and it is one of
      them unless it is 0. */
  lemma {:induction false} LargestMeaning(sizes: seq<Option<nat>>)
    ensures forall i :: 0 <= i < |sizes| && sizes[i].Some? ==> sizes[i].value <= Largest(sizes)
    ensures Largest(sizes) == 0 || exists i :: 0 <= i < |sizes| && sizes[i] == Some(Largest(sizes))
  {
    if sizes != [] {
      var init := sizes[..|sizes| - 1];
      LargestMeaning(init);
      assert forall i :: 0 <= i < |init| ==> init[i] == sizes[i];
    }
  }

  /** The last loop of `resultA`. */
  method LargestRegion(sizes: seq<Option<nat>>) returns (result: nat)
    ensures result == Largest(sizes)
  {
    result := 0;
    for k := 0 to |sizes|
      invariant result == Largest(sizes[..k])
    {
      assert sizes[..k + 1][..k] == sizes[..k];
      if sizes[k].Some? && sizes[k].value > result {
        result := sizes[k].value;
      }
    }
    assert sizes[..|sizes|] == sizes;
  }

  /** Every point's size after the border loops: none for an unbounded
      region, its interior count otherwise. */
  ghost function Regions(pts: seq<Vec2>, size: Vec2): (r: seq<Option<nat>>)
    ensures |r| == |pts|
  {
    seq(|pts|, i requires 0 <= i < |pts| => if Unbounded(pts, size, i) then None else Some(RegionSize(pts, size, i)))
  }

  /** The answer for translated points in a box of the given size. */
  ghost function Answer(pts: seq<Vec2>, size: Vec2): Option<nat> {
    var best := Largest(Regions(pts, size));
    if best == 0 then None else Some(best)
  }

  /** What `resultA` returns for a list of points. */
  ghost function AnswerA(input: seq<Vec2>): Option<nat>
    requires input != []
  {
    Answer(Translate(input, Lowest(input)), SizeBoard(input))
  }

  /** The answer is the size of a largest bounded region; none when every
      bounded region is empty or there is none. */
  lemma AnswerMeaning(pts: seq<Vec2>, size: Vec2)
    ensures Answer(pts, size).Some? ==>
        (exists i :: 0 <= i < |pts| && !Unbounded(pts, size, i) && RegionSize(pts, size, i) == Answer(pts, size).value) &&
        (forall i :: 0 <= i < |pts| && !Unbounded(pts, size, i) ==> RegionSize(pts, size, i) <= Answer(pts, size).value)
    ensures Answer(pts, size).None? <==> forall i :: 0 <= i < |pts| && !Unbounded(pts, size, i) ==> RegionSize(pts, size, i) == 0
  {
    BestRegion(pts, size);
  }

  /** `Largest` over the regions, in terms of the regions. */
  lemma BestRegion(pts: seq<Vec2>, size: Vec2)
    ensures var best := Largest(Regions(pts, size));
      (forall i :: 0 <= i < |pts| && !Unbounded(pts, size, i) ==> RegionSize(pts, size, i) <= best) &&
      (best == 0 || exists i :: 0 <= i < |pts| && !Unbounded(pts, size, i) && RegionSize(pts, size, i) == best)
  {
    var sizes := Regions(pts, size);
    LargestMeaning(sizes);
    forall i | 0 <= i < |pts| && !Unbounded(pts, size, i)
      ensures RegionSize(pts, size, i) <= Largest(sizes)
    {
      assert sizes[i] == Some(RegionSize(pts, size, i));
    }
    if Largest(sizes) != 0 {
      var i :| 0 <= i < |sizes| && sizes[i] == Some(Largest(sizes));
      assert !Unbounded(pts, size, i) && RegionSize(pts, size, i) == Largest(sizes);
    }
  }

  /** Coordinates under which no `intmax_t` arithmetic of `resultA`
      overflows. */
  predicate Usable(input: seq<Vec2>) {
    input != [] && forall i :: 0 <= i < |input| ==> -BOUND < input[i].x < BOUND && -BOUND < input[i].y < BOUND
  }

  /** `resultA` on the corrected interior. */
  method ResultA(input: seq<Vec2>) returns (answer: Option<nat>)
    requires Usable(input)
    ensures answer == AnswerA(input)
  {
    var minPoint := Lowest(input);
    var pts := Translate(input, minPoint);
    var maxPoint := Highest(pts);
    var size := Add(maxPoint, Vec2(1, 1));
    TranslatedInBox(input);
    var grid := ClosestGrid(pts, size);
    OwnersInRange(grid.cells[..], size, pts);
    var sizes := CountInterior(grid, pts, size);
    var bounded := DropRows(grid, pts, size, sizes);
    bounded := DropCols(grid, pts, size, bounded);
    assert bounded == Regions(pts, size);
    var result := LargestRegion(bounded);
    answer := if result == 0 then None else Some(result);
  }

  /** `solveA`: the answer, or "N/A" when there is none. */
  function SolveA(answer: Option<nat>): (text: string)
    ensures answer.None? <==> text == "N/A"
    ensures answer.Some? ==> ReadUnsigned(text) == Got(answer.value, "")
  {
    if answer.Some? then
      NatToStringDigits(answer.value);
      ReadUnsignedNatToString(answer.value, "");
      assert NatToString(answer.value) + "" == NatToString(answer.value);
      assert !IsDigit("N/A"[0]);
      NatToString(answer.value)
    else "N/A"
  }

  /** `solveB` writes "N/A" whatever the input: what part A writes when
      there is no answer. */
  function SolveB(input: seq<Vec2>): (text: string)
    ensures text == SolveA(None)
  {
    "N/A"
  }
}
