/** The older copy of 2018 day 3. Its parser is that of `Aoc2018D03` behind a
    check that the stream is usable; it has its own `board_t` (a grid without
    the positivity assertions) and walks each claim with two nested loops
    instead of the `rect` iterator, so claims of width 0 and an empty input
    are harmless. */
module Aoc18D03 {
  import opened Wrappers
  import opened Text
  import opened Vector
  import Grid
  import Hyperbox
  import opened Aoc2018D03

  /** `parse`: an unusable stream is an error; otherwise the lines are read
      as in the newer parser. */
  function Parse(usable: bool, text: string): (r: Result<seq<Claim>>)
    ensures !usable ==> r.Err?
    ensures usable ==> r == ParseLines(Lines(text))
    ensures r.Ok? ==> forall c :: c in r.value ==> NonNegative(c)
  {
    if !usable then Err(ParseError("")) else ParseLines(Lines(text))
  }

  /** An empty stream holds no claims. */
  lemma ParseEmpty()
    ensures Parse(true, "") == Ok([])
  {
  }

  /** `board_t<Cell>`: a row-major board. */
  class Board {
    var bounds: Vec2
    var cells: array<nat>

    ghost predicate Valid()
      reads this
    {
      bounds.x >= 0 && bounds.y >= 0 && cells.Length == bounds.x * bounds.y
    }

    /** The default constructor: no cells. */
    constructor ()
      ensures Valid() && bounds == Vec2(0, 0) && cells.Length == 0
    {
      bounds := Vec2(0, 0);
      cells := new nat[0];
    }

    /** `resize(size)`: the old cells are cleared and `size.x * size.y`
        zero cells take their place. */
    method Resize(size: Vec2)
      requires size.x >= 0 && size.y >= 0
      modifies this
      ensures Valid() && bounds == size && fresh(cells)
      ensures cells[..] == seq(size.x * size.y, _ => 0)
    {
      cells := new nat[size.x * size.y](_ => 0);
      bounds := size;
    }

    /** `linear_index(idx)`: `idx.y * width + idx.x`. */
    function LinearIndex(idx: Vec2): int
      reads this
    {
      Grid.RowMajor(idx, bounds.x)
    }
  }

  /** What the nested loops have covered of `r` when they are at column `x`
      of row `y`: every earlier row, and the columns before `x` in row `y`. */
  predicate Swept(r: Hyperbox.Rect, q: Vec2, x: int, y: int) {
    Hyperbox.Inside(r, q) && (q.y < y || (q.y == y && q.x < x))
  }

  /** The nested loops of `resultA` and `resultB` for one more claim:
      `++board[{x, y}]` for every inch of its rectangle. */
  method Mark(board: Board, c: Claim, ghost done: seq<Claim>)
    requires board.Valid() && NonNegative(c)
    requires c.rect.start.x + c.rect.size.x <= board.bounds.x && c.rect.start.y + c.rect.size.y <= board.bounds.y
    requires Counted(board.cells[..], board.bounds, done)
    modifies board.cells
    ensures Counted(board.cells[..], board.bounds, done + [c])
  {
    var r := c.rect;
    var size := board.bounds;
    var y := r.start.y;
    while y < r.start.y + r.size.y
      invariant r.start.y <= y <= r.start.y + r.size.y
      invariant board.cells.Length == size.x * size.y
      invariant forall k :: 0 <= k < board.cells.Length ==>
        (size.x > 0 && board.cells[k] == Coverage(done, Grid.Point(k, size.x)) + (if Swept(r, Grid.Point(k, size.x), r.start.x, y) then 1 else 0))
    {
      var x := r.start.x;
      while x < r.start.x + r.size.x
        invariant r.start.x <= x <= r.start.x + r.size.x
        invariant board.cells.Length == size.x * size.y
        invariant forall k :: 0 <= k < board.cells.Length ==>
          (size.x > 0 && board.cells[k] == Coverage(done, Grid.Point(k, size.x)) + (if Swept(r, Grid.Point(k, size.x), x, y) then 1 else 0))
      {
        var q := Vec2(x, y);
        Grid.RowMajorInRange(q, size);
        var k0 := board.LinearIndex(q);
        board.cells[k0] := board.cells[k0] + 1;
        forall k | 0 <= k < board.cells.Length
          ensures Swept(r, Grid.Point(k, size.x), x + 1, y) <==> Swept(r, Grid.Point(k, size.x), x, y) || k == k0
        {
          CellAt(size, k, q);
        }
        x := x + 1;
      }
      forall k | 0 <= k < board.cells.Length
        ensures Swept(r, Grid.Point(k, size.x), r.start.x + r.size.x, y) <==> Swept(r, Grid.Point(k, size.x), r.start.x, y + 1)
      {
      }
      y := y + 1;
    }
    forall k | 0 <= k < board.cells.Length
      ensures board.cells[k] == Coverage(done + [c], Grid.Point(k, size.x))
    {
      CoverageSnoc(done, c, Grid.Point(k, size.x));
    }
  }

  /** The board of `resultA` and `resultB`: sized by the componentwise
      maximum of the claims' far corners, then one increment per claim for
      each inch it covers. */
  method FillBoard(claims: seq<Claim>) returns (board: Board)
    requires forall c :: c in claims ==> NonNegative(c)
    ensures fresh(board) && fresh(board.cells) && board.Valid() && board.bounds == BoardSize(claims)
    ensures Counted(board.cells[..], board.bounds, claims)
  {
    board := new Board();
    var max := MaxCorner(claims);
    board.Resize(max);
    assert Counted(board.cells[..], board.bounds, []);
    for i := 0 to |claims|
      invariant fresh(board) && fresh(board.cells) && board.Valid() && board.bounds == max
      invariant Counted(board.cells[..], board.bounds, claims[..i])
    {
      assert claims[i] in claims;
      ClaimOnBoard(claims, i);
      Mark(board, claims[i], claims[..i]);
      assert claims[..i + 1] == claims[..i] + [claims[i]];
    }
    assert claims[..|claims|] == claims;
  }

  /** `resultA`: the number of square inches claimed more than once. Unlike
      the newer copy it needs no positive board and no positive widths. */
  method ResultA(claims: seq<Claim>) returns (r: nat)
    requires forall c :: c in claims ==> NonNegative(c)
    ensures r == |Overlaps(claims)|
  {
    var board := FillBoard(claims);
    r := CountAbove(board.cells);
    AboveOverlaps(board.cells[..], claims);
  }

  /** `solveA`: the number of inches claimed more than once, written as a
      decimal numeral with no newline; reading it back gives that number. */
  method SolveA(claims: seq<Claim>) returns (out: string)
    requires forall c :: c in claims ==> NonNegative(c)
    ensures ReadUnsigned(out) == Got(|Overlaps(claims)|, "")
  {
    var r := ResultA(claims);
    out := NatToString(r);
    ReadUnsignedNatToString(r, "");
    assert out + "" == out;
  }

  /** The scan of one claim in `resultB`: every inch of its rectangle must
      have a count of exactly 1; the first that does not ends the scan. */
  method AllOnce(board: Board, claims: seq<Claim>, c: Claim) returns (found: bool)
    requires board.Valid() && Counted(board.cells[..], board.bounds, claims)
    requires NonNegative(c)
    requires c.rect.start.x + c.rect.size.x <= board.bounds.x && c.rect.start.y + c.rect.size.y <= board.bounds.y
    ensures found <==> Isolated(claims, c.rect)
  {
    var r := c.rect;
    var size := board.bounds;
    var y := r.start.y;
    while y < r.start.y + r.size.y
      invariant r.start.y <= y <= r.start.y + r.size.y
      invariant forall q :: Swept(r, q, r.start.x, y) ==> Coverage(claims, q) == 1
    {
      var x := r.start.x;
      while x < r.start.x + r.size.x
        invariant r.start.x <= x <= r.start.x + r.size.x
        invariant forall q :: Swept(r, q, x, y) ==> Coverage(claims, q) == 1
      {
        var q := Vec2(x, y);
        Grid.RowMajorInRange(q, size);
        CellAt(size, Grid.RowMajor(q, size.x), q);
        if board.cells[board.LinearIndex(q)] != 1 {
          return false;
        }
        x := x + 1;
      }
      y := y + 1;
    }
    return true;
  }

  /** `resultB`: the id of the first claim, in input order, all of whose
      inches have count 1; none if there is no such claim. */
  method ResultB(claims: seq<Claim>) returns (r: Option<nat>)
    requires forall c :: c in claims ==> NonNegative(c)
    ensures r.None? <==> forall i :: 0 <= i < |claims| ==> !Isolated(claims, claims[i].rect)
    ensures r.Some? ==> exists i :: FirstIsolated(claims, i) && r.value == claims[i].id
  {
    var board := FillBoard(claims);
    for i := 0 to |claims|
      invariant forall j :: 0 <= j < i ==> !Isolated(claims, claims[j].rect)
      invariant board.Valid() && board.bounds == BoardSize(claims)
      invariant Counted(board.cells[..], board.bounds, claims)
    {
      assert claims[i] in claims;
      ClaimOnBoard(claims, i);
      var found := AllOnce(board, claims, claims[i]);
      if found {
        assert FirstIsolated(claims, i);
        return Some(claims[i].id);
      }
    }
    return None;
  }

  /** `solveB`: the id, or "N/A" when no claim stands alone. */
  method SolveB(claims: seq<Claim>) returns (out: string)
    requires forall c :: c in claims ==> NonNegative(c)
    ensures out == "N/A" <==> forall i :: 0 <= i < |claims| ==> !Isolated(claims, claims[i].rect)
    ensures out != "N/A" ==> exists i :: FirstIsolated(claims, i) && ReadUnsigned(out) == Got(claims[i].id, "")
  {
    var result := ResultB(claims);
    if result.Some? {
      out := NatToString(result.value);
      NatToStringDigits(result.value);
      assert out[0] != 'N';
      ReadUnsignedNatToString(result.value, "");
      assert out + "" == out;
    } else {
      out := "N/A";
    }
  }
}
