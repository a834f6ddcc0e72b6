/** `ddr::math::grid2<Cell>`: a row-major grid of cells indexed by `ivec2`. */
module Grid {
  import opened Vector

  /** Row-major position of `idx` in a grid whose rows are `width` cells long. */
  function RowMajor(idx: Vec2, width: int): int {
    idx.y * width + idx.x
  }

  predicate InBounds(idx: Vec2, size: Vec2) {
    0 <= idx.x < size.x && 0 <= idx.y < size.y
  }

  /** Inside the grid, the row-major position lies in [0, width*height), and
      the column and row can be read back from it. */
  lemma RowMajorInRange(idx: Vec2, size: Vec2)
    requires InBounds(idx, size)
    ensures 0 <= RowMajor(idx, size.x) < size.x * size.y
    ensures RowMajor(idx, size.x) % size.x == idx.x
    ensures RowMajor(idx, size.x) / size.x == idx.y
  {
    MulLe(idx.y, size.y - 1, size.x);
    assert (size.y - 1) * size.x == size.x * size.y - size.x;
    DivModUnique(idx.y * size.x + idx.x, size.x, idx.y, idx.x);
  }

  lemma MulLe(a: int, b: int, c: int)
    requires 0 <= a <= b && c >= 0
    ensures 0 <= a * c <= b * c
  {
  }

  /** Euclidean division has one quotient and one remainder. */
  lemma DivModUnique(k: int, w: int, q: int, r: int)
    requires w > 0 && 0 <= r < w && k == q * w + r
    ensures k / w == q && k % w == r
  {
    var q', r' := k / w, k % w;
    assert q' * w + r' == k;
    assert (q - q') * w == r' - r;
    if q - q' >= 1 {
      MulLe(1, q - q', w);
    } else if q' - q >= 1 {
      MulLe(1, q' - q, w);
    }
  }

  /** The cell at row-major position `k`: the inverse of `RowMajor`. */
  function Point(k: int, width: int): Vec2
    requires width > 0
  {
    Vec2(k % width, k / width)
  }

  /** Positions in [0, width*height) name in-bounds cells, and `RowMajor`
      takes each back to its position. */
  lemma PointRowMajor(k: int, size: Vec2)
    requires size.x > 0 && 0 <= k < size.x * size.y
    ensures InBounds(Point(k, size.x), size) && RowMajor(Point(k, size.x), size.x) == k
  {
    var q := k / size.x;
    if q >= size.y {
      MulLe(size.y, q, size.x);
    }
  }

  /** Distinct cells inside the grid have distinct row-major positions. */
  lemma RowMajorInjective(a: Vec2, b: Vec2, size: Vec2)
    requires InBounds(a, size) && InBounds(b, size)
    requires RowMajor(a, size.x) == RowMajor(b, size.x)
    ensures a == b
  {
    RowMajorInRange(a, size);
    RowMajorInRange(b, size);
  }

  class Grid2<Cell> {
    /** The value-initialised cell, `Cell{}`. */
    const zero: Cell
    var bounds: Vec2
    var cells: array<Cell>

    ghost predicate Valid()
      reads this
    {
      bounds.x >= 0 && bounds.y >= 0 && cells.Length == bounds.x * bounds.y
    }

    /** The default constructor: no cells and zero bounds. */
    constructor Empty(zero: Cell)
      ensures Valid() && this.zero == zero
      ensures bounds == Vec2(0, 0) && cells.Length == 0
    {
      this.zero := zero;
      bounds := Vec2(0, 0);
      cells := new Cell[0];
    }

    /** `grid2(size)`: both dimensions must be positive; every cell is
        value-initialised. */
    constructor (zero: Cell, size: Vec2)
      requires size.x > 0 && size.y > 0
      ensures Valid() && this.zero == zero && bounds == size && fresh(cells)
      ensures cells[..] == seq(size.x * size.y, _ => zero)
    {
      this.zero := zero;
      bounds := size;
      cells := new Cell[size.x * size.y](_ => zero);
    }

    /** `resize(size)`: the old cells are dropped and `size.x * size.y`
        value-initialised cells take their place. */
    method Resize(size: Vec2)
      requires size.x > 0 && size.y > 0
      modifies this
      ensures Valid() && bounds == size && fresh(cells)
      ensures cells[..] == seq(size.x * size.y, _ => zero)
    {
      cells := new Cell[size.x * size.y](_ => zero);
      bounds := size;
    }

    /** `linear_index(idx)`. */
    function LinearIndex(idx: Vec2): int
      reads this
    {
      RowMajor(idx, bounds.x)
    }

    /** Reading `(*this)[idx]`. */
    function At(idx: Vec2): Cell
      requires 0 <= LinearIndex(idx) < cells.Length
      reads this, cells
    {
      cells[LinearIndex(idx)]
    }

    /** Assigning through the reference `(*this)[idx]`: only that cell changes. */
    method Set(idx: Vec2, value: Cell)
      requires 0 <= LinearIndex(idx) < cells.Length
      modifies cells
      ensures cells[..] == old(cells[..])[LinearIndex(idx) := value]
    {
      cells[LinearIndex(idx)] := value;
    }
  }

  /** Writing one cell of a valid grid leaves every other in-bounds cell as it was. */
  lemma SetKeepsOthers<Cell>(before: seq<Cell>, after: seq<Cell>, size: Vec2, idx: Vec2, other: Vec2, value: Cell)
    requires |before| == size.x * size.y
    requires InBounds(idx, size) && InBounds(other, size) && other != idx
    requires 0 <= RowMajor(idx, size.x) < |before|
    requires after == before[RowMajor(idx, size.x) := value]
    ensures 0 <= RowMajor(other, size.x) < |after|
    ensures after[RowMajor(other, size.x)] == before[RowMajor(other, size.x)]
  {
    RowMajorInRange(other, size);
    if RowMajor(other, size.x) == RowMajor(idx, size.x) {
      RowMajorInjective(other, idx, size);
    }
  }
}
