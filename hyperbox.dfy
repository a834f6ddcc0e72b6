/** `ddr::math::rect` and its iterator, which walks the cells of a rectangle
    row by row. */
module Hyperbox {
  import opened Vector
  import Grid

  /** The quotient of `std::div`: truncated toward zero. */
  function Quot(a: int, b: int): int
    requires b != 0
  {
    var q := AbsInt(a) / AbsInt(b);
    if (a < 0) != (b < 0) then -q else q
  }

  /** The remainder of `std::div`: `a - b * quot`, with the dividend's sign. */
  function Rem(a: int, b: int): int
    requires b != 0
  {
    a - b * Quot(a, b)
  }

  /** On a non-negative dividend and a positive divisor `std::div` agrees
      with Euclidean division. */
  lemma DivAgrees(a: int, b: int)
    requires a >= 0 && b > 0
    ensures Quot(a, b) == a / b && Rem(a, b) == a % b
  {
  }

  datatype Rect = Rect(start: Vec2, size: Vec2)

  /** `rect::iterator`: the rectangle it walks and the current point. */
  datatype Iterator = Iterator(rect: Rect, idx: Vec2)

  function Begin(r: Rect): Iterator {
    Iterator(r, r.start)
  }

  /** One row past the last: the start column of row `start.y + size.y`. */
  function End(r: Rect): Iterator {
    Iterator(r, Vec2(r.start.x, r.start.y + r.size.y))
  }

  /** Iterator `==`: only the current points are compared. */
  predicate Same(a: Iterator, b: Iterator) {
    a.idx == b.idx
  }

  /** `++it`: one column to the right, wrapping to the start of the next row
      by a `std::div` by the width, which must not be zero. */
  function Increment(it: Iterator): (r: Iterator)
    requires it.rect.size.x != 0
    ensures r.rect == it.rect
  {
    var s := it.rect.start;
    var d := it.idx.x + 1 - s.x;
    Iterator(it.rect, Vec2(Rem(d, it.rect.size.x) + s.x, it.idx.y + Quot(d, it.rect.size.x)))
  }

  /** The point reached after `k` increments from `begin()`. */
  function Nth(r: Rect, k: nat): Vec2
    requires r.size.x > 0
  {
    Vec2(r.start.x + k % r.size.x, r.start.y + k / r.size.x)
  }

  predicate Inside(r: Rect, p: Vec2) {
    r.start.x <= p.x < r.start.x + r.size.x && r.start.y <= p.y < r.start.y + r.size.y
  }

  lemma BeginIsNth(r: Rect)
    requires r.size.x > 0
    ensures Nth(r, 0) == Begin(r).idx
  {
  }

  /** Incrementing the `k`-th point gives the `k+1`-th. */
  lemma IncrementNth(r: Rect, k: nat)
    requires r.size.x > 0
    ensures Increment(Iterator(r, Nth(r, k))).idx == Nth(r, k + 1)
  {
    var w := r.size.x;
    var col := k % w;
    DivAgrees(col + 1, w);
    if col + 1 < w {
      Grid.DivModUnique(col + 1, w, 0, col + 1);
      Grid.DivModUnique(k + 1, w, k / w, col + 1);
    } else {
      Grid.DivModUnique(col + 1, w, 1, 0);
      Grid.DivModUnique(k + 1, w, k / w + 1, 0);
    }
  }

  /** For `0 <= k <= w*h`, the `k`-th point is `end()` exactly when `k == w*h`;
      before that every point lies inside the rectangle. */
  lemma NthEnd(r: Rect, k: nat)
    requires r.size.x > 0 && r.size.y >= 0 && k <= r.size.x * r.size.y
    ensures Nth(r, k) == End(r).idx <==> k == r.size.x * r.size.y
    ensures k < r.size.x * r.size.y ==> Inside(r, Nth(r, k))
  {
    var w, h := r.size.x, r.size.y;
    if k == w * h {
      Grid.DivModUnique(k, w, h, 0);
    } else {
      Grid.DivModUnique(k, w, k / w, k % w);
      if k / w >= h {
        Grid.MulLe(h, k / w, w);
      }
    }
  }

  /** Distinct step counts inside the rectangle reach distinct points. */
  lemma NthInjective(r: Rect, j: nat, k: nat)
    requires r.size.x > 0 && Nth(r, j) == Nth(r, k)
    ensures j == k
  {
    Grid.DivModUnique(j, r.size.x, k / r.size.x, k % r.size.x);
  }

  /** Every point of the rectangle is reached, at step `(p - start)` in row-major order. */
  lemma NthCovers(r: Rect, p: Vec2)
    requires r.size.x > 0 && Inside(r, p)
    ensures var k := Grid.RowMajor(Sub(p, r.start), r.size.x);
            0 <= k < r.size.x * r.size.y && Nth(r, k) == p
  {
    var d := Sub(p, r.start);
    Grid.RowMajorInRange(d, r.size);
  }

  /** Points come row by row, left to right within a row. */
  lemma NthRowOrder(r: Rect, j: nat, k: nat)
    requires r.size.x > 0 && j < k
    ensures Nth(r, j).y < Nth(r, k).y || (Nth(r, j).y == Nth(r, k).y && Nth(r, j).x < Nth(r, k).x)
  {
    var w := r.size.x;
    var qj, rj, qk, rk := j / w, j % w, k / w, k % w;
    assert j == qj * w + rj && k == qk * w + rk;
    if qj > qk {
      Grid.MulLe(qk + 1, qj, w);
    }
  }

  /** With `size.y == 0` the range is empty: `begin() == end()`. */
  lemma NoRows(r: Rect)
    requires r.size.y == 0
    ensures Same(Begin(r), End(r))
  {
  }

  /** The points from `begin()` up to `end()`, in order. */
  function Points(r: Rect): seq<Vec2>
    requires r.size.x > 0 && r.size.y >= 0
  {
    seq(r.size.x * r.size.y, k requires 0 <= k => Nth(r, k))
  }

  /** The range visits every point of the rectangle exactly once and no
      point outside it. */
  lemma PointsOnce(r: Rect, p: Vec2)
    requires r.size.x > 0 && r.size.y >= 0
    ensures p in Points(r) <==> Inside(r, p)
    ensures multiset(Points(r))[p] == if Inside(r, p) then 1 else 0
  {
    var ps := Points(r);
    forall k | 0 <= k < |ps|
      ensures Inside(r, ps[k])
    {
      NthEnd(r, k);
    }
    if Inside(r, p) {
      NthCovers(r, p);
      var k := Grid.RowMajor(Sub(p, r.start), r.size.x);
      forall j | 0 <= j < |ps| && j != k
        ensures ps[j] != p
      {
        if ps[j] == p {
          NthInjective(r, j, k);
        }
      }
      assert ps == ps[..k] + [p] + ps[k + 1..];
      assert p !in ps[..k] && p !in ps[k + 1..];
      assert multiset(ps) == multiset(ps[..k]) + multiset{p} + multiset(ps[k + 1..]);
    }
  }

  /** `for (auto p : rect)`: the points visited between `begin()` and `end()`. */
  method Walk(r: Rect) returns (visited: seq<Vec2>)
    requires r.size.x > 0 && r.size.y >= 0
    ensures visited == Points(r)
  {
    var it := Begin(r);
    visited := [];
    while !Same(it, End(r))
      invariant |visited| <= r.size.x * r.size.y
      invariant it.rect == r && it.idx == Nth(r, |visited|)
      invariant forall k :: 0 <= k < |visited| ==> visited[k] == Nth(r, k)
      decreases r.size.x * r.size.y - |visited|
    {
      NthEnd(r, |visited|);
      IncrementNth(r, |visited|);
      visited := visited + [it.idx];
      it := Increment(it);
    }
    NthEnd(r, |visited|);
  }
}
