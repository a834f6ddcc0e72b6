/** `ddr::math::vec2<std::intmax_t>` (`ivec2`): an integer 2-vector. */
module Vector {

  datatype Vec2 = Vec2(x: int, y: int)

  function Add(a: Vec2, b: Vec2): Vec2 { Vec2(a.x + b.x, a.y + b.y) }

  function Sub(a: Vec2, b: Vec2): Vec2 { Vec2(a.x - b.x, a.y - b.y) }

  function Min(a: Vec2, b: Vec2): Vec2 {
    Vec2(if a.x <= b.x then a.x else b.x, if a.y <= b.y then a.y else b.y)
  }

  function Max(a: Vec2, b: Vec2): Vec2 {
    Vec2(if a.x >= b.x then a.x else b.x, if a.y >= b.y then a.y else b.y)
  }

  function AbsInt(n: int): nat { if n < 0 then -n else n }

  function Abs(v: Vec2): Vec2 { Vec2(AbsInt(v.x), AbsInt(v.y)) }

  /** Manhattan distance: the two components of `abs(a - b)` added. */
  function Manh(a: Vec2, b: Vec2): int {
    var v := Abs(Sub(a, b));
    v.x + v.y
  }

  /** `v[i]`, reading the union's array view: 0 is x and 1 is y. */
  function Index(v: Vec2, i: nat): (r: int)
    requires i < 2
    ensures r == if i == 0 then v.x else v.y
  {
    [v.x, v.y][i]
  }

  /** `!=` is the negation of `==`, and `==` compares both components. */
  lemma EqualityComponentwise(a: Vec2, b: Vec2)
    ensures a == b <==> a.x == b.x && a.y == b.y
    ensures a != b <==> a.x != b.x || a.y != b.y
  {
  }

  /** Subtraction undoes addition. */
  lemma SubAdd(a: Vec2, b: Vec2)
    ensures Sub(Add(a, b), b) == a
    ensures Add(Sub(a, b), b) == a
  {
  }

  /** `min` and `max` are the componentwise greatest lower and least upper bounds. */
  lemma MinMaxBounds(a: Vec2, b: Vec2, c: Vec2)
    ensures Min(a, b).x <= a.x && Min(a, b).x <= b.x && Min(a, b).y <= a.y && Min(a, b).y <= b.y
    ensures Max(a, b).x >= a.x && Max(a, b).x >= b.x && Max(a, b).y >= a.y && Max(a, b).y >= b.y
    ensures c.x <= a.x && c.x <= b.x && c.y <= a.y && c.y <= b.y ==> c.x <= Min(a, b).x && c.y <= Min(a, b).y
    ensures c.x >= a.x && c.x >= b.x && c.y >= a.y && c.y >= b.y ==> c.x >= Max(a, b).x && c.y >= Max(a, b).y
    ensures Min(a, b) == Min(b, a) && Max(a, b) == Max(b, a)
  {
  }

  /** `abs` keeps each component's magnitude and makes it non-negative. */
  lemma AbsComponents(v: Vec2)
    ensures Abs(v).x >= 0 && Abs(v).y >= 0
    ensures Abs(v).x == v.x || Abs(v).x == -v.x
    ensures Abs(v).y == v.y || Abs(v).y == -v.y
    ensures Abs(Abs(v)) == Abs(v)
  {
  }

  /** Manhattan distance is a metric on the integer plane. */
  lemma ManhMetric(a: Vec2, b: Vec2, c: Vec2)
    ensures Manh(a, b) >= 0
    ensures Manh(a, b) == Manh(b, a)
    ensures Manh(a, b) == 0 <==> a == b
    ensures Manh(a, c) <= Manh(a, b) + Manh(b, c)
  {
  }

  /** Moving both points by the same vector leaves their distance unchanged. */
  lemma ManhTranslation(a: Vec2, b: Vec2, t: Vec2)
    ensures Manh(Sub(a, t), Sub(b, t)) == Manh(a, b)
    ensures Manh(Add(a, t), Add(b, t)) == Manh(a, b)
  {
    assert Sub(Sub(a, t), Sub(b, t)) == Sub(a, b);
    assert Sub(Add(a, t), Add(b, t)) == Sub(a, b);
  }

  /** A `vec2` variable, for the compound assignments `+=` and `-=` that
      update x and y in place. */
  class Vec2Var {
    var x: int
    var y: int

    function Value(): Vec2
      reads this
    {
      Vec2(x, y)
    }

    constructor (v: Vec2)
      ensures Value() == v
    {
      x, y := v.x, v.y;
    }

    /** `*this += other`: the same value `*this + other` would give. */
    method AddAssign(other: Vec2)
      modifies this
      ensures Value() == Add(old(Value()), other)
    {
      x := x + other.x;
      y := y + other.y;
    }

    /** `*this -= other`: the same value `*this - other` would give. */
    method SubAssign(other: Vec2)
      modifies this
      ensures Value() == Sub(old(Value()), other)
    {
      x := x - other.x;
      y := y - other.y;
    }
  }
}
