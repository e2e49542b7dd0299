/** The `Vec2` value type of the maze program: an integer pair with componentwise
    arithmetic and structural equality, and the fixed table of exploration offsets. */
module Geometry {

  /** A grid coordinate. In the solver `x` is the row index and `y` the column index. */
  datatype Vec2 = Vec2(x: int, y: int)

  /** `operator +`: componentwise sum, which leaves `a` where it is exactly when `b` is
      the zero offset. */
  function Add(a: Vec2, b: Vec2): (r: Vec2)
    ensures r == a <==> b == Vec2(0, 0)
  {
    Vec2(a.x + b.x, a.y + b.y)
  }

  /** `operator -`: componentwise difference, zero exactly for equal coordinates. */
  function Sub(a: Vec2, b: Vec2): (r: Vec2)
    ensures r == Vec2(0, 0) <==> a == b
  {
    Vec2(a.x - b.x, a.y - b.y)
  }

  /** The exploration offsets, in the order the solver tries them. */
  const Offsets: seq<Vec2> := [Vec2(0, 1), Vec2(0, -1), Vec2(1, 0), Vec2(-1, 0)]

  predicate IsUnitOffset(d: Vec2) {
    d in Offsets
  }

  /** Position of a delta in `Offsets`, or 4 for a delta that is not one of them. */
  function OffsetIndex(d: Vec2): (k: nat)
    ensures k < |Offsets| <==> IsUnitOffset(d)
    ensures k < |Offsets| ==> Offsets[k] == d
  {
    if d == Vec2(0, 1) then 0
    else if d == Vec2(0, -1) then 1
    else if d == Vec2(1, 0) then 2
    else if d == Vec2(-1, 0) then 3
    else 4
  }

  /** `-` undoes `+`, and `+` undoes `-`: a step by an offset is recovered by the
      difference the path reconstruction computes. */
  lemma AddSubInverse(a: Vec2, b: Vec2)
    ensures Sub(Add(a, b), b) == a
    ensures Add(b, Sub(a, b)) == a
  {
  }

  /** The only coordinate whose difference from `c` has index `k` is `c + Offsets[k]`. */
  lemma OffsetIndexOfStep(c: Vec2, k: nat)
    requires k < |Offsets|
    ensures forall n :: OffsetIndex(Sub(n, c)) == k <==> n == Add(c, Offsets[k])
  {
    forall n | OffsetIndex(Sub(n, c)) == k
      ensures n == Add(c, Offsets[k])
    {
      AddSubInverse(n, c);
    }
    AddSubInverse(c, Offsets[k]);
  }
}
