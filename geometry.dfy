/**
 * Plane geometry shared by selection, formation and movement: points as
 * pairs of reals, squared distance (which orders points exactly as the
 * Euclidean distance does), the drag rectangle and the engine's
 * "move towards" step.
 */
module Geometry {

  datatype Vec2 = Vec2(x: real, y: real)

  function Add(a: Vec2, b: Vec2): Vec2 { Vec2(a.x + b.x, a.y + b.y) }

  function Sub(a: Vec2, b: Vec2): Vec2 { Vec2(a.x - b.x, a.y - b.y) }

  function Scale(v: Vec2, k: real): Vec2 { Vec2(v.x * k, v.y * k) }

  function NormSq(v: Vec2): real { v.x * v.x + v.y * v.y }

  /** Squared Euclidean distance. */
  function DistSq(a: Vec2, b: Vec2): real
  {
    NormSq(Sub(a, b))
  }

  lemma NormSqScale(v: Vec2, k: real)
    ensures NormSq(Scale(v, k)) == k * k * NormSq(v)
  {
    calc {
      NormSq(Scale(v, k));
      (v.x * k) * (v.x * k) + (v.y * k) * (v.y * k);
      { assert (v.x * k) * (v.x * k) == k * k * (v.x * v.x);
        assert (v.y * k) * (v.y * k) == k * k * (v.y * v.y); }
      k * k * (v.x * v.x) + k * k * (v.y * v.y);
    }
  }

  /** `l` is the Euclidean length of the segment from `a` to `b`. */
  predicate IsLength(a: Vec2, b: Vec2, l: real)
  {
    l >= 0.0 && l * l == DistSq(a, b)
  }

  /**
   * Vector2.MoveTowards. The engine takes the square root of the squared
   * distance itself; here that length is the argument `len`.
   */
  function MoveTowards(current: Vec2, target: Vec2, maxDelta: real, len: real): (r: Vec2)
    requires IsLength(current, target, len)
    ensures DistSq(current, target) <= maxDelta * maxDelta && maxDelta >= 0.0 ==> r == target
    ensures !(DistSq(current, target) == 0.0 || (maxDelta >= 0.0 && DistSq(current, target) <= maxDelta * maxDelta)) ==>
      len > 0.0 && r == Add(current, Scale(Sub(target, current), maxDelta / len))
  {
    var sqDist := DistSq(current, target);
    if sqDist == 0.0 || (maxDelta >= 0.0 && sqDist <= maxDelta * maxDelta) then
      target
    else
      assert len != 0.0;
      Add(current, Scale(Sub(target, current), maxDelta / len))
  }

  lemma MulMonotone(a: real, b: real, c: real)
    requires 0.0 <= c && a <= b
    ensures a * c <= b * c
  {
    assert b * c - a * c == (b - a) * c;
  }

  /** Comparing squares of non-negative numbers compares the numbers. */
  lemma SquareLess(a: real, b: real)
    requires 0.0 <= a && 0.0 <= b && a * a < b * b
    ensures a < b
  {
    if b <= a {
      MulMonotone(b, a, b);
      MulMonotone(b, a, a);
    }
  }

  lemma DivBelowOne(a: real, b: real)
    requires 0.0 <= a < b
    ensures 0.0 <= a / b < 1.0
  {
    assert (a / b) * b == a;
  }

  /**
   * A step of non-negative length never overshoots: it lands on the target
   * or stays on the segment towards it, with the remaining way the old one
   * scaled by a factor in (0, 1].
   */
  lemma MoveTowardsOnSegment(current: Vec2, target: Vec2, maxDelta: real, len: real)
    requires IsLength(current, target, len) && maxDelta >= 0.0
    ensures var r := MoveTowards(current, target, maxDelta, len);
      r == target ||
      (len > 0.0 && 0.0 < 1.0 - maxDelta / len <= 1.0 &&
       Sub(target, r) == Scale(Sub(target, current), 1.0 - maxDelta / len))
  {
    var r := MoveTowards(current, target, maxDelta, len);
    if r != target {
      var k := maxDelta / len;
      SquareLess(maxDelta, len);
      DivBelowOne(maxDelta, len);
      var d := Sub(target, current);
      assert r == Vec2(current.x + d.x * k, current.y + d.y * k);
      assert target.x - (current.x + d.x * k) == d.x * (1.0 - k);
      assert target.y - (current.y + d.y * k) == d.y * (1.0 - k);
    }
  }

  /** Unity's Rect: the minimum corner and the (here non-negative) extents. */
  datatype Rect = Rect(xMin: real, yMin: real, width: real, height: real)

  function Min(a: real, b: real): real { if a <= b then a else b }

  function Abs(a: real): real { if a < 0.0 then -a else a }

  /** The drag rectangle of HandleDragSelection, from the two drag corners. */
  function DragRect(start: Vec2, end: Vec2): (r: Rect)
    ensures r.width >= 0.0 && r.height >= 0.0
    ensures r.xMin <= start.x && r.xMin <= end.x && r.yMin <= start.y && r.yMin <= end.y
    ensures r.xMin + r.width == (if start.x <= end.x then end.x else start.x)
    ensures r.yMin + r.height == (if start.y <= end.y then end.y else start.y)
  {
    Rect(Min(start.x, end.x), Min(start.y, end.y), Abs(start.x - end.x), Abs(start.y - end.y))
  }

  /** Rect.Contains: closed at the minimum edges, open at the maximum edges. */
  predicate Contains(r: Rect, p: Vec2)
  {
    r.xMin <= p.x < r.xMin + r.width && r.yMin <= p.y < r.yMin + r.height
  }

  /** The rectangle does not depend on which corner the drag started from. */
  lemma DragRectSymmetric(a: Vec2, b: Vec2)
    ensures DragRect(a, b) == DragRect(b, a)
  {
  }

  /**
   * A point is in the drag rectangle iff it lies between the two corners on
   * each axis, closed towards the smaller and open towards the larger
   * coordinate, whichever corner the drag started from.
   */
  lemma DragRectContains(a: Vec2, b: Vec2, p: Vec2)
    ensures Contains(DragRect(a, b), p) <==>
      (Min(a.x, b.x) <= p.x < (if a.x <= b.x then b.x else a.x)) &&
      (Min(a.y, b.y) <= p.y < (if a.y <= b.y then b.y else a.y))
  {
  }

  /** A click without mouse movement yields a rectangle that contains nothing. */
  lemma DegenerateDragRectIsEmpty(a: Vec2, p: Vec2)
    ensures !Contains(DragRect(a, a), p)
  {
  }

  /** Overlap of two discs (the physics overlap query on circular colliders). */
  predicate DiscsOverlap(c1: Vec2, r1: real, c2: Vec2, r2: real)
  {
    DistSq(c1, c2) < (r1 + r2) * (r1 + r2)
  }
}
