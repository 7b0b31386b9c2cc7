/**
 Geometry primitives the game borrows from its framework: an axis-aligned
 rectangle, a 2D vector, rectangle intersection and the component-wise sign.
 Coordinates are `real`: the framework's 32-bit floats are not modelled.
 */
module Geometry {

  datatype Option<T> = None | Some(value: T)

  datatype Vec2 = Vec2(x: real, y: real)
  {
    function Plus(o: Vec2): Vec2 { Vec2(x + o.x, y + o.y) }

    function Minus(o: Vec2): Vec2 { Vec2(x - o.x, y - o.y) }

    /** Component-wise sign; a zero component counts as positive (+0.0 has sign +1). */
    function Signum(): (s: Vec2)
      ensures s.x == 1.0 || s.x == -1.0
      ensures s.y == 1.0 || s.y == -1.0
      ensures (s.x < 0.0 <==> x < 0.0) && (s.y < 0.0 <==> y < 0.0)
    {
      Vec2(Sign(x), Sign(y))
    }
  }

  /** A rectangle with its top-left corner at (x, y); y grows downwards. */
  datatype Rect = Rect(x: real, y: real, w: real, h: real)
  {
    function Right(): real { x + w }

    function Bottom(): real { y + h }

    function Point(): Vec2 { Vec2(x, y) }

    function Size(): Vec2 { Vec2(w, h) }

    function Center(): Vec2 { Point().Plus(Vec2(w * 0.5, h * 0.5)) }

    predicate NonNegative() { w >= 0.0 && h >= 0.0 }
  }

  function Sign(r: real): real { if r < 0.0 then -1.0 else 1.0 }

  function Abs(r: real): (m: real)
    ensures m >= 0.0 && (m == r || m == -r)
  {
    if r < 0.0 then -r else r
  }

  function Max(p: real, q: real): real { if p < q then q else p }

  function Min(p: real, q: real): real { if p < q then p else q }

  /**
   The overlap of two rectangles: from the larger of the two left/top edges to
   the smaller of the two right/bottom edges, absent when those cross.
   Rectangles that only share an edge give an overlap of zero extent.
   */
  function Intersect(a: Rect, b: Rect): Option<Rect>
  {
    var left := Max(a.x, b.x);
    var top := Max(a.y, b.y);
    var right := Min(a.Right(), b.Right());
    var bottom := Min(a.Bottom(), b.Bottom());
    if right < left || bottom < top then None
    else Some(Rect(left, top, right - left, bottom - top))
  }

  /** Rectangle `inner` lies inside rectangle `outer` (edges may coincide). */
  predicate Within(inner: Rect, outer: Rect)
  {
    outer.x <= inner.x && inner.Right() <= outer.Right() &&
    outer.y <= inner.y && inner.Bottom() <= outer.Bottom()
  }

  /** An overlap, when there is one, has non-negative size and lies inside both rectangles. */
  lemma IntersectLiesInBoth(a: Rect, b: Rect)
    ensures Intersect(a, b).Some? ==>
      Intersect(a, b).value.NonNegative() && Within(Intersect(a, b).value, a) && Within(Intersect(a, b).value, b)
  {
  }

  /**
   For rectangles of non-negative size, the overlap exists exactly when the
   rectangles overlap or touch on both axes.
   */
  lemma IntersectExactlyWhenTouching(a: Rect, b: Rect)
    requires a.NonNegative() && b.NonNegative()
    ensures Intersect(a, b).Some? <==>
      (a.x <= b.Right() && b.x <= a.Right() && a.y <= b.Bottom() && b.y <= a.Bottom())
  {
  }

  /** A rectangle of non-negative size inside another overlaps it in exactly itself. */
  lemma IntersectOfContained(inner: Rect, outer: Rect)
    requires inner.NonNegative() && Within(inner, outer)
    ensures Intersect(inner, outer) == Some(inner)
  {
  }
}
