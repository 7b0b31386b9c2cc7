/**
 AABB collision resolution with positional correction: a moving rectangle and
 its velocity are pushed out of a fixed rectangle along one axis, and the
 velocity on that axis is turned to point away from the fixed rectangle.
 The moving rectangle and velocity, which the game passes by mutable
 reference, are returned in a `Resolution` that the caller writes back.
 */
module Collision {
  import opened Geometry

  /** What one resolution reports, and the moving rectangle and velocity afterwards. */
  datatype Resolution = Resolution(hit: bool, rect: Rect, vel: Vec2)

  /**
   `d` does not point towards a target that lies in direction `to` on the same
   axis. A target dead ahead (`to == 0`) counts as lying in the positive
   direction, because the sign of +0.0 is +1.
   */
  predicate PointsAway(d: real, to: real)
  {
    if to < 0.0 then d >= 0.0 else d <= 0.0
  }

  /** The overlap is wider than it is tall, so the bounce is vertical. */
  predicate Vertical(a: Rect, b: Rect)
  {
    var i := Intersect(a, b);
    i.Some? && i.value.w > i.value.h
  }

  /** There is an overlap, and it is at least as tall as it is wide (ties included): the bounce is horizontal. */
  predicate Horizontal(a: Rect, b: Rect)
  {
    var i := Intersect(a, b);
    i.Some? && !(i.value.w > i.value.h)
  }

  /** Vector from the centre of `a` to the centre of `b`. */
  function Towards(a: Rect, b: Rect): Vec2
  {
    b.Center().Minus(a.Center())
  }

  /**
   Resolve a moving rectangle `a` with velocity `vel` against a fixed
   rectangle `b`; its properties are stated by the lemmas below.
   */
  function ResolveCollision(a: Rect, vel: Vec2, b: Rect): Resolution
  {
    match Intersect(a, b)
    case None => Resolution(false, a, vel)
    case Some(intersection) =>
      var toSignum := Towards(a, b).Signum();
      if intersection.w > intersection.h then
        Resolution(true, a.(y := a.y - toSignum.y * intersection.h),
                         vel.(y := -toSignum.y * Abs(vel.y)))
      else
        Resolution(true, a.(x := a.x - toSignum.x * intersection.w),
                         vel.(x := -toSignum.x * Abs(vel.x)))
  }

  /**
   The resolver as the game runs it, statement by statement: local copies
   of `a` and `vel` are updated in the game's order and returned with the hit. It computes exactly what
   `ResolveCollision` describes.
   */
  method ResolveStepwise(a: Rect, vel: Vec2, b: Rect) returns (hit: bool, moved: Rect, bounced: Vec2)
    ensures Resolution(hit, moved, bounced) == ResolveCollision(a, vel, b)
  {
    moved, bounced := a, vel;
    var overlap := Intersect(moved, b);
    if overlap.None? {
      return false, moved, bounced;
    }
    var intersection := overlap.value;
    var to := Towards(moved, b);
    var toSignum := to.Signum();
    if intersection.w > intersection.h {
      moved := moved.(y := moved.y - toSignum.y * intersection.h);
      bounced := bounced.(y := -toSignum.y * Abs(bounced.y));
    } else {
      moved := moved.(x := moved.x - toSignum.x * intersection.w);
      bounced := bounced.(x := -toSignum.x * Abs(bounced.x));
    }
    hit := true;
  }

  /** Without an overlap the resolver reports no hit and changes nothing. */
  lemma NoOverlapChangesNothing(a: Rect, vel: Vec2, b: Rect)
    ensures Intersect(a, b).None? <==> !ResolveCollision(a, vel, b).hit
    ensures Intersect(a, b).None? ==>
      ResolveCollision(a, vel, b).rect == a && ResolveCollision(a, vel, b).vel == vel
  {
  }

  /** The moving rectangle keeps its size, whatever happens. */
  lemma SizeIsKept(a: Rect, vel: Vec2, b: Rect)
    ensures ResolveCollision(a, vel, b).rect.Size() == a.Size()
  {
  }

  /**
   A vertical bounce moves only y, by exactly the overlap's height and away
   from `b`; `vel.y` keeps its speed and turns away from `b`; x and `vel.x`
   stay as they were.
   */
  lemma VerticalBounce(a: Rect, vel: Vec2, b: Rect)
    requires Vertical(a, b)
    ensures var r := ResolveCollision(a, vel, b);
      r.hit && r.rect.x == a.x && r.vel.x == vel.x &&
      Abs(r.rect.y - a.y) == Intersect(a, b).value.h &&
      PointsAway(r.rect.y - a.y, Towards(a, b).y) &&
      Abs(r.vel.y) == Abs(vel.y) && PointsAway(r.vel.y, Towards(a, b).y)
  {
  }

  /**
   A horizontal bounce, which includes the tie where the overlap is as tall
   as it is wide, moves only x, by exactly the overlap's width and away from
   `b`; `vel.x` keeps its speed and turns away from `b`; y and `vel.y` stay.
   */
  lemma HorizontalBounce(a: Rect, vel: Vec2, b: Rect)
    requires Horizontal(a, b)
    ensures var r := ResolveCollision(a, vel, b);
      r.hit && r.rect.y == a.y && r.vel.y == vel.y &&
      Abs(r.rect.x - a.x) == Intersect(a, b).value.w &&
      PointsAway(r.rect.x - a.x, Towards(a, b).x) &&
      Abs(r.vel.x) == Abs(vel.x) && PointsAway(r.vel.x, Towards(a, b).x)
  {
  }

  /**
   When `a` has only partly entered `b` on the resolved axis (its near edge is
   inside `b` but its far edge is not past `b`'s far edge), the correction
   leaves the two rectangles exactly touching on that axis: the overlap that
   remains, if any, has zero extent there.
   */
  lemma PartialPenetrationEndsTouching(a: Rect, vel: Vec2, b: Rect)
    ensures var r := ResolveCollision(a, vel, b);
      Vertical(a, b) &&
      ((a.y <= b.y && a.Bottom() <= b.Bottom()) || (b.y <= a.y && b.Bottom() <= a.Bottom())) ==>
        (r.rect.Bottom() == b.y || r.rect.y == b.Bottom()) &&
        (Intersect(r.rect, b).Some? ==> Intersect(r.rect, b).value.h == 0.0)
    ensures var r := ResolveCollision(a, vel, b);
      Horizontal(a, b) &&
      ((a.x <= b.x && a.Right() <= b.Right()) || (b.x <= a.x && b.Right() <= a.Right())) ==>
        (r.rect.Right() == b.x || r.rect.x == b.Right()) &&
        (Intersect(r.rect, b).Some? ==> Intersect(r.rect, b).value.w == 0.0)
  {
    var r := ResolveCollision(a, vel, b);
    if Vertical(a, b) && ((a.y <= b.y && a.Bottom() <= b.Bottom()) || (b.y <= a.y && b.Bottom() <= a.Bottom())) {
      var i := Intersect(a, b).value;
      if a.y <= b.y && a.Bottom() <= b.Bottom() {
        assert Towards(a, b).y >= 0.0;
        assert r.rect.y == a.y - i.h;
      } else {
        assert r.rect.y == a.y + i.h || (Towards(a, b).y == 0.0 && r.rect.y == a.y - i.h);
      }
    }
    if Horizontal(a, b) && ((a.x <= b.x && a.Right() <= b.Right()) || (b.x <= a.x && b.Right() <= a.Right())) {
      var i := Intersect(a, b).value;
      if a.x <= b.x && a.Right() <= b.Right() {
        assert Towards(a, b).x >= 0.0;
        assert r.rect.x == a.x - i.w;
      } else {
        assert r.rect.x == a.x + i.w || (Towards(a, b).x == 0.0 && r.rect.x == a.x - i.w);
      }
    }
  }

  /**
   A rectangle lodged inside `b` overlaps it in the whole of itself, so the
   correction moves it by its own width or height and no more: towards the
   side of `b` nearer to its centre on the resolved axis.
   */
  lemma ContainedMovesByOwnExtent(a: Rect, vel: Vec2, b: Rect)
    requires a.NonNegative() && Within(a, b)
    ensures var r := ResolveCollision(a, vel, b);
      r.hit &&
      (a.w > a.h ==> r.rect == a.(y := a.y - Sign(Towards(a, b).y) * a.h)) &&
      (!(a.w > a.h) ==> r.rect == a.(x := a.x - Sign(Towards(a, b).x) * a.w))
  {
    IntersectOfContained(a, b);
  }

  /**
   The correction is one overlap extent, so a rectangle lodged deep inside
   another is not separated: when `a` lies inside `b` with room for at least
   its own extent on both sides of the resolved axis, it still lies inside
   `b` afterwards and the two still overlap in the whole of `a`.
   */
  lemma DeepPenetrationStaysInside(a: Rect, vel: Vec2, b: Rect)
    requires a.NonNegative() && Within(a, b)
    requires a.w > a.h ==> b.y + a.h <= a.y && a.Bottom() + a.h <= b.Bottom()
    requires !(a.w > a.h) ==> b.x + a.w <= a.x && a.Right() + a.w <= b.Right()
    ensures var r := ResolveCollision(a, vel, b);
      r.hit && Within(r.rect, b) && Intersect(r.rect, b) == Some(r.rect)
  {
    var r := ResolveCollision(a, vel, b);
    ContainedMovesByOwnExtent(a, vel, b);
    assert r.rect.NonNegative();
    IntersectOfContained(r.rect, b);
  }
}
