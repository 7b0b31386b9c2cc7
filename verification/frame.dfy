/**
 The collision part of one frame: every ball is resolved against the paddle
 and then against every block in order, each block loses one hit point per
 ball that hit it, and the blocks with no hit points left are removed.
 The balls, the blocks and the paddle are the game's own values here; their
 movement, input handling and drawing are not modelled.
 */
module Frame {
  import opened Geometry
  import opened Collision
  import opened Blocks

  /** A ball's bounds and velocity. */
  datatype Ball = Ball(rect: Rect, vel: Vec2)

  /**
   A collision resolver: moving rectangle, its velocity, fixed rectangle. The
   game uses `ResolveCollision`; the bookkeeping below holds for any resolver,
   so it is stated for one given as a parameter.
   */
  type Resolver = (Rect, Vec2, Rect) -> Resolution

  /** The ball after being resolved against `obstacle`, whether or not it hit. */
  function Deflect(resolve: Resolver, ball: Ball, obstacle: Rect): Ball
  {
    var r := resolve(ball.rect, ball.vel, obstacle);
    ball.(rect := r.rect, vel := r.vel)
  }

  /** The rectangles of the blocks, in order. */
  function Rects(blocks: seq<Block>): seq<Rect>
  {
    seq(|blocks|, j requires 0 <= j < |blocks| => blocks[j].rect)
  }

  /**
   The ball as it reaches block `j`: deflected by the paddle first and then
   by the blocks before `j`, in order. Hit points play no part in this path.
   */
  function BallBefore(resolve: Resolver, ball: Ball, paddle: Rect, rects: seq<Rect>, j: nat): Ball
    requires j <= |rects|
    decreases j
  {
    if j == 0 then Deflect(resolve, ball, paddle)
    else Deflect(resolve, BallBefore(resolve, ball, paddle, rects, j - 1), rects[j - 1])
  }

  /** The ball's resolution against block `j` reports a hit. */
  predicate HitsBlock(resolve: Resolver, ball: Ball, paddle: Rect, rects: seq<Rect>, j: nat)
    requires j < |rects|
  {
    var b := BallBefore(resolve, ball, paddle, rects, j);
    resolve(b.rect, b.vel, rects[j]).hit
  }

  /**
   With the game's resolver, a ball hits block `j` exactly when, at the point
   of its path where it reaches that block, its rectangle overlaps or touches
   the block's rectangle.
   */
  lemma GameHitsExactlyOnOverlap(ball: Ball, paddle: Rect, rects: seq<Rect>, j: nat)
    requires j < |rects|
    ensures HitsBlock(ResolveCollision, ball, paddle, rects, j) <==>
      Intersect(BallBefore(ResolveCollision, ball, paddle, rects, j).rect, rects[j]).Some?
  {
    var b := BallBefore(ResolveCollision, ball, paddle, rects, j);
    NoOverlapChangesNothing(b.rect, b.vel, rects[j]);
  }

  /** How many of the balls hit block `j` this frame. */
  function HitCount(resolve: Resolver, balls: seq<Ball>, paddle: Rect, rects: seq<Rect>, j: nat): (n: nat)
    requires j < |rects|
    ensures n <= |balls|
    decreases |balls|
  {
    if balls == [] then 0
    else HitCount(resolve, balls[..|balls| - 1], paddle, rects, j) + (if HitsBlock(resolve, balls[|balls| - 1], paddle, rects, j) then 1 else 0)
  }

  /** A block's count is zero exactly when no ball hits it, and full exactly when every ball does. */
  lemma {:induction false} HitCountExtremes(resolve: Resolver, balls: seq<Ball>, paddle: Rect, rects: seq<Rect>, j: nat)
    requires j < |rects|
    ensures HitCount(resolve, balls, paddle, rects, j) == 0 <==>
      forall k :: 0 <= k < |balls| ==> !HitsBlock(resolve, balls[k], paddle, rects, j)
    ensures HitCount(resolve, balls, paddle, rects, j) == |balls| <==>
      forall k :: 0 <= k < |balls| ==> HitsBlock(resolve, balls[k], paddle, rects, j)
    decreases |balls|
  {
    if balls != [] {
      var front := balls[..|balls| - 1];
      HitCountExtremes(resolve, front, paddle, rects, j);
      assert forall k :: 0 <= k < |front| ==> front[k] == balls[k];
    }
  }

  /** A block after losing `hits` hit points. */
  function Damaged(block: Block, hits: int): Block
  {
    block.(lives := block.lives - hits)
  }

  /** Every block after this frame's hits, before any is removed. */
  function Struck(resolve: Resolver, balls: seq<Ball>, paddle: Rect, blocks: seq<Block>): seq<Block>
  {
    seq(|blocks|, j requires 0 <= j < |blocks| => Damaged(blocks[j], HitCount(resolve, balls, paddle, Rects(blocks), j)))
  }

  /** Counting one more ball adds one exactly when that ball hits the block. */
  lemma HitCountStep(resolve: Resolver, balls: seq<Ball>, paddle: Rect, rects: seq<Rect>, k: nat, j: nat)
    requires k < |balls| && j < |rects|
    ensures HitCount(resolve, balls[..k + 1], paddle, rects, j) ==
      HitCount(resolve, balls[..k], paddle, rects, j) + (if HitsBlock(resolve, balls[k], paddle, rects, j) then 1 else 0)
  {
    assert balls[..k + 1][..k] == balls[..k];
  }

  /** The blocks' rectangles are `rects`. */
  predicate Placed(blocks: seq<Block>, rects: seq<Rect>)
  {
    |blocks| == |rects| && forall i {:trigger blocks[i]} :: 0 <= i < |rects| ==> blocks[i].rect == rects[i]
  }

  /**
   One ball's turn: resolve it against the paddle, ignoring the result, and
   then against every block in order, taking one hit point from each block
   whose resolution reports a hit. The ball ends at the end of its path and
   each block loses one hit point exactly when this ball hits it.
   */
  method SweepBall(resolve: Resolver, ball: Ball, paddle: Rect, rects: seq<Rect>, blocks: seq<Block>)
    returns (movedBall: Ball, hitBlocks: seq<Block>)
    requires Placed(blocks, rects)
    ensures movedBall == BallBefore(resolve, ball, paddle, rects, |rects|)
    ensures |hitBlocks| == |blocks|
    ensures forall i :: 0 <= i < |blocks| ==>
      hitBlocks[i] == Damaged(blocks[i], if HitsBlock(resolve, ball, paddle, rects, i) then 1 else 0)
  {
    var r := resolve(ball.rect, ball.vel, paddle);
    movedBall := ball.(rect := r.rect, vel := r.vel);
    hitBlocks := blocks;
    for j := 0 to |hitBlocks|
      invariant |hitBlocks| == |blocks|
      invariant movedBall == BallBefore(resolve, ball, paddle, rects, j)
      invariant forall i {:trigger hitBlocks[i]} :: 0 <= i < j ==>
        hitBlocks[i] == Damaged(blocks[i], if HitsBlock(resolve, ball, paddle, rects, i) then 1 else 0)
      invariant forall i {:trigger hitBlocks[i]} :: j <= i < |blocks| ==> hitBlocks[i] == blocks[i]
    {
      r := resolve(movedBall.rect, movedBall.vel, hitBlocks[j].rect);
      movedBall := movedBall.(rect := r.rect, vel := r.vel);
      if r.hit {
        hitBlocks := hitBlocks[j := hitBlocks[j].(lives := hitBlocks[j].lives - 1)];
      }
    }
  }

  /**
   Every ball in turn takes its sweep over the paddle and the blocks. Each
   ball ends where its own path ends; each block keeps its rectangle and type
   and loses one hit point per ball that hit it. The paddle is an input and
   is not changed.
   */
  method CollisionStep(resolve: Resolver, balls: seq<Ball>, paddle: Rect, blocks: seq<Block>)
    returns (movedBalls: seq<Ball>, hitBlocks: seq<Block>)
    ensures |movedBalls| == |balls|
    ensures forall k :: 0 <= k < |balls| ==>
      movedBalls[k] == BallBefore(resolve, balls[k], paddle, Rects(blocks), |blocks|)
    ensures |hitBlocks| == |blocks|
    ensures forall j :: 0 <= j < |blocks| ==>
      hitBlocks[j].rect == blocks[j].rect && hitBlocks[j].blockType == blocks[j].blockType &&
      hitBlocks[j].lives == blocks[j].lives - HitCount(resolve, balls, paddle, Rects(blocks), j)
    ensures hitBlocks == Struck(resolve, balls, paddle, blocks)
  {
    var rects := Rects(blocks);
    movedBalls, hitBlocks := balls, blocks;
    for k := 0 to |balls|
      invariant |movedBalls| == |balls| && |hitBlocks| == |blocks|
      invariant forall m :: 0 <= m < k ==> movedBalls[m] == BallBefore(resolve, balls[m], paddle, rects, |rects|)
      invariant forall m :: k <= m < |balls| ==> movedBalls[m] == balls[m]
      invariant forall i :: 0 <= i < |blocks| ==>
        hitBlocks[i] == Damaged(blocks[i], HitCount(resolve, balls[..k], paddle, rects, i))
    {
      var ball;
      ball, hitBlocks := SweepBall(resolve, movedBalls[k], paddle, rects, hitBlocks);
      forall i | 0 <= i < |blocks|
        ensures hitBlocks[i] == Damaged(blocks[i], HitCount(resolve, balls[..k + 1], paddle, rects, i))
      {
        HitCountStep(resolve, balls, paddle, rects, k, i);
      }
      movedBalls := movedBalls[k := ball];
    }
    assert balls[..|balls|] == balls;
    assert hitBlocks == Struck(resolve, balls, paddle, blocks);
  }

  /** The blocks that keep at least one hit point, in their original order. */
  function Retained(blocks: seq<Block>): (kept: seq<Block>)
    ensures |kept| <= |blocks|
    ensures forall m :: 0 <= m < |kept| ==> kept[m].lives > 0
    decreases |blocks|
  {
    if blocks == [] then []
    else
      var kept := Retained(blocks[..|blocks| - 1]);
      var last := blocks[|blocks| - 1];
      if last.lives > 0 then kept + [last] else kept
  }

  /**
   Retaining commutes with concatenation: each part is filtered on its own
   and the survivors of the first part stay ahead of those of the second.
   */
  lemma {:induction false} RetainedDistributes(s: seq<Block>, t: seq<Block>)
    ensures Retained(s + t) == Retained(s) + Retained(t)
    decreases |t|
  {
    if t == [] {
      assert s + t == s;
    } else {
      var front := t[..|t| - 1];
      assert (s + t)[..|s + t| - 1] == s + front;
      RetainedDistributes(s, front);
    }
  }

  /** A live block is kept, right after the survivors of the blocks before it. */
  lemma KeepsLive(blocks: seq<Block>, i: nat)
    requires i < |blocks| && blocks[i].lives > 0
    ensures Retained(blocks) == Retained(blocks[..i]) + [blocks[i]] + Retained(blocks[i + 1..])
  {
    var before, here, after := blocks[..i], [blocks[i]], blocks[i + 1..];
    assert blocks == before + here + after;
    RetainedDistributes(before + here, after);
    RetainedDistributes(before, here);
    assert Retained(here) == here by { assert here[..0] == []; }
  }

  /** A block without hit points is dropped: removing it first leaves the same survivors. */
  lemma DropsDead(blocks: seq<Block>, i: nat)
    requires i < |blocks| && blocks[i].lives <= 0
    ensures Retained(blocks) == Retained(blocks[..i] + blocks[i + 1..])
  {
    var before, here, after := blocks[..i], [blocks[i]], blocks[i + 1..];
    assert blocks == before + here + after;
    RetainedDistributes(before + here, after);
    RetainedDistributes(before, here);
    RetainedDistributes(before, after);
    assert Retained(here) == [] by { assert here[..0] == []; }
  }

  /** Every survivor is one of the original blocks, counted with multiplicity. */
  lemma {:induction false} RetainedIsSubMultiset(blocks: seq<Block>)
    ensures multiset(Retained(blocks)) <= multiset(blocks)
    decreases |blocks|
  {
    if blocks != [] {
      var front := blocks[..|blocks| - 1];
      RetainedIsSubMultiset(front);
      assert blocks == front + [blocks[|blocks| - 1]];
    }
  }

  /**
   Remove the blocks without hit points, compacting in place: survivors are
   copied down over the removed ones and the tail is cut off.
   */
  method RetainLive(blocks: seq<Block>) returns (kept: seq<Block>)
    ensures kept == Retained(blocks)
  {
    var v := blocks;
    var w := 0;
    for r := 0 to |blocks|
      invariant |v| == |blocks| && w <= r
      invariant v[..w] == Retained(blocks[..r])
      invariant v[r..] == blocks[r..]
    {
      assert blocks[..r + 1][..r] == blocks[..r];
      assert v[r] == blocks[r];
      if v[r].lives > 0 {
        ghost var done := v[..w];
        v := v[w := v[r]];
        w := w + 1;
        assert v[..w] == done + [blocks[r]];
      }
    }
    assert blocks[..|blocks|] == blocks;
    kept := v[..w];
  }

  /**
   The collision bookkeeping of one frame, with the game's resolver:
   collisions, then removal of the blocks that have run out of hit points.
   */
  method FrameCollisions(balls: seq<Ball>, paddle: Rect, blocks: seq<Block>)
    returns (movedBalls: seq<Ball>, remaining: seq<Block>)
    ensures |movedBalls| == |balls|
    ensures forall k :: 0 <= k < |balls| ==>
      movedBalls[k] == BallBefore(ResolveCollision, balls[k], paddle, Rects(blocks), |blocks|)
    ensures remaining == Retained(Struck(ResolveCollision, balls, paddle, blocks))
    ensures |remaining| <= |blocks|
    ensures forall m :: 0 <= m < |remaining| ==> remaining[m].lives > 0
  {
    var hitBlocks;
    movedBalls, hitBlocks := CollisionStep(ResolveCollision, balls, paddle, blocks);
    remaining := RetainLive(hitBlocks);
  }

  /**
   A block survives the frame exactly when it had more hit points than balls
   that hit it. A survivor, with its hit points reduced by its own count,
   comes right after the survivors of the blocks before it; a block that
   runs out is dropped and leaves the other survivors as they would be
   without it.
   */
  lemma BlockSurvivesExactlyWhenUnbroken(resolve: Resolver, balls: seq<Ball>, paddle: Rect, blocks: seq<Block>, j: nat)
    requires j < |blocks|
    ensures var struck, hits := Struck(resolve, balls, paddle, blocks), HitCount(resolve, balls, paddle, Rects(blocks), j);
      if blocks[j].lives > hits then
        Retained(struck) == Retained(struck[..j]) + [Damaged(blocks[j], hits)] + Retained(struck[j + 1..])
      else
        Retained(struck) == Retained(struck[..j] + struck[j + 1..])
  {
    var struck := Struck(resolve, balls, paddle, blocks);
    if struck[j].lives > 0 {
      KeepsLive(struck, j);
    } else {
      DropsDead(struck, j);
    }
  }
}
