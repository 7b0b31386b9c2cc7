# Breakout, lesson 4: collisions, blocks and the level grid

This project models the game logic of the fourth Breakout lesson. It has three parts.

- **The collision resolver.** It intersects a moving rectangle with a fixed one. When they overlap, it pushes the moving rectangle out along one axis and turns that velocity component away from the fixed rectangle. The overlap decides the axis: y when it is wider than tall, and x otherwise, so a tie goes to x.
- **A frame's block bookkeeping.** Each ball is resolved against the paddle and then against every block in order. Each block loses one hit point per ball that hit it. The blocks left with no hit points are then removed, and the order of the others is kept.
- **The level.** A 6x6 grid of 100x40 blocks, 5 units apart, centred on the screen with the trailing padding counted, and starting 50 units from the top. Each block's colour is red, orange or green, chosen by its type and hit points.

The model has five modules.

- `Geometry` holds the framework's rectangle and vector.
  - Rectangle intersection runs from the larger of the left/top edges to the smaller of the right/bottom edges. It is absent when those cross, so edge contact is an overlap of zero extent.
  - `signum` maps a zero component to +1.
- `Collision` holds the resolver.
  - `ResolveStepwise` updates local copies of the rectangle and velocity statement by statement, in the game's order, and returns them.
  - The function `ResolveCollision` describes what it computes. The lemmas state its properties.
  - The game's `&mut` rectangle and velocity become returned values that the caller writes back.
- `Blocks` holds the block type, its constructor and its colour.
- `Level` holds the grid construction loop and its layout lemmas.
- `Frame` holds the per-frame collision pass and the removal of broken blocks.
  - They are methods over sequences with loop invariants.
  - Each method is proved against specification functions: `BallBefore`, `HitCount`, `Struck` and `Retained`.
  - The bookkeeping is stated for any resolver, and `FrameCollisions` instantiates it with the game's own.

The position correction is exactly one overlap extent. The model proves that this leaves the rectangles exactly touching when the moving rectangle has only partly entered the fixed one. It also proves that a rectangle lodged deep inside another is *not* separated. The code promises no more than that, so full separation is not claimed.

## Model

| member | source | states |
|---|---|---|
| Geometry.Vec2.Signum | crates/lessons/lesson-4/src/main.rs:21 | each component is +1 or -1, negative exactly when the input component is negative (zero counts as positive) |
| Geometry.Intersect | crates/lessons/lesson-4/src/main.rs:13 | definition of the framework's rectangle intersection, no contract of its own: from the larger left/top edge to the smaller right/bottom edge, absent when those cross; IntersectLiesInBoth, IntersectExactlyWhenTouching and IntersectOfContained state its properties |
| Geometry.Abs | crates/lessons/lesson-4/src/main.rs:26 | the magnitude of a component: non-negative and equal to the component or its negation |
| Geometry.IntersectLiesInBoth | crates/lessons/lesson-4/src/main.rs:13 | an overlap, when present, has non-negative size and lies inside both rectangles |
| Geometry.IntersectExactlyWhenTouching | crates/lessons/lesson-4/src/main.rs:13-16 | for rectangles of non-negative size, an overlap exists exactly when they overlap or touch on both axes |
| Geometry.IntersectOfContained | crates/lessons/lesson-4/src/main.rs:13 | a rectangle inside another overlaps it in exactly itself |
| Collision.Towards | crates/lessons/lesson-4/src/main.rs:18-20 | specification function, no contract of its own: the vector from the moving rectangle's centre to the fixed one's, whose sign decides the direction of the correction |
| Collision.Vertical | crates/lessons/lesson-4/src/main.rs:22 | specification predicate, no contract of its own: there is an overlap and it is strictly wider than tall, so y is corrected; VerticalBounce states what follows |
| Collision.Horizontal | crates/lessons/lesson-4/src/main.rs:22 | specification predicate, no contract of its own: there is an overlap and it is not wider than tall (tie included), so x is corrected; HorizontalBounce states what follows |
| Collision.ResolveCollision | crates/lessons/lesson-4/src/main.rs:11-35 | no contract of its own; its behaviour is stated in full by NoOverlapChangesNothing, SizeIsKept, VerticalBounce and HorizontalBounce |
| Collision.ResolveStepwise | crates/lessons/lesson-4/src/main.rs:11-35 | the stepwise updates to the rectangle and velocity, and the returned flag, are exactly the resolution `ResolveCollision` describes |
| Collision.NoOverlapChangesNothing | crates/lessons/lesson-4/src/main.rs:13-15 | no hit is reported exactly when there is no overlap, and then the rectangle and velocity are unchanged |
| Collision.SizeIsKept | crates/lessons/lesson-4/src/main.rs:22-33 | the moving rectangle's width and height never change |
| Collision.VerticalBounce | crates/lessons/lesson-4/src/main.rs:18-27 | for an overlap wider than tall: a hit; x and the x velocity unchanged; y moves by exactly the overlap's height, away from the other centre; the y velocity keeps its magnitude and points away |
| Collision.HorizontalBounce | crates/lessons/lesson-4/src/main.rs:18-32 | for an overlap at least as tall as wide (tie included): a hit; y and the y velocity unchanged; x moves by exactly the overlap's width, away from the other centre; the x velocity keeps its magnitude and points away |
| Collision.PartialPenetrationEndsTouching | crates/lessons/lesson-4/src/main.rs:22-33 | when the moving rectangle has only partly entered on the resolved axis, afterwards the two share an edge on that axis and any remaining overlap has zero extent there |
| Collision.ContainedMovesByOwnExtent | crates/lessons/lesson-4/src/main.rs:22-33 | a rectangle inside the other is moved by exactly its own height (or width), against the sign of the centre-to-centre vector |
| Collision.DeepPenetrationStaysInside | crates/lessons/lesson-4/src/main.rs:22-33 | a rectangle lodged deeper than its own extent still lies inside the other afterwards, and they still overlap: one correction does not separate them |
| Blocks.NewBlock | crates/lessons/lesson-4/src/block.rs:18-24 | the block sits at the given position, is 100x40, has 2 hit points and keeps the given type, so it is alive and has its type's full-health colour |
| Blocks.BlockColour | crates/lessons/lesson-4/src/block.rs:27-33 | red exactly for a regular block at 2 hit points, orange exactly for a regular block at any other count, green exactly for a ball-spawning block; so exactly one colour for every block |
| Blocks.FirstHitTurnsRegularOrange | crates/lessons/lesson-4/src/block.rs:27-31 | a fresh regular block is red, turns orange after one lost hit point, and is then still alive |
| Level.BlockStartPos | crates/lessons/lesson-4/src/main.rs:47 | specification function, no contract of its own: the first block's corner; GridIsCentred states that it centres the grid |
| Level.Column | crates/lessons/lesson-4/src/main.rs:50 | specification function, no contract of its own: index `i`'s column, `i % 6`; CellsAreABijection states its range and injectivity |
| Level.Row | crates/lessons/lesson-4/src/main.rs:51 | specification function, no contract of its own: index `i`'s row, `i / 6`; CellsAreABijection states its range and injectivity |
| Level.CellPos | crates/lessons/lesson-4/src/main.rs:49-52 | specification function, no contract of its own: block `i`'s corner at column `i % 6`, row `i / 6`; BuildGrid, CellsAreABijection and GridBlocksAreDisjoint state its properties |
| Level.BuildGrid | crates/lessons/lesson-4/src/main.rs:44-53 | exactly 6*6 = 36 blocks, block `i` being a new block at the corner of column `i % 6`, row `i / 6` |
| Level.CellsAreABijection | crates/lessons/lesson-4/src/main.rs:49-51 | every index lands in a cell of the 6x6 grid, distinct indices land in distinct cells, and every cell is reached |
| Level.GridBlocksAreDisjoint | crates/lessons/lesson-4/src/main.rs:44-52 | the padding keeps any two distinct grid blocks from overlapping or even touching |
| Level.GridIsCentred | crates/lessons/lesson-4/src/main.rs:47 | the space left of the grid equals the space right of it (padding included), and the first row starts at y = 50 |
| Frame.GameHitsExactlyOnOverlap | crates/lessons/lesson-4/src/main.rs:66 | with the game's resolver, a ball hits a block exactly when its rectangle overlaps or touches the block's at that point of its path |
| Frame.Deflect | crates/lessons/lesson-4/src/main.rs:64-66 | specification function, no contract of its own: the ball with the resolver's rectangle and velocity written back, whether or not it hit |
| Frame.HitsBlock | crates/lessons/lesson-4/src/main.rs:66 | specification predicate, no contract of its own: the flag the resolver reports for block `j` at that point of the ball's path; GameHitsExactlyOnOverlap states it for the game's resolver |
| Frame.BallBefore | crates/lessons/lesson-4/src/main.rs:64-66 | specification function, no contract of its own: the ball deflected by the paddle and then the earlier blocks in order; SweepBall and CollisionStep are proved against it |
| Frame.Damaged | crates/lessons/lesson-4/src/main.rs:67 | specification function, no contract of its own: a block less the given hit points |
| Frame.Struck | crates/lessons/lesson-4/src/main.rs:63-70 | specification function, no contract of its own: every block less its hit count; CollisionStep is proved equal to it |
| Frame.HitCount | crates/lessons/lesson-4/src/main.rs:63-70 | a block is hit by at most as many balls as there are |
| Frame.HitCountExtremes | crates/lessons/lesson-4/src/main.rs:63-70 | a block's count is zero exactly when no ball hits it, and equals the number of balls exactly when every ball does |
| Frame.HitCountStep | crates/lessons/lesson-4/src/main.rs:63-67 | counting one more ball adds one exactly when that ball hits the block |
| Frame.SweepBall | crates/lessons/lesson-4/src/main.rs:64-69 | one ball is resolved against the paddle and then each block in order, ending at the end of that path; each block loses one hit point exactly when that ball hits it, and the paddle costs none |
| Frame.CollisionStep | crates/lessons/lesson-4/src/main.rs:63-70 | every ball ends at the end of its own path; every block keeps its rectangle and type and loses exactly as many hit points as balls hit it |
| Frame.Retained | crates/lessons/lesson-4/src/main.rs:72 | the survivors are no more than the blocks, and every survivor has hit points left |
| Frame.RetainedDistributes | crates/lessons/lesson-4/src/main.rs:72 | filtering a concatenation filters each part, and the first part's survivors stay ahead of the second's |
| Frame.KeepsLive | crates/lessons/lesson-4/src/main.rs:72 | a block with hit points is kept, placed right after the survivors of the blocks before it (no live block is dropped, order is kept) |
| Frame.DropsDead | crates/lessons/lesson-4/src/main.rs:72 | a block without hit points is dropped and leaves the survivors as they would be without it |
| Frame.RetainedIsSubMultiset | crates/lessons/lesson-4/src/main.rs:72 | every survivor is one of the original blocks, counted with multiplicity |
| Frame.RetainLive | crates/lessons/lesson-4/src/main.rs:72 | the in-place compaction leaves exactly the live blocks, in their order |
| Frame.FrameCollisions | crates/lessons/lesson-4/src/main.rs:63-72 | with the game's resolver: the balls end at the end of their paths; the blocks left are the survivors of the struck blocks, no more than before and all alive |
| Frame.BlockSurvivesExactlyWhenUnbroken | crates/lessons/lesson-4/src/main.rs:63-72 | a block survives the frame exactly when it had more hit points than balls hit it, and then it sits, damaged by its own count, right after the earlier survivors |

## Left out

- Rendering, the async frame loop and the entry point (`clear_background`, drawing, `next_frame`) are I/O and are not modelled. The colour choice is modelled, but drawing with it is not.
- The player and ball modules (`player.rs`, `ball.rs`) are not part of this model. Their `update` steps, the ball's constructor and spawn position are left out. The paddle's and the balls' rectangles and velocities are plain values.
- The screen width comes from the framework and is a parameter of the grid functions. The screen height is used only for the ball's start position, which is left out.
- Coordinates are `real`. The framework's 32-bit floating-point rounding is not modelled.
- Rectangle intersection and `signum` come from the framework, whose code is not part of this model. They are defined here as the semantics described above. With that definition edge contact counts as an overlap, but nothing is claimed about whether a second resolution of touching rectangles reports a hit.
- Hit points are an unbounded `int`. The game's 32-bit signed wrap-around is not modelled; it is far out of reach with one hit point lost per ball per frame.
- The grid's construction loop calls the block constructor with a position only, while the constructor also takes a block type. `Level.BuildGrid` therefore takes the block type as a parameter rather than choosing one.
- Collision.DeepPenetrationStaysInside: full separation after one correction is not claimed in general, because the code does not achieve it for deep penetration. The lemma states that case, and `Collision.PartialPenetrationEndsTouching` states the case where the rectangles do end up touching.
- The frame's balls and blocks are updated in place through `iter_mut` and `retain`. Here they are sequence values that the methods take and return; element-by-element updates and the in-place compaction are kept. Aliasing is not modelled.
- The paddle and the fixed rectangle given to the resolver are passed by shared reference and are values here, so they cannot change.
- Lesson 2 lays out the same grid and draws plain grey blocks, so the lesson 4 model covers it.
- Scoring, player lives, losing or spawning balls and game phases do not appear in this lesson's code and are not modelled.
