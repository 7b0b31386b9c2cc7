/**
 The breakable blocks of the level: a rectangle of fixed size, a hit-point
 counter and a variant tag that decides the block's colour.
 */
module Blocks {
  import opened Geometry

  /** Width and height of every block. */
  const BLOCK_SIZE: Vec2 := Vec2(100.0, 40.0)

  /** Hit points a block starts with. */
  const STARTING_LIVES: int := 2

  datatype BlockType = Regular | SpawnBallOnDeath

  /** `lives` is a 32-bit signed counter in the game; here an unbounded `int`. */
  datatype Block = Block(rect: Rect, lives: int, blockType: BlockType)

  /** The colours a block can be drawn in. */
  datatype Colour = Red | Orange | Green

  /**
   A fresh block at `pos`: block-sized, with full hit points, of the given
   type, and therefore alive and drawn in its type's full-health colour.
   */
  function NewBlock(pos: Vec2, blockType: BlockType): (b: Block)
    ensures b.rect.Point() == pos && b.rect.Size() == BLOCK_SIZE
    ensures b.lives == STARTING_LIVES && b.blockType == blockType
    ensures b.lives > 0
    ensures BlockColour(b) == if blockType == Regular then Red else Green
  {
    Block(Rect(pos.x, pos.y, BLOCK_SIZE.x, BLOCK_SIZE.y), 2, blockType)
  }

  /**
   The colour a block is drawn in: a regular block is red at exactly two hit
   points and orange at any other count; a ball-spawning block is always green.
   */
  function BlockColour(b: Block): (c: Colour)
    ensures c == Red <==> b.blockType == Regular && b.lives == 2
    ensures c == Orange <==> b.blockType == Regular && b.lives != 2
    ensures c == Green <==> b.blockType == SpawnBallOnDeath
  {
    match b.blockType
    case Regular => (match b.lives
      case 2 => Red
      case _ => Orange)
    case SpawnBallOnDeath => Green
  }

  /** Hitting a fresh regular block once turns it from red to orange; it stays alive. */
  lemma FirstHitTurnsRegularOrange(pos: Vec2)
    ensures var b := NewBlock(pos, Regular);
      BlockColour(b) == Red &&
      BlockColour(b.(lives := b.lives - 1)) == Orange && b.lives - 1 > 0
  {
  }
}
