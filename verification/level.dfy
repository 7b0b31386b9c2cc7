/**
 The level's block grid: 6 columns by 6 rows of blocks, 5 units apart,
 centred horizontally on the screen (with the trailing padding counted)
 and starting 50 units from the top.
 The screen width comes from the framework and is a parameter here.
 */
module Level {
  import opened Geometry
  import opened Blocks

  const GRID_WIDTH: int := 6
  const GRID_HEIGHT: int := 6
  const PADDING: real := 5.0

  /** A block plus the padding that separates it from its neighbours. */
  const TOTAL_BLOCK_SIZE: Vec2 := BLOCK_SIZE.Plus(Vec2(PADDING, PADDING))

  /** Number of blocks in a full grid. */
  const BLOCK_COUNT: nat := 36

  /** Top-left corner of the grid's first block. */
  function BlockStartPos(screenWidth: real): Vec2
  {
    Vec2((screenWidth - TOTAL_BLOCK_SIZE.x * GRID_WIDTH as real) * 0.5, 50.0)
  }

  /** Column of the `i`-th block, filled left to right. */
  function Column(i: nat): nat { i % GRID_WIDTH }

  /** Row of the `i`-th block, filled top to bottom. */
  function Row(i: nat): nat { i / GRID_WIDTH }

  /** The index whose block goes in column `c` of row `r`. */
  function CellIndex(c: nat, r: nat): nat { r * GRID_WIDTH + c }

  /** Where the `i`-th block's top-left corner goes. */
  function CellPos(screenWidth: real, i: nat): Vec2
  {
    BlockStartPos(screenWidth).Plus(
      Vec2(Column(i) as real * TOTAL_BLOCK_SIZE.x, Row(i) as real * TOTAL_BLOCK_SIZE.y))
  }

  /**
   Build the level: push one block per index, in index order. The source
   calls the block constructor without a block type, so the type is a
   parameter here.
   */
  method BuildGrid(screenWidth: real, blockType: BlockType) returns (blocks: seq<Block>)
    ensures |blocks| == GRID_WIDTH * GRID_HEIGHT == BLOCK_COUNT
    ensures forall i :: 0 <= i < |blocks| ==> blocks[i] == NewBlock(CellPos(screenWidth, i), blockType)
  {
    var blockStartPos := BlockStartPos(screenWidth);
    blocks := [];
    for i := 0 to GRID_WIDTH * GRID_HEIGHT
      invariant |blocks| == i
      invariant forall k :: 0 <= k < i ==> blocks[k] == NewBlock(CellPos(screenWidth, k), blockType)
    {
      var blockX := (i % GRID_WIDTH) as real * TOTAL_BLOCK_SIZE.x;
      var blockY := (i / GRID_WIDTH) as real * TOTAL_BLOCK_SIZE.y;
      assert blockStartPos.Plus(Vec2(blockX, blockY)) == CellPos(screenWidth, i);
      blocks := blocks + [NewBlock(blockStartPos.Plus(Vec2(blockX, blockY)), blockType)];
    }
  }

  /**
   Indices map one-to-one onto the cells of the 6x6 grid: every index falls
   in a cell inside the grid, distinct indices fall in distinct cells, and
   every cell is reached by some index.
   */
  lemma CellsAreABijection()
    ensures forall i :: 0 <= i < BLOCK_COUNT ==> Column(i) < GRID_WIDTH && Row(i) < GRID_HEIGHT
    ensures forall i, j :: 0 <= i < j < BLOCK_COUNT ==> (Column(i), Row(i)) != (Column(j), Row(j))
    ensures forall c: nat, r: nat :: c < GRID_WIDTH && r < GRID_HEIGHT ==>
      CellIndex(c, r) < BLOCK_COUNT && Column(CellIndex(c, r)) == c && Row(CellIndex(c, r)) == r
  {
    forall i | 0 <= i < BLOCK_COUNT
      ensures Column(i) < GRID_WIDTH && Row(i) < GRID_HEIGHT
      ensures i == Row(i) * GRID_WIDTH + Column(i)
    {
    }
    forall c: nat, r: nat | c < GRID_WIDTH && r < GRID_HEIGHT
      ensures CellIndex(c, r) < BLOCK_COUNT && Column(CellIndex(c, r)) == c && Row(CellIndex(c, r)) == r
    {
      var i := CellIndex(c, r);
      assert i / GRID_WIDTH == r && i % GRID_WIDTH == c;
    }
  }

  /**
   The padding keeps the blocks of a grid apart: no two distinct blocks even
   touch, so their intersection is absent.
   */
  lemma GridBlocksAreDisjoint(screenWidth: real, blockType: BlockType, i: nat, j: nat)
    requires i < BLOCK_COUNT && j < BLOCK_COUNT && i != j
    ensures Intersect(NewBlock(CellPos(screenWidth, i), blockType).rect,
                      NewBlock(CellPos(screenWidth, j), blockType).rect).None?
  {
    CellsAreABijection();
    var p, q := CellPos(screenWidth, i), CellPos(screenWidth, j);
    if Column(i) != Column(j) {
      var (lo, hi) := if Column(i) < Column(j) then (p, q) else (q, p);
      assert hi.x - lo.x >= TOTAL_BLOCK_SIZE.x;
    } else {
      assert Row(i) != Row(j);
      var (lo, hi) := if Row(i) < Row(j) then (p, q) else (q, p);
      assert hi.y - lo.y >= TOTAL_BLOCK_SIZE.y;
    }
  }

  /**
   The grid, padding included, is centred on the screen: the space left of
   the first column equals the space right of the last column's padding.
   */
  lemma GridIsCentred(screenWidth: real)
    ensures var left := CellPos(screenWidth, 0).x;
      var right := CellPos(screenWidth, GRID_WIDTH - 1).x + TOTAL_BLOCK_SIZE.x;
      left == screenWidth - right
    ensures CellPos(screenWidth, 0).y == 50.0
  {
  }
}
