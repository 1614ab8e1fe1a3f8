/** Static obstacles: square blocks of one grid cell, placed at random on
    distinct grid corners (Block.cs). Positions and sizes are in pixels. */
module Blocks {
  import opened Common

  /** A block's top-left corner (x, y) and side length. */
  datatype Block = Block(x: int, y: int, size: int)

  /** One pair of draws of the placement loops: `Random.Next(0, gridRows)`
      then `Random.Next(0, gridCols)`. */
  datatype CellDraw = CellDraw(row: int, col: int)

  predicate ValidCell(d: CellDraw, gridRows: int, gridCols: int) {
    IsNextDraw(d.row, gridRows) && IsNextDraw(d.col, gridCols)
  }

  /** The block exactly covering grid cell `d`. */
  function CellBlock(d: CellDraw, cellSize: int): Block {
    Block(d.col * cellSize, d.row * cellSize, cellSize)
  }

  /** Block.IsOccupying: the block's corner is exactly (tx, ty). */
  predicate IsOccupying(b: Block, tx: int, ty: int) {
    b.x == tx && b.y == ty
  }

  /** Block.IsCollidingWithPlayer: the player's square [px, px + ps) x
      [py, py + ps) overlaps the block's square on both axes, strictly. */
  predicate IsCollidingWithPlayer(b: Block, px: int, py: int, ps: int) {
    px < b.x + b.size && px + ps > b.x && py < b.y + b.size && py + ps > b.y
  }

  /** `List<Block>.Exists(block => block.IsOccupying(tx, ty))`. */
  predicate AnyOccupying(blocks: seq<Block>, tx: int, ty: int) {
    exists i :: 0 <= i < |blocks| && IsOccupying(blocks[i], tx, ty)
  }

  /** Some block of the list collides with the player square; the source's
      `foreach ... if (IsCollidingWithPlayer) ... break`. */
  predicate AnyCollides(blocks: seq<Block>, px: int, py: int, ps: int) {
    exists i :: 0 <= i < |blocks| && IsCollidingWithPlayer(blocks[i], px, py, ps)
  }

  /** Pixel (i, j) is painted by a square drawn at (x, y) with side s. */
  ghost predicate InSquare(i: int, j: int, x: int, y: int, s: int) {
    x <= i < x + s && y <= j < y + s
  }

  /** Reference meaning of a collision: the two drawn squares share a pixel. */
  ghost predicate SharePixel(b: Block, px: int, py: int, ps: int) {
    exists i, j :: InSquare(i, j, b.x, b.y, b.size) && InSquare(i, j, px, py, ps)
  }

  /** For non-empty squares, the collision test holds exactly when block
      and player share a pixel. */
  lemma CollidingIffSharePixel(b: Block, px: int, py: int, ps: int)
    requires 0 < b.size && 0 < ps
    ensures IsCollidingWithPlayer(b, px, py, ps) <==> SharePixel(b, px, py, ps)
  {
    if IsCollidingWithPlayer(b, px, py, ps) {
      var i := if px < b.x then b.x else px;
      var j := if py < b.y then b.y else py;
      assert InSquare(i, j, b.x, b.y, b.size) && InSquare(i, j, px, py, ps);
    }
  }

  /** A player whose edge only touches the block's edge does not collide. */
  lemma TouchingDoesNotCollide(b: Block, px: int, py: int, ps: int)
    ensures !IsCollidingWithPlayer(b, b.x + b.size, py, ps)
    ensures !IsCollidingWithPlayer(b, b.x - ps, py, ps)
    ensures !IsCollidingWithPlayer(b, px, b.y + b.size, ps)
    ensures !IsCollidingWithPlayer(b, px, b.y - ps, ps)
  {
  }

  /** A non-empty player square lying inside the block collides with it. */
  lemma InsideCollides(b: Block, px: int, py: int, ps: int)
    requires 0 < ps
    requires b.x <= px && px + ps <= b.x + b.size
    requires b.y <= py && py + ps <= b.y + b.size
    ensures IsCollidingWithPlayer(b, px, py, ps)
  {
  }

  /** Collision is symmetric: swapping the roles of block and player
      square gives the same answer. */
  lemma CollisionSymmetric(b: Block, px: int, py: int, ps: int)
    ensures IsCollidingWithPlayer(b, px, py, ps)
        <==> IsCollidingWithPlayer(Block(px, py, ps), b.x, b.y, b.size)
  {
  }

  /** Block.PlaceInUniquePosition, its retry loop fed a finite prefix of the
      random draws: a draw is accepted when no existing block sits on its
      corner. */
  predicate Accepts(existing: seq<Block>, cellSize: int, d: CellDraw) {
    !AnyOccupying(existing, d.col * cellSize, d.row * cellSize)
  }

  /** The constructor `new Block(gridRows, gridCols, cellSize, existing)`:
      the block takes the side `cellSize` and the first accepted cell; None
      when every supplied draw hits an occupied corner (the source would
      keep drawing). */
  function NewBlock(gridRows: int, gridCols: int, cellSize: int,
                    existing: seq<Block>, draws: seq<CellDraw>): (r: Option<Block>)
    requires forall k :: 0 <= k < |draws| ==> ValidCell(draws[k], gridRows, gridCols)
    ensures r.Some? ==> r.value.size == cellSize
    ensures r.Some? ==> !AnyOccupying(existing, r.value.x, r.value.y)
    ensures r.Some? ==> exists d :: ValidCell(d, gridRows, gridCols) && r.value == CellBlock(d, cellSize)
    ensures r.Some? ==>
      (exists k :: && 0 <= k < |draws|
                   && r.value == CellBlock(draws[k], cellSize)
                   && forall j :: 0 <= j < k ==> !Accepts(existing, cellSize, draws[j]))
    ensures r.None? ==> forall k :: 0 <= k < |draws| ==>
      AnyOccupying(existing, draws[k].col * cellSize, draws[k].row * cellSize)
  {
    match FirstAccepted(draws, d => Accepts(existing, cellSize, d))
    case None => None
    case Some(k) => Some(CellBlock(draws[k], cellSize))
  }

  /** No two blocks share a top-left corner. */
  ghost predicate DistinctCorners(blocks: seq<Block>) {
    forall i, j :: 0 <= i < j < |blocks| ==>
      !IsOccupying(blocks[i], blocks[j].x, blocks[j].y)
  }

  /** Adding a freshly placed block keeps the corners pairwise distinct, so
      a list built block by block never stacks two blocks on one cell. */
  lemma NewBlockKeepsCornersDistinct(gridRows: int, gridCols: int, cellSize: int,
                                     existing: seq<Block>, draws: seq<CellDraw>)
    requires forall k :: 0 <= k < |draws| ==> ValidCell(draws[k], gridRows, gridCols)
    requires DistinctCorners(existing)
    requires NewBlock(gridRows, gridCols, cellSize, existing, draws).Some?
    ensures DistinctCorners(existing + [NewBlock(gridRows, gridCols, cellSize, existing, draws).value])
  {
  }
}
