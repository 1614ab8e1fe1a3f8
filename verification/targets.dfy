/** The goal: a disc centred in a grid cell that holds no block (Target.cs).
    Positions are in pixels. */
module Targets {
  import opened Common
  import opened Blocks

  /** The disc's centre and radius. */
  datatype Target = Target(x: int, y: int, radius: int)

  /** `cellSize / 2 - 1`: the disc's diameter stays below the cell's side. */
  function Radius(cellSize: int): (r: int)
    ensures 0 <= cellSize ==> 2 * (r + 1) <= cellSize <= 2 * (r + 1) + 1
    ensures 0 < cellSize ==> 2 * r + 1 < cellSize
  {
    Quot(cellSize, 2) - 1
  }

  /** The target centred in grid cell `d`, as the constructor computes it. */
  function CellTarget(d: CellDraw, cellSize: int): Target {
    Target(d.col * cellSize + Quot(cellSize, 2),
           d.row * cellSize + Quot(cellSize, 2),
           Radius(cellSize))
  }

  function Square(n: int): int {
    n * n
  }

  function SquaredLength(dx: int, dy: int): int {
    Square(dx) + Square(dy)
  }

  /** Target.IsCollidingWithPlayer: the squared distance from the centre to
      the player point is at most the square of the combined radius
      `radius + playerSize / 2` (C# truncating division). */
  predicate IsCollidingWithPlayer(t: Target, px: int, py: int, ps: int) {
    SquaredLength(t.x - px, t.y - py) <= Square(t.radius + Quot(ps, 2))
  }

  /** A square is the square of the absolute value, hence never negative
      and blind to sign. */
  lemma SquareOfAbs(n: int)
    ensures Square(n) == Abs(n) * Abs(n)
    ensures Square(-n) == Square(n)
    ensures 0 <= Square(n)
  {
  }

  /** A player exactly on the centre always collides. */
  lemma CentreCollides(t: Target, ps: int)
    ensures IsCollidingWithPlayer(t, t.x, t.y, ps)
  {
    SquareOfAbs(0);
    SquareOfAbs(t.radius + Quot(ps, 2));
  }

  /** The test only sees the offset up to sign on each axis. */
  lemma CollisionSymmetric(t: Target, dx: int, dy: int, ps: int)
    ensures IsCollidingWithPlayer(t, t.x + dx, t.y + dy, ps)
        <==> IsCollidingWithPlayer(t, t.x - dx, t.y + dy, ps)
    ensures IsCollidingWithPlayer(t, t.x + dx, t.y + dy, ps)
        <==> IsCollidingWithPlayer(t, t.x + dx, t.y - dy, ps)
  {
  }

  /** Moving no further from the centre keeps a colliding player colliding. */
  lemma CollisionMonotone(t: Target, dx: int, dy: int, ex: int, ey: int, ps: int)
    requires SquaredLength(ex, ey) <= SquaredLength(dx, dy)
    requires IsCollidingWithPlayer(t, t.x - dx, t.y - dy, ps)
    ensures IsCollidingWithPlayer(t, t.x - ex, t.y - ey, ps)
  {
    assert t.x - (t.x - dx) == dx && t.y - (t.y - dy) == dy;
    assert t.x - (t.x - ex) == ex && t.y - (t.y - ey) == ey;
  }

  lemma SquareMonotone(a: nat, b: nat)
    ensures a <= b <==> a * a <= b * b
  {
  }

  /** On a line through the centre the disc reaches exactly |combined|
      pixels either way. */
  lemma CollisionOnAxis(t: Target, dx: int, ps: int)
    ensures IsCollidingWithPlayer(t, t.x + dx, t.y, ps)
        <==> Abs(dx) <= Abs(t.radius + Quot(ps, 2))
  {
    var c := t.radius + Quot(ps, 2);
    assert t.x - (t.x + dx) == -dx && t.y - t.y == 0;
    SquareOfAbs(0);
    SquareOfAbs(-dx);
    SquareOfAbs(c);
    SquareMonotone(Abs(-dx), Abs(c));
  }

  /** A draw of the constructor's loop is accepted when no block occupies
      the cell's top-left corner, `(x - cellSize / 2, y - cellSize / 2)`. */
  predicate Accepts(blocks: seq<Block>, cellSize: int, d: CellDraw) {
    var t := CellTarget(d, cellSize);
    !AnyOccupying(blocks, t.x - Quot(cellSize, 2), t.y - Quot(cellSize, 2))
  }

  /** The constructor `new Target(gridRows, gridCols, cellSize, blocks)`,
      its retry loop fed a finite prefix of the random draws; None when
      every supplied draw lands on a blocked cell. */
  function NewTarget(gridRows: int, gridCols: int, cellSize: int,
                     blocks: seq<Block>, draws: seq<CellDraw>): (r: Option<Target>)
    requires forall k :: 0 <= k < |draws| ==> ValidCell(draws[k], gridRows, gridCols)
    ensures r.Some? ==> r.value.radius == Radius(cellSize)
    ensures r.Some? ==>
      (exists d :: && ValidCell(d, gridRows, gridCols)
                   && r.value == CellTarget(d, cellSize)
                   && !AnyOccupying(blocks, d.col * cellSize, d.row * cellSize))
    ensures r.Some? ==>
      (exists k :: && 0 <= k < |draws|
                   && r.value == CellTarget(draws[k], cellSize)
                   && forall j :: 0 <= j < k ==> !Accepts(blocks, cellSize, draws[j]))
    ensures r.None? ==> forall k :: 0 <= k < |draws| ==>
      AnyOccupying(blocks, draws[k].col * cellSize, draws[k].row * cellSize)
  {
    match FirstAccepted(draws, d => Accepts(blocks, cellSize, d))
    case None => None
    case Some(k) => Some(CellTarget(draws[k], cellSize))
  }

  /** Every block is exactly one grid cell of side `cellSize`. */
  ghost predicate OnGrid(blocks: seq<Block>, cellSize: int) {
    forall i :: 0 <= i < |blocks| ==> exists d :: blocks[i] == CellBlock(d, cellSize)
  }

  /** With grid-aligned blocks, an accepted target's centre is painted by
      no block: the goal never sits inside an obstacle. */
  lemma AcceptedCentreIsFree(gridRows: int, gridCols: int, cellSize: int,
                             blocks: seq<Block>, draws: seq<CellDraw>)
    requires 0 < cellSize
    requires OnGrid(blocks, cellSize)
    requires forall k :: 0 <= k < |draws| ==> ValidCell(draws[k], gridRows, gridCols)
    requires NewTarget(gridRows, gridCols, cellSize, blocks, draws).Some?
    ensures forall i :: 0 <= i < |blocks| ==>
      var t := NewTarget(gridRows, gridCols, cellSize, blocks, draws).value;
      !InSquare(t.x, t.y, blocks[i].x, blocks[i].y, blocks[i].size)
  {
    var t := NewTarget(gridRows, gridCols, cellSize, blocks, draws).value;
    var d :| ValidCell(d, gridRows, gridCols) && t == CellTarget(d, cellSize)
      && !AnyOccupying(blocks, d.col * cellSize, d.row * cellSize);
    var h := Quot(cellSize, 2);
    forall i | 0 <= i < |blocks|
      ensures !InSquare(t.x, t.y, blocks[i].x, blocks[i].y, blocks[i].size)
    {
      var e :| blocks[i] == CellBlock(e, cellSize);
      if InSquare(t.x, t.y, blocks[i].x, blocks[i].y, blocks[i].size) {
        SameCell(d.col, e.col, cellSize, h);
        SameCell(d.row, e.row, cellSize, h);
        assert false;
      }
    }
  }
}
