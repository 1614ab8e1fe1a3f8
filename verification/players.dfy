/** A player: a square smaller than a grid cell, spawned on the first free
    cell of a diagonal from its starting cell and moved one cell per key
    press, kept on screen, centred in its cell and blocked by obstacles
    (Player.cs). Positions are in pixels. */
module Players {
  import opened Common
  import opened Blocks
  import Targets
  import opened Genomes

  /** The player's genome, top-left corner, side and the grid's cell size. */
  datatype Player = Player(dna: DNA, x: int, y: int, size: int, cellSize: int)

  /** A grid cell by column (x) and row (y): Player.StartingPos. */
  datatype Cell = Cell(x: int, y: int)

  /** A pixel position. */
  datatype Point = Point(x: int, y: int)

  /** Which of W, S, A, D were pressed this frame. */
  datatype Keys = Keys(w: bool, s: bool, a: bool, d: bool)

  /** The constructed player, and the starting cell as the constructor left
      it (the constructor advances the caller's StartingPos object). */
  datatype Spawn = Spawn(player: Player, start: Cell)

  /** The player after one Update, and whether it touched the target. */
  datatype Step = Step(player: Player, won: bool)

  /** `(int)(cellSize * 0.75)`: the product is exact in a double, and the
      cast truncates toward zero. */
  function Size(cellSize: int): (s: int)
    ensures 0 <= cellSize ==> 4 * s <= 3 * cellSize < 4 * s + 4
    ensures 0 < cellSize ==> 0 <= s < cellSize
  {
    Quot(3 * cellSize, 4)
  }

  /** `(cellSize - size) / 2`: the margin that centres a player in a cell. */
  function Margin(cellSize: int, size: int): (m: int)
    ensures 0 <= size <= cellSize ==> 0 <= m && 2 * m <= cellSize - size
  {
    Quot(cellSize - size, 2)
  }

  /** The pixel coordinate of a player centred in cell index `cell`. */
  function CellPixel(cell: int, cellSize: int, size: int): int {
    cell * cellSize + Margin(cellSize, size)
  }

  // ---------------------------------------------------------------------
  // Constructor: diagonal probing from the starting cell

  /** The k-th probe of the constructor's loop, at cell
      (start.x + k, start.y + k), collides with some block. */
  predicate ProbeBlocked(blocks: seq<Block>, start: Cell, k: int, cellSize: int, size: int) {
    AnyCollides(blocks, CellPixel(start.x + k, cellSize, size),
                CellPixel(start.y + k, cellSize, size), size)
  }

  /** The right-most edge of any block; nothing at or beyond it collides. */
  function Reach(blocks: seq<Block>): (r: int)
    ensures forall i :: 0 <= i < |blocks| ==> blocks[i].x + blocks[i].size <= r
  {
    if |blocks| == 0 then 0
    else
      var rest := Reach(blocks[1..]);
      var edge := blocks[0].x + blocks[0].size;
      if edge < rest then rest else edge
  }

  /** The number of diagonal steps the constructor's loop takes from probe
      k on: the first probe from k that no block collides with. The loop
      ends because each step moves the player a whole cell to the right,
      and no block reaches past `Reach(blocks)`. */
  function ProbeFrom(blocks: seq<Block>, start: Cell, cellSize: int, size: int, k: nat): (n: nat)
    requires 0 < cellSize
    requires forall j :: 0 <= j < k ==> ProbeBlocked(blocks, start, j, cellSize, size)
    ensures k <= n
    ensures !ProbeBlocked(blocks, start, n, cellSize, size)
    ensures forall j :: 0 <= j < n ==> ProbeBlocked(blocks, start, j, cellSize, size)
    decreases Reach(blocks) - CellPixel(start.x + k, cellSize, size)
  {
    if ProbeBlocked(blocks, start, k, cellSize, size) then
      assert CellPixel(start.x + k + 1, cellSize, size)
          == CellPixel(start.x + k, cellSize, size) + cellSize;
      ProbeFrom(blocks, start, cellSize, size, k + 1)
    else
      k
  }

  /** The constructor `new Player(gridRows, gridCols, cellSize, blocks, dna,
      startingPos)`: the player is centred in the first cell along the
      diagonal from `start` that no block collides with. The grid's row and
      column counts are not used by the placement. */
  function NewPlayer(cellSize: int, blocks: seq<Block>, dna: DNA, start: Cell): (r: Spawn)
    requires 0 < cellSize
    ensures r.player.dna == dna && r.player.cellSize == cellSize
    ensures r.player.size == Size(cellSize)
    ensures 0 <= r.start.x - start.x == r.start.y - start.y
    ensures r.player.x == CellPixel(r.start.x, cellSize, r.player.size)
    ensures r.player.y == CellPixel(r.start.y, cellSize, r.player.size)
    ensures !AnyCollides(blocks, r.player.x, r.player.y, r.player.size)
    ensures forall k :: 0 <= k < r.start.x - start.x ==>
      ProbeBlocked(blocks, start, k, cellSize, r.player.size)
  {
    var size := Size(cellSize);
    var n := ProbeFrom(blocks, start, cellSize, size, 0);
    var cell := Cell(start.x + n, start.y + n);
    Spawn(Player(dna, CellPixel(cell.x, cellSize, size), CellPixel(cell.y, cellSize, size),
                 size, cellSize),
          cell)
  }

  // ---------------------------------------------------------------------
  // Update: move, clamp, align, revert on collision

  function Press(b: bool): int {
    if b then 1 else 0
  }

  /** The key handling: W moves up, S down, A left and D right, one whole
      cell each. */
  function Moved(p: Player, keys: Keys): (r: Point)
    ensures r.x == p.x + p.cellSize * (Press(keys.d) - Press(keys.a))
    ensures r.y == p.y + p.cellSize * (Press(keys.s) - Press(keys.w))
  {
    var y1 := if keys.w then p.y - p.cellSize else p.y;
    var y2 := if keys.s then y1 + p.cellSize else y1;
    var x1 := if keys.a then p.x - p.cellSize else p.x;
    var x2 := if keys.d then x1 + p.cellSize else x1;
    Point(x2, y2)
  }

  /** `Math.Clamp(x, 0, screenWidth - size)`, then the same for y: the
      player's square is kept within the screen; throws when the screen is
      smaller than the player. */
  function Clamped(p: Player, keys: Keys, screenWidth: int, screenHeight: int): (r: Result<Point>)
    ensures r.Ok? <==> p.size <= screenWidth && p.size <= screenHeight
    ensures r.Ok? ==> 0 <= r.value.x <= screenWidth - p.size
    ensures r.Ok? ==> 0 <= r.value.y <= screenHeight - p.size
    ensures r.Ok? && 0 <= Moved(p, keys).x <= screenWidth - p.size ==> r.value.x == Moved(p, keys).x
    ensures r.Ok? && 0 <= Moved(p, keys).y <= screenHeight - p.size ==> r.value.y == Moved(p, keys).y
    ensures r.Ok? && Moved(p, keys).x < 0 ==> r.value.x == 0
    ensures r.Ok? && Moved(p, keys).y < 0 ==> r.value.y == 0
    ensures r.Ok? && screenWidth - p.size < Moved(p, keys).x ==> r.value.x == screenWidth - p.size
    ensures r.Ok? && screenHeight - p.size < Moved(p, keys).y ==> r.value.y == screenHeight - p.size
  {
    var m := Moved(p, keys);
    match Clamp(m.x, 0, screenWidth - p.size)
    case Err(e) => Err(e)
    case Ok(x) =>
      match Clamp(m.y, 0, screenHeight - p.size)
      case Err(e) => Err(e)
      case Ok(y) => Ok(Point(x, y))
  }

  /** `(v / cellSize) * cellSize + (cellSize - size) / 2`: snaps a coordinate
      to the centring margin of the cell that contains it. */
  function Align(v: int, cellSize: int, size: int): (r: int)
    requires cellSize != 0
    ensures 0 < cellSize && 0 <= size <= cellSize ==> r % cellSize == Margin(cellSize, size)
    ensures 0 < cellSize && 0 <= v ==>
      r - Margin(cellSize, size) <= v < r - Margin(cellSize, size) + cellSize
  {
    var q := Quot(v, cellSize);
    var r := q * cellSize + Margin(cellSize, size);
    if 0 < cellSize && 0 <= size <= cellSize then
      CellDivMod(q, cellSize, Margin(cellSize, size));
      r
    else
      r
  }

  /** A coordinate already at the margin of a non-negative cell is left
      where it is by alignment. */
  lemma AlignOfCentred(q: int, cellSize: int, size: int)
    requires 0 < cellSize && 0 <= size <= cellSize
    requires 0 <= q
    ensures Align(CellPixel(q, cellSize, size), cellSize, size) == CellPixel(q, cellSize, size)
  {
    var m := Margin(cellSize, size);
    var a := q * cellSize + m;
    MulStrictlyMonotone(-1, q, cellSize);
    CellDivMod(q, cellSize, m);
    assert Quot(a, cellSize) == q;
  }

  /** Aligning an aligned coordinate changes nothing. */
  lemma AlignIdempotent(v: int, cellSize: int, size: int)
    requires 0 < cellSize && 0 <= size <= cellSize
    requires 0 <= v
    ensures Align(Align(v, cellSize, size), cellSize, size) == Align(v, cellSize, size)
  {
    var q := Quot(v, cellSize);
    assert q == v / cellSize;
    assert Align(v, cellSize, size) == CellPixel(q, cellSize, size);
    AlignOfCentred(q, cellSize, size);
  }

  /** Where the player lands before the obstacle test: the clamped position
      aligned to its cell. Throws like the source: the clamp first, then the
      division by a zero cell size. */
  function Landing(p: Player, keys: Keys, screenWidth: int, screenHeight: int): (r: Result<Point>)
    ensures r.Ok? <==> p.size <= screenWidth && p.size <= screenHeight && p.cellSize != 0
    ensures r.Ok? && 0 < p.cellSize && 0 <= p.size <= p.cellSize ==>
      && r.value.x % p.cellSize == Margin(p.cellSize, p.size)
      && r.value.y % p.cellSize == Margin(p.cellSize, p.size)
    ensures r.Ok? && 0 < p.cellSize ==>
      var c := Clamped(p, keys, screenWidth, screenHeight).value;
      var m := Margin(p.cellSize, p.size);
      && r.value.x - m <= c.x < r.value.x - m + p.cellSize
      && r.value.y - m <= c.y < r.value.y - m + p.cellSize
  {
    match Clamped(p, keys, screenWidth, screenHeight)
    case Err(e) => Err(e)
    case Ok(c) =>
      if p.cellSize == 0 then Err(DivideByZero)
      else Ok(Point(Align(c.x, p.cellSize, p.size), Align(c.y, p.cellSize, p.size)))
  }

  /** Player.Update for one frame with the keys pressed in it: the player
      moves to its landing cell unless a block collides there, in which
      case it stays exactly where it was; `won` reports the target test on
      the player's centre. Only the position changes. */
  function Update(p: Player, blocks: seq<Block>, target: Targets.Target,
                  screenWidth: int, screenHeight: int, keys: Keys): (r: Result<Step>)
    ensures r.Err? <==> Landing(p, keys, screenWidth, screenHeight).Err?
    ensures r.Ok? ==>
      r.value.player == p.(x := r.value.player.x, y := r.value.player.y)
    ensures r.Ok? ==>
      var land := Landing(p, keys, screenWidth, screenHeight).value;
      var q := r.value.player;
      && (AnyCollides(blocks, land.x, land.y, p.size) ==> q.x == p.x && q.y == p.y)
      && (!AnyCollides(blocks, land.x, land.y, p.size) ==> q.x == land.x && q.y == land.y)
    ensures r.Ok? && !AnyCollides(blocks, p.x, p.y, p.size) ==>
      !AnyCollides(blocks, r.value.player.x, r.value.player.y, p.size)
    ensures r.Ok? ==>
      var q := r.value.player;
      r.value.won <==> Targets.IsCollidingWithPlayer(target, q.x + Quot(p.size, 2), q.y + Quot(p.size, 2), p.size)
  {
    match Landing(p, keys, screenWidth, screenHeight)
    case Err(e) => Err(e)
    case Ok(land) =>
      var q := if AnyCollides(blocks, land.x, land.y, p.size) then p
               else p.(x := land.x, y := land.y);
      var half := Quot(p.size, 2);
      Ok(Step(q, Targets.IsCollidingWithPlayer(target, q.x + half, q.y + half, p.size)))
  }

  /** The player's square lies on the screen, centred in a grid cell. */
  ghost predicate OnScreen(p: Player, screenWidth: int, screenHeight: int) {
    && 0 < p.cellSize
    && 0 <= p.x && p.x + p.size <= screenWidth
    && 0 <= p.y && p.y + p.size <= screenHeight
    && p.x % p.cellSize == Margin(p.cellSize, p.size)
    && p.y % p.cellSize == Margin(p.cellSize, p.size)
  }

  /** On one axis, aligning a clamped coordinate keeps the square on a
      screen whose side is a whole number of cells. */
  lemma AlignedStaysOnScreen(v: int, cellSize: int, size: int, screen: int)
    requires 0 < size <= cellSize
    requires 0 <= screen && screen % cellSize == 0
    requires 0 <= v <= screen - size
    ensures 0 <= Align(v, cellSize, size)
    ensures Align(v, cellSize, size) + size <= screen
  {
    var m := Margin(cellSize, size);
    var q := Quot(v, cellSize);
    var w := screen / cellSize;
    assert Align(v, cellSize, size) == q * cellSize + m;
    assert screen == w * cellSize;
    CellWithinScreen(q, w, cellSize, v, size, m);
  }

  /** The arithmetic of AlignedStaysOnScreen: a non-empty square at margin m
      of the cell q containing v stays inside w whole cells. */
  lemma CellWithinScreen(q: int, w: int, c: int, v: int, size: int, m: int)
    requires 0 < size && 0 <= m && m + size <= c
    requires q * c <= v < q * c + c
    requires 0 <= v <= w * c - size
    ensures 0 <= q * c + m
    ensures q * c + m + size <= w * c
  {
    MulStrictlyMonotone(-1, q, c);
    MulStrictlyMonotone(w, q, c);
    MulStrictlyMonotone(q, w, c);
  }

  /** Pressing only A in the left-most column leaves the player where it
      is: the clamp stops it at the wall and alignment returns it to the
      margin of its own cell. */
  lemma LeftWallPressStays(p: Player, blocks: seq<Block>, target: Targets.Target,
                           screenWidth: int, screenHeight: int)
    requires OnScreen(p, screenWidth, screenHeight)
    requires 0 < p.size <= p.cellSize
    requires p.x < p.cellSize
    ensures Update(p, blocks, target, screenWidth, screenHeight, Keys(false, false, true, false)).Ok?
    ensures Update(p, blocks, target, screenWidth, screenHeight, Keys(false, false, true, false)).value.player == p
  {
    LeftWallLanding(p, screenWidth, screenHeight);
  }

  /** The landing point of a left press in the left-most column is the
      player's own position. */
  lemma LeftWallLanding(p: Player, screenWidth: int, screenHeight: int)
    requires OnScreen(p, screenWidth, screenHeight)
    requires 0 < p.size <= p.cellSize
    requires p.x < p.cellSize
    ensures Landing(p, Keys(false, false, true, false), screenWidth, screenHeight) == Ok(Point(p.x, p.y))
  {
    var keys := Keys(false, false, true, false);
    var c := p.cellSize;
    var m := Margin(c, p.size);
    assert Clamped(p, keys, screenWidth, screenHeight) == Ok(Point(0, p.y));
    var q := CentredCell(p.x, p.y, c, m);
    assert Align(0, c, p.size) == m;
    AlignOfCentred(q, c, p.size);
  }

  /** The arithmetic of LeftWallLanding: a coordinate in the first cell at
      residue m is m itself, and any non-negative coordinate at residue m
      is `q * c + m` for its cell q. */
  lemma CentredCell(x: int, y: int, c: int, m: int) returns (q: nat)
    requires 0 <= x < c && 0 <= y
    requires x % c == m && y % c == m
    ensures x == m && y == q * c + m
  {
    q := y / c;
  }

  /** Update keeps a player that starts on screen and centred in a cell on
      screen and centred, provided the screen is a whole number of cells. */
  lemma UpdateKeepsOnScreen(p: Player, blocks: seq<Block>, target: Targets.Target,
                            screenWidth: int, screenHeight: int, keys: Keys)
    requires OnScreen(p, screenWidth, screenHeight)
    requires 0 < p.size <= p.cellSize
    requires screenWidth % p.cellSize == 0 && screenHeight % p.cellSize == 0
    ensures Update(p, blocks, target, screenWidth, screenHeight, keys).Ok?
    ensures OnScreen(Update(p, blocks, target, screenWidth, screenHeight, keys).value.player,
                     screenWidth, screenHeight)
  {
    var c := Clamped(p, keys, screenWidth, screenHeight).value;
    AlignedStaysOnScreen(c.x, p.cellSize, p.size, screenWidth);
    AlignedStaysOnScreen(c.y, p.cellSize, p.size, screenHeight);
  }
}
