# MazeRunner genetic algorithm — Dafny model

This project models the logic of MazeRunner_GenericAlgorythm, a small C#
game. A population of players learns to walk a grid to a target around
random square blocks, by a genetic algorithm. The model covers:

- **Blocks** (`Block.cs`, module `Blocks`): the corner-occupancy test, the
  strict box-overlap collision test, and the random placement on a free grid
  corner.
- **Target** (`Target.cs`, module `Targets`): the radius, the integer
  squared-distance collision test, and the random placement on a cell whose
  corner no block occupies.
- **Player** (`Player.cs`, module `Players`): the size, the constructor's
  diagonal probing for a collision-free start cell, and one frame of
  `Update`: move one cell per key, clamp to the screen, align to the cell
  centre, and revert on a block collision.
- **Population** (`PlayersPopulation.cs`, module `Population`): building a
  population, `SelectTheFittest`, the crossover of `CrossMutationDNA`,
  whole-generation replacement, and `HasAnyPlayerMovementLeft`.

Module `Common` holds the .NET semantics the code relies on. These are:

- integer `/`, which truncates toward zero (`Quot`);
- `Math.Clamp`, which throws when min > max;
- the values `Random.Next` can return;
- "retry until accepted" loops (`FirstAccepted`).

Module `Genomes` holds the genome record. Every value is immutable and
every operation is a pure function. Integers are unbounded.

Exceptions become `Result.Err`, in the order the source would raise them:

- `Math.Clamp` with a screen smaller than the player;
- division by a zero cell size;
- indexing an empty mating pool.

Randomness is an explicit input:

- A placement loop receives a finite sequence of `(row, col)` draws. It
  yields the first accepted draw, or `None` when every supplied draw is
  rejected.
- Each bred child receives a `BreedDraw`. It holds the two parent index
  draws, the outcome of `Mutate`, the evolution-rate coin, and the outcome
  of `ProlongDNA`.

Behaviour of the code worth knowing:

- `HasAnyPlayerMovementLeft` holds exactly when *no* player has
  `endOfMovement` set. It returns false as soon as one player has finished,
  which is not what its name suggests.
- The crossover uses parent one's first half twice. Parent two is drawn,
  and its half is sliced, but never used.
- Selection admits every player whose fitness is at most twice the best
  (lowest) fitness. The factor 2 is a literal in the code.
- `CreateNewGeneration` leaves the previous mating pool in place. The pool
  keeps the old generation's players until the next `SelectTheFittest`.
- The player's placement probe is unbounded. It always terminates when the
  cell size is positive (proved: `Players.ProbeFrom`).

## Model

| member | source | states |
|---|---|---|
| `Common.Quot` | Player.cs:77-78 | C# integer division: it agrees with Euclidean division on non-negative operands; the remainder is smaller than the divisor and has the dividend's sign |
| `Common.Clamp` | Player.cs:73-74 | Math.Clamp fails exactly when min > max; otherwise it returns the point of [min, max] nearest the value |
| `Common.FirstAccepted` | Block.cs:36-45 | a retry loop stops at the first accepted draw, every earlier draw having been rejected; with no accepted draw, every draw was rejected |
| `Blocks.CollidingIffSharePixel` | Block.cs:66-69 | for non-empty squares, the strict overlap test holds exactly when the drawn block and player squares share a pixel |
| `Blocks.TouchingDoesNotCollide` | Block.cs:66-69 | a player whose edge only touches a block edge, on either axis and either side, does not collide |
| `Blocks.InsideCollides` | Block.cs:66-69 | a non-empty player square inside the block's square collides |
| `Blocks.CollisionSymmetric` | Block.cs:66-69 | swapping the roles of block and player square does not change the collision test |
| `Blocks.NewBlock` | Block.cs:18-46 | an accepted block has side cellSize and covers `draws[k]` for the first draw k whose corner no existing block occupies, so it lies within the grid; None only when every draw hit an occupied corner |
| `Blocks.NewBlockKeepsCornersDistinct` | Block.cs:44 | adding a placed block to blocks with pairwise distinct corners keeps them pairwise distinct |
| `Targets.Radius` | Target.cs:14 | cellSize/2 − 1: for a non-negative cell, 2·(radius+1) is cellSize rounded down to even, so the disc fits inside the cell |
| `Targets.CentreCollides` | Target.cs:49-56 | a player exactly on the target centre always collides |
| `Targets.CollisionSymmetric` | Target.cs:49-56 | negating the x or the y offset from the centre does not change the collision test |
| `Targets.CollisionMonotone` | Target.cs:49-56 | a player at an offset no longer (in squared length) than a colliding offset also collides |
| `Targets.CollisionOnAxis` | Target.cs:49-56 | on the horizontal line through the centre, a player collides exactly when \|dx\| ≤ \|radius + playerSize/2\| |
| `Targets.NewTarget` | Target.cs:11-40 | an accepted target has radius Radius(cellSize) and is centred in `draws[k]` for the first draw k whose cell corner no block occupies; None only when every draw hit an occupied corner |
| `Targets.AcceptedCentreIsFree` | Target.cs:21-39 | when every block is one grid cell, no block's square contains the accepted target's centre |
| `Players.Size` | Player.cs:31 | (int)(cellSize·0.75) is 3·cellSize/4 rounded down for a non-negative cell size, and smaller than a positive cell |
| `Players.Margin` | Player.cs:42-43 | the centring margin (cellSize − size)/2 is non-negative and at most half the free space around the player |
| `Players.ProbeFrom` | Player.cs:39-57 | the diagonal probing loop ends for a positive cell size, at the first probe no block collides with; every earlier probe collides |
| `Players.NewPlayer` | Player.cs:26-58 | the player has its genome and size; it is centred in the cell start + (k, k) for some k ≥ 0, the first diagonal cell no block collides with; it returns the advanced starting cell |
| `Players.Moved` | Player.cs:67-70 | W moves −y, S +y, A −x, D +x, by exactly one cell each; opposite keys cancel |
| `Players.Clamped` | Player.cs:73-74 | fails exactly when the screen is smaller than the player; otherwise an in-bounds coordinate is unchanged, one below 0 becomes 0, and one beyond screen − size becomes screen − size, on each axis |
| `Players.Align` | Player.cs:77-78 | for a positive cell and 0 ≤ size ≤ cellSize, the result ≡ (cellSize − size)/2 mod cellSize; for a non-negative coordinate it lies in the same cell |
| `Players.AlignOfCentred` | Player.cs:77-78 | a coordinate already centred in a non-negative cell is not moved by alignment |
| `Players.AlignIdempotent` | Player.cs:77-78 | for a positive cell, 0 ≤ size ≤ cellSize and a non-negative coordinate (every coordinate the clamp yields), aligning twice equals aligning once |
| `Players.Landing` | Player.cs:73-78 | fails exactly on a too-small screen or a zero cell size; otherwise each coordinate is centred modulo the cell size, in the cell that contains the clamped coordinate |
| `Players.Update` | Player.cs:61-98 | only x and y change; if a block collides at the landing position the player stays exactly where it was, otherwise it moves there; a collision-free player stays collision-free; `won` is the target test at the player's centre |
| `Players.LeftWallPressStays` | Player.cs:61-90 | pressing only A in the left-most column leaves an on-screen, centred player exactly where it was: the clamp stops it at the wall and alignment keeps it in its cell |
| `Players.AlignedStaysOnScreen` | Player.cs:73-78 | on a screen that is a whole number of cells, aligning a clamped coordinate keeps a non-empty player's square on screen |
| `Players.UpdateKeepsOnScreen` | Player.cs:61-90 | on a screen that is a whole number of cells, Update keeps a player that starts on screen and centred in a cell on screen and centred |
| `Population.Spawned` | PlayersPopulation.cs:73 | a population member is built around its genome, has not finished moving, stands in the first cell of the diagonal from the shared start cell that no block collides with, and no block collides with it |
| `Population.InitializePopulation` | PlayersPopulation.cs:66-75 | exactly maxPopulation new, unfinished players of size Size(cellSize), all on the same spot, each placed from the start cell and collision-free; the i-th carries the i-th drawn genome; the mating pool is untouched |
| `Population.BestFitness` | PlayersPopulation.cs:95-104 | the sentinel exactly for an empty population; otherwise the minimum fitness, attained by some player |
| `Population.Eligible` | PlayersPopulation.cs:106-114 | a player is in the pool exactly when it is in the population and its fitness is at most twice the best; an admitted player occurs in the pool as often as in the population |
| `Population.EligibleIsSubsequence` | PlayersPopulation.cs:106-114 | the pool keeps population order: it is a subsequence of the population |
| `Population.Select` | PlayersPopulation.cs:93-114 | best is the minimum fitness; the pool is the players with fitness ≤ 2·best, in population order and with their multiplicities; for a non-empty population the pool is non-empty exactly when best ≥ 0 |
| `Population.SelectTheFittest` | PlayersPopulation.cs:91-115 | population unchanged; the pool is a subsequence of it; a player is in the pool, as often as in the population, exactly when its fitness is at most twice every player's fitness |
| `Population.SelectTheFittestIdempotent` | PlayersPopulation.cs:93-114 | selecting twice gives the same pool as once, whatever the pool held before |
| `Population.Crossover` | PlayersPopulation.cs:127-142 | the child has length 2·(\|uno\|/2), within one of parent one's length, and both halves equal parent one's first half |
| `Population.CrossoverIgnoresParentTwo` | PlayersPopulation.cs:128-142 | parent two's genes never reach the child |
| `Population.CrossMutationDNA` | PlayersPopulation.cs:121-153 | fails exactly on an empty pool; otherwise both index draws lie in the pool, fitness is 0, and the genes are the crossover of the parent at the first draw, mutated and optionally prolonged |
| `Population.CrossMutationIgnoresParentTwo` | PlayersPopulation.cs:124-142 | changing the second parent draw does not change the bred DNA |
| `Population.Breed` | PlayersPopulation.cs:163-166 | one child per draw, each the spawned result of its own successful CrossMutationDNA; fails exactly when there is a child to breed and the pool is empty |
| `Population.CreateNewGeneration` | PlayersPopulation.cs:159-167 | the whole population is replaced by exactly maxPopulation unfinished children of the pool, of size Size(cellSize), all on the same spot, each placed from the start cell and collision-free; the i-th is bred from the i-th draw; the pool is left as it was |
| `Population.HasAnyPlayerMovementLeft` | PlayersPopulation.cs:173-180 | true exactly when no player has endOfMovement set |
| `Population.FreshPopulationHasMovementLeft` | PlayersPopulation.cs:173-180 | a freshly built or bred population reports movement left |

## Left out

- Rendering and colour: all `Draw` methods and `Player.GetRandomColor`.
- Program.cs and ProgramSingle.cs: window setup, key polling, and the game
  loops.
- Keyboard polling (`Raylib.IsKeyPressed`) is replaced by a `Keys` input.
  The "You won!" console message (Player.cs:93-97) is replaced by the
  returned `won` flag.
- `Random`: every draw is an input, as described above.
- Placement loops: the model sees only a finite prefix of the random draws.
  The source keeps drawing forever, which hangs on a full grid. `NewBlock`
  and `NewTarget` return None when the supplied draws run out.
- `Blocks.NewBlock`: a negative row or column count makes `Random.Next`
  throw. No draw is valid for such a grid, so the model returns None rather
  than an error.
- `Targets.NewTarget`: a negative row or column count makes `Random.Next`
  throw. No draw is valid for such a grid, so the model returns None rather
  than an error.
- `Mutate`, `ProlongDNA` and `new DNA(string, int)`: their bodies are not
  part of this model. Their outcomes are inputs: the functions in
  `BreedDraw` and the genomes given to `InitializePopulation`.
- SetFitnessForEachPlayer (PlayersPopulation.cs:80-86): it only calls
  `CalculateFitness`, whose body is not part of this model. Fitness is a
  field of the genome.
- The `PlayersPopulation` constructor: it allocates an array of empty
  slots, which `InitializePopulation` fills. The model starts from a
  `Generation` value.
- DNA.cs does not match the genome API the population uses. A genome is
  modelled as a `seq<char>` with an `int` fitness. A new genome's fitness is
  0, as DNA.cs initialises it. A new player's `endOfMovement` is false.
  Player.cs declares no `endOfMovement` field, so false (C#'s default) is
  assumed.
- `Population.Spawned`: the population passes a `Vector2` starting
  position, and Player.cs has no constructor taking one. The model uses an
  integer start cell, copied by value, so every player probes from the same
  cell.
- `Players.NewPlayer`, `Players.ProbeFrom`: require a positive cell size.
  With a zero cell size the probing loop can run forever. The model also
  excludes negative cell sizes, for which the loop does end.
- `Population.Spawned`: requires a positive cell size, because it
  constructs a player.
- `Population.InitializePopulation`: requires a positive cell size, because
  it constructs players.
- `Population.Breed`: requires a positive cell size, because it constructs
  players.
- `Population.CreateNewGeneration`: requires a positive cell size, because
  it constructs players.
- `Population.InitializePopulation`, `Population.CreateNewGeneration`: take
  exactly maxPopulation genomes or breed draws, one per array slot.
- C# 32-bit overflow is not modelled; integers are unbounded. The
  `float bestFitness` of `SelectTheFittest` is modelled as an exact integer
  (or the float.MaxValue sentinel). A float rounds ints above 2^24, which
  this model ignores.
- `Players.Update`: the on-screen guarantee (`UpdateKeepsOnScreen`) is
  stated only for a screen that is a whole number of cells. On other
  screens alignment can push the square past the right or bottom edge. The
  model computes that faithfully but proves no bound for it.
