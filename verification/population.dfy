/** The genetic algorithm around the players (PlayersPopulation.cs): build a
    population, select a mating pool by fitness, breed a whole new
    generation from it, and ask whether any player has finished moving.
    Random draws and the bodies of the genome operators that are not part
    of this model (mutation, prolongation) arrive as inputs. */
module Population {
  import opened Common
  import opened Blocks
  import opened Genomes
  import opened Players

  /** A member of the population: its player, and whether it has used up
      its moves (`endOfMovement`). */
  datatype Agent = Agent(player: Player, endOfMovement: bool)

  /** The constructor parameters the modelled operations read. */
  datatype Config = Config(maxPopulation: nat, cellSize: int, blocks: seq<Block>, start: Cell)

  /** The population's mutable state: the players and the mating pool. */
  datatype Generation = Generation(population: seq<Agent>, matingPool: seq<Agent>)

  function Fitness(a: Agent): int {
    a.player.dna.fitness
  }

  // ---------------------------------------------------------------------
  // Building players

  /** `new Player(..., dna, startingPos)` as the population calls it: every
      player probes from the same starting cell (a value, so the probing of
      one player does not move the next one's start) and has not finished
      moving. */
  function Spawned(cfg: Config, dna: DNA): (a: Agent)
    requires 0 < cfg.cellSize
    ensures a.player.dna == dna && !a.endOfMovement
    ensures a.player.size == Size(cfg.cellSize) && a.player.cellSize == cfg.cellSize
    ensures StartedFrom(cfg, a.player)
    ensures !AnyCollides(cfg.blocks, a.player.x, a.player.y, a.player.size)
  {
    var s := NewPlayer(cfg.cellSize, cfg.blocks, dna, cfg.start);
    assert Diagonal(cfg, s.player, s.start.x - cfg.start.x);
    Agent(s.player, false)
  }

  /** The player is centred in cell (start.x + k, start.y + k) and every
      earlier cell of that diagonal collides with a block. */
  ghost predicate Diagonal(cfg: Config, p: Player, k: nat) {
    && p.x == CellPixel(cfg.start.x + k, cfg.cellSize, p.size)
    && p.y == CellPixel(cfg.start.y + k, cfg.cellSize, p.size)
    && forall j :: 0 <= j < k ==> ProbeBlocked(cfg.blocks, cfg.start, j, cfg.cellSize, p.size)
  }

  /** The player sits on the first cell of the diagonal from the
      population's starting cell that no block collides with. */
  ghost predicate StartedFrom(cfg: Config, p: Player) {
    exists k: nat :: Diagonal(cfg, p, k)
  }

  /** Every slot holds a player that has not finished moving, that was
      placed from the shared starting cell and that no block collides with;
      all players stand on the same spot. */
  ghost predicate FreshPlayers(cfg: Config, pop: seq<Agent>) {
    && |pop| == cfg.maxPopulation
    && (forall i :: 0 <= i < |pop| ==>
         && !pop[i].endOfMovement
         && pop[i].player.size == Size(cfg.cellSize)
         && pop[i].player.cellSize == cfg.cellSize
         && StartedFrom(cfg, pop[i].player)
         && !AnyCollides(cfg.blocks, pop[i].player.x, pop[i].player.y, pop[i].player.size))
    && (forall i, j :: 0 <= i < |pop| && 0 <= j < |pop| ==>
         pop[i].player.x == pop[j].player.x && pop[i].player.y == pop[j].player.y)
  }

  /** InitializePopulation: every one of the `maxPopulation` slots gets a
      new player carrying the corresponding freshly drawn genome
      (`new DNA(genePool, startGenesCount)`, an input here). The mating pool
      is not touched. */
  function InitializePopulation(cfg: Config, g: Generation, genomes: seq<DNA>): (r: Generation)
    requires 0 < cfg.cellSize
    requires |genomes| == cfg.maxPopulation
    ensures FreshPlayers(cfg, r.population)
    ensures forall i :: 0 <= i < |r.population| ==> r.population[i].player.dna == genomes[i]
    ensures r.matingPool == g.matingPool
  {
    var pop := seq(cfg.maxPopulation, i requires 0 <= i < cfg.maxPopulation => Spawned(cfg, genomes[i]));
    Generation(pop, g.matingPool)
  }

  // ---------------------------------------------------------------------
  // Selection

  /** The `float bestFitness` of SelectTheFittest: it starts at
      float.MaxValue, above every int fitness. */
  datatype Best = MaxValue | Value(v: int)

  /** The first loop of SelectTheFittest: scanning left to right, keep any
      strictly smaller fitness. */
  function BestFitness(pop: seq<Agent>): (b: Best)
    ensures b.MaxValue? <==> |pop| == 0
    ensures b.Value? ==> exists i :: 0 <= i < |pop| && Fitness(pop[i]) == b.v
    ensures b.Value? ==> forall i :: 0 <= i < |pop| ==> b.v <= Fitness(pop[i])
  {
    if |pop| == 0 then MaxValue
    else
      var b := BestFitness(pop[..|pop| - 1]);
      var f := Fitness(pop[|pop| - 1]);
      if b.MaxValue? || f < b.v then Value(f) else b
  }

  /** `fitness <= maxRange` with `maxRange = bestFitness * 2`; twice
      float.MaxValue is +infinity, which admits everything. */
  predicate Admits(b: Best, fitness: int) {
    b.MaxValue? || fitness <= 2 * b.v
  }

  /** The second loop of SelectTheFittest: the admitted players, in
      population order. */
  function Eligible(pop: seq<Agent>, b: Best): (pool: seq<Agent>)
    ensures forall a :: a in pool <==> a in pop && Admits(b, Fitness(a))
    ensures forall a :: multiset(pool)[a] == if Admits(b, Fitness(a)) then multiset(pop)[a] else 0
    ensures |pool| <= |pop|
  {
    if |pop| == 0 then []
    else
      assert pop == [pop[0]] + pop[1..];
      (if Admits(b, Fitness(pop[0])) then [pop[0]] else []) + Eligible(pop[1..], b)
  }

  lemma {:induction false} EligibleIsSubsequence(pop: seq<Agent>, b: Best)
    ensures IsSubsequence(Eligible(pop, b), pop)
  {
    if |pop| > 0 {
      EligibleIsSubsequence(pop[1..], b);
      var rest := Eligible(pop[1..], b);
      if Admits(b, Fitness(pop[0])) {
        assert Eligible(pop, b)[1..] == rest;
      } else {
        assert Eligible(pop, b) == rest;
      }
    }
  }

  /** Every element of `pool` occurs in it as often as in `pop`. */
  ghost predicate SameCopies(pool: seq<Agent>, pop: seq<Agent>) {
    forall a :: a in pool ==> multiset(pool)[a] == multiset(pop)[a]
  }

  /** The minimum fitness and the mating pool SelectTheFittest computes. */
  datatype Selection = Selection(best: Best, pool: seq<Agent>)

  /** SelectTheFittest's computation: `best` is the minimum fitness (the
      sentinel exactly when the population is empty), and the pool holds,
      in population order, exactly the players whose fitness is at most
      twice the minimum. A negative minimum admits nobody, since then
      2 * best < best. */
  function Select(pop: seq<Agent>): (s: Selection)
    ensures s.best.MaxValue? <==> |pop| == 0
    ensures s.best.Value? ==> exists i :: 0 <= i < |pop| && Fitness(pop[i]) == s.best.v
    ensures s.best.Value? ==> forall i :: 0 <= i < |pop| ==> s.best.v <= Fitness(pop[i])
    ensures forall a :: a in s.pool <==>
      a in pop && s.best.Value? && Fitness(a) <= 2 * s.best.v
    ensures SameCopies(s.pool, pop)
    ensures IsSubsequence(s.pool, pop) && |s.pool| <= |pop|
    ensures |pop| > 0 ==> (|s.pool| > 0 <==> 0 <= s.best.v)
  {
    var best := BestFitness(pop);
    var pool := Eligible(pop, best);
    EligibleIsSubsequence(pop, best);
    if |pop| > 0 then
      var i :| 0 <= i < |pop| && Fitness(pop[i]) == best.v;
      assert 0 <= best.v ==> pop[i] in pool;
      assert |pool| > 0 ==> pool[0] in pool;
      Selection(best, pool)
    else
      Selection(best, pool)
  }

  /** SelectTheFittest: the pool is cleared and rebuilt from the current
      population alone; the population is not touched. */
  function SelectTheFittest(g: Generation): (r: Generation)
    ensures r.population == g.population
    ensures forall a :: a in r.matingPool ==> a in g.population
    ensures IsSubsequence(r.matingPool, g.population)
    ensures SameCopies(r.matingPool, g.population)
    ensures forall i :: 0 <= i < |g.population| ==>
      (g.population[i] in r.matingPool <==> WithinTwiceOfAll(g.population, Fitness(g.population[i])))
  {
    var s := Select(g.population);
    PoolIsWithinTwiceEvery(g.population, s);
    Generation(g.population, s.pool)
  }

  /** `f` is at most twice the fitness of every player. */
  ghost predicate WithinTwiceOfAll(pop: seq<Agent>, f: int) {
    forall j :: 0 <= j < |pop| ==> f <= 2 * Fitness(pop[j])
  }

  /** Being within twice the minimum is being within twice every fitness. */
  lemma PoolIsWithinTwiceEvery(pop: seq<Agent>, s: Selection)
    requires s == Select(pop)
    ensures forall i :: 0 <= i < |pop| ==>
      (pop[i] in s.pool <==> WithinTwiceOfAll(pop, Fitness(pop[i])))
  {
    forall i | 0 <= i < |pop|
      ensures pop[i] in s.pool <==> WithinTwiceOfAll(pop, Fitness(pop[i]))
    {
      var k :| 0 <= k < |pop| && Fitness(pop[k]) == s.best.v;
      if WithinTwiceOfAll(pop, Fitness(pop[i])) {
        assert Fitness(pop[i]) <= 2 * Fitness(pop[k]);
      }
    }
  }

  /** Since the pool is cleared first, selecting again on the same
      population yields the same pool, whatever the pool held before. */
  lemma SelectTheFittestIdempotent(g: Generation, h: Generation)
    requires h.population == g.population
    ensures SelectTheFittest(SelectTheFittest(g)) == SelectTheFittest(g)
    ensures SelectTheFittest(h) == SelectTheFittest(g)
  {
  }

  // ---------------------------------------------------------------------
  // Breeding

  /** The genetic part of CrossMutationDNA as written: both parents' first
      halves are sliced, but the child is parent one's first half twice;
      parent two's half is computed and never used. */
  function Crossover(uno: seq<char>, dos: seq<char>): (child: seq<char>)
    ensures |child| == 2 * (|uno| / 2)
    ensures |uno| - 1 <= |child| <= |uno|
    ensures forall i :: 0 <= i < |uno| / 2 ==>
      child[i] == uno[i] && child[|uno| / 2 + i] == uno[i]
  {
    var first := uno[..|uno| / 2];
    var second := dos[..|dos| / 2];
    first + first
  }

  /** Parent two has no influence on the child. */
  lemma CrossoverIgnoresParentTwo(uno: seq<char>, dos: seq<char>, other: seq<char>)
    ensures Crossover(uno, dos) == Crossover(uno, other)
  {
  }

  /** The random inputs of one CrossMutationDNA call: the two parent index
      draws, the outcome of `Mutate` on the crossed genes, the evolution
      rate coin (`NextDouble() < evoRate`) and the outcome of `ProlongDNA`. */
  datatype BreedDraw = BreedDraw(
    uno: int,
    dos: int,
    mutate: seq<char> -> seq<char>,
    grow: bool,
    prolong: seq<char> -> seq<char>)

  predicate ValidBreedDraw(d: BreedDraw, poolSize: int) {
    IsNextDraw(d.uno, poolSize) && IsNextDraw(d.dos, poolSize)
  }

  /** The genes of a new child from the crossed genes: mutated, then
      prolonged when the coin says so. */
  function Evolved(d: BreedDraw, crossed: seq<char>): seq<char> {
    var mutated := d.mutate(crossed);
    if d.grow then d.prolong(mutated) else mutated
  }

  /** CrossMutationDNA: on an empty pool the index draws are 0 and the pool
      indexer throws; otherwise the child is bred from the parent at the
      first draw, with fitness 0 as a fresh DNA has. */
  function CrossMutationDNA(pool: seq<Agent>, d: BreedDraw): (r: Result<DNA>)
    requires ValidBreedDraw(d, |pool|)
    ensures r.Err? <==> |pool| == 0
    ensures r.Ok? ==> 0 <= d.uno < |pool| && 0 <= d.dos < |pool|
    ensures r.Ok? ==> r.value.fitness == 0
    ensures r.Ok? ==>
      r.value.genes == Evolved(d, Crossover(pool[d.uno].player.dna.genes, pool[d.dos].player.dna.genes))
  {
    if |pool| == 0 then Err(IndexOutOfRange)
    else
      var uno := pool[d.uno].player.dna.genes;
      var dos := pool[d.dos].player.dna.genes;
      Ok(DNA(Evolved(d, Crossover(uno, dos)), 0))
  }

  /** Which parent two is drawn does not change the child. */
  lemma CrossMutationIgnoresParentTwo(pool: seq<Agent>, d: BreedDraw, dos: int)
    requires ValidBreedDraw(d, |pool|) && IsNextDraw(dos, |pool|)
    ensures CrossMutationDNA(pool, d) == CrossMutationDNA(pool, d.(dos := dos))
  {
  }

  /** The children of CreateNewGeneration's loop, one per draw; the first
      throwing CrossMutationDNA call ends the loop. */
  function Breed(cfg: Config, pool: seq<Agent>, draws: seq<BreedDraw>): (r: Result<seq<Agent>>)
    requires 0 < cfg.cellSize
    requires forall k :: 0 <= k < |draws| ==> ValidBreedDraw(draws[k], |pool|)
    ensures r.Err? <==> |pool| == 0 && |draws| > 0
    ensures r.Ok? ==> |r.value| == |draws|
    ensures r.Ok? ==> forall i :: 0 <= i < |draws| ==>
      && CrossMutationDNA(pool, draws[i]).Ok?
      && r.value[i] == Spawned(cfg, CrossMutationDNA(pool, draws[i]).value)
  {
    if |draws| == 0 then Ok([])
    else
      match CrossMutationDNA(pool, draws[0])
      case Err(e) => Err(e)
      case Ok(dna) =>
        match Breed(cfg, pool, draws[1..])
        case Err(e) => Err(e)
        case Ok(rest) => Ok([Spawned(cfg, dna)] + rest)
  }

  /** CreateNewGeneration: the population is replaced wholesale by
      `maxPopulation` newly spawned children of the mating pool; it throws
      when there is a child to breed and the pool is empty. The mating pool
      itself is left as it was, still holding the previous generation's
      players until the next selection. */
  function CreateNewGeneration(cfg: Config, g: Generation, draws: seq<BreedDraw>): (r: Result<Generation>)
    requires 0 < cfg.cellSize
    requires |draws| == cfg.maxPopulation
    requires forall k :: 0 <= k < |draws| ==> ValidBreedDraw(draws[k], |g.matingPool|)
    ensures r.Err? <==> |g.matingPool| == 0 && 0 < cfg.maxPopulation
    ensures r.Ok? ==> FreshPlayers(cfg, r.value.population)
    ensures r.Ok? ==> r.value.matingPool == g.matingPool
    ensures r.Ok? ==> forall i :: 0 <= i < |r.value.population| ==>
      CrossMutationDNA(g.matingPool, draws[i]) == Ok(r.value.population[i].player.dna)
  {
    match Breed(cfg, g.matingPool, draws)
    case Err(e) => Err(e)
    case Ok(children) => Ok(Generation(children, g.matingPool))
  }

  // ---------------------------------------------------------------------
  // Termination check

  /** HasAnyPlayerMovementLeft as written: it returns false as soon as one
      player has `endOfMovement` set, so it holds exactly when no player
      has finished. */
  function HasAnyPlayerMovementLeft(pop: seq<Agent>): (r: bool)
    ensures r <==> forall i :: 0 <= i < |pop| ==> !pop[i].endOfMovement
  {
    if |pop| == 0 then true
    else if pop[0].endOfMovement then false
    else HasAnyPlayerMovementLeft(pop[1..])
  }

  /** A freshly built or bred population has every player's moves left. */
  lemma FreshPopulationHasMovementLeft(cfg: Config, pop: seq<Agent>)
    requires FreshPlayers(cfg, pop)
    ensures HasAnyPlayerMovementLeft(pop)
  {
  }
}
