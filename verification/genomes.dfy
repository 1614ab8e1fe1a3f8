/** The genome each player carries: its movement symbols and the fitness
    score the population ranks it by (lower is better). */
module Genomes {

  datatype DNA = DNA(genes: seq<char>, fitness: int)
}
