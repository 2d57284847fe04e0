/** The two directions of travel along the line and how a trip's terminals
    determine one. */
module Directions {
  import opened Terminals

  /** North runs from Rawai towards the airport, South the other way. */
  datatype RouteDirection = North | South

  /** A trip whose terminals the pair mapping can classify: one end is Airport or Rawai. */
  predicate Routable(start: Terminal, dest: Terminal) {
    start in {Airport, Rawai} || dest in {Airport, Rawai}
  }

  /** `From<(Terminal, Terminal)>`: the first arm wins where both apply; a trip
      between Kata and Patong only hits `unreachable!`. */
  function FromPair(start: Terminal, dest: Terminal): (r: RouteDirection)
    requires Routable(start, dest)
    ensures (start == Airport || dest == Rawai) ==> r == South
    ensures !(start == Airport || dest == Rawai) ==> r == North
  {
    match (start, dest)
    case (Airport, _) => South
    case (_, Rawai) => South
    case (Rawai, _) => North
    case (_, Airport) => North
  }

  /** The second arm fires only when the first does not. */
  lemma FromPairNorth(start: Terminal, dest: Terminal)
    requires Routable(start, dest)
    ensures FromPair(start, dest) == North <==> start != Airport && dest != Rawai
  {
  }

  /** Arm order decides the ties: both round trips count as southbound. */
  lemma FromPairTies()
    ensures FromPair(Airport, Airport) == South
    ensures FromPair(Rawai, Rawai) == South
    ensures FromPair(Rawai, Airport) == North
    ensures FromPair(Airport, Rawai) == South
  {
  }

  /** `From<Terminal>`: the direction whose stop list ends at the terminal;
      Kata and Patong only hit `unreachable!`. */
  function FromTerminal(t: Terminal): (r: RouteDirection)
    requires t in {Airport, Rawai}
    ensures r == North <==> t == Airport
  {
    if t == Airport then North else South
  }

  /** For a trip that ends at Airport or Rawai from somewhere else, the pair
      mapping agrees with the mapping of the destination alone. */
  lemma PairAgreesWithDestination(start: Terminal, dest: Terminal)
    requires start != dest
    requires dest in {Airport, Rawai}
    ensures Routable(start, dest)
    ensures FromPair(start, dest) == FromTerminal(dest)
  {
  }

  /** The agreement fails for the one non-trip `(Airport, Airport)`. */
  lemma PairDisagreesOnAirportLoop()
    ensures FromPair(Airport, Airport) != FromTerminal(Airport)
  {
  }
}
