/**
 * The frontier of the generation loop (the list of cells waiting to be
 * resolved) and the two invariants that make the loop's result meaningful:
 * it holds distinct, in-bounds, not yet observed cells, and it holds every
 * unobserved in-bounds neighbour of every observed cell.
 */
module Frontier {
  import opened ListOps
  import opened Grid

  /** The frontier holds distinct in-bounds cells, none of them observed. */
  ghost predicate Pending(width: int, height: int, observed: seq<Pos>, frontier: seq<Pos>)
  {
    Distinct(frontier) && forall p :: p in frontier ==> InBounds(width, height, p) && p !in observed
  }

  /** Every unobserved in-bounds neighbour of an observed cell is in the frontier. */
  ghost predicate Covers(width: int, height: int, observed: seq<Pos>, frontier: seq<Pos>)
  {
    forall p, d ::
      (p in observed && InBounds(width, height, Step(p, d)) && Step(p, d) !in observed) ==> Step(p, d) in frontier
  }

  /**
   * A successful round: the frontier cell `tile` becomes observed, leaves
   * the frontier, and its unobserved in-bounds neighbours `ns` are added
   * unless already present. Both invariants survive the round.
   */
  lemma RoundKeepsFrontier(width: int, height: int, observed: seq<Pos>, frontier: seq<Pos>, tile: Pos, ns: seq<Pos>)
    requires Pending(width, height, observed, frontier) && Covers(width, height, observed, frontier)
    requires tile in frontier
    requires forall q :: q in ns ==> InBounds(width, height, q) && q !in observed + [tile]
    requires forall d ::
      (InBounds(width, height, Step(tile, d)) && Step(tile, d) !in observed + [tile]) ==> Step(tile, d) in ns
    ensures Pending(width, height, observed + [tile], AppendAbsent(Remove(frontier, tile), ns))
    ensures Covers(width, height, observed + [tile], AppendAbsent(Remove(frontier, tile), ns))
  {
    var observed', kept := observed + [tile], Remove(frontier, tile);
    var frontier' := AppendAbsent(kept, ns);
    RemoveDistinct(frontier, tile);
    forall p | p in frontier'
      ensures InBounds(width, height, p) && p !in observed'
    {
      if p !in ns {
        assert p in kept && p != tile;
      }
    }
    forall p, d | p in observed' && InBounds(width, height, Step(p, d)) && Step(p, d) !in observed'
      ensures Step(p, d) in frontier'
    {
      if p != tile {
        assert p in observed;
        assert Step(p, d) in kept;
      }
    }
  }

  /**
   * When the frontier is empty and some cell is observed, every cell of the
   * grid is observed (the grid is connected).
   */
  lemma EmptyFrontierCoversGrid(width: int, height: int, observed: seq<Pos>)
    requires Covers(width, height, observed, [])
    requires observed != [] && forall p :: p in observed ==> InBounds(width, height, p)
    ensures forall p :: InBounds(width, height, p) ==> p in observed
  {
    var S := Elements(observed);
    assert observed[0] in S;
    forall p, d | p in S && InBounds(width, height, Step(p, d))
      ensures Step(p, d) in S
    {
      assert p in observed;
    }
    ClosedCoversGrid(width, height, S);
  }
}
