/**
 * The propagation engine of EvenSimplerTiledModel: a width x height grid of
 * tile states, a frontier of cells waiting to be resolved, the resolve step
 * that fixes one cell's kind against its observed neighbours, and the
 * generation loop that drives it from one random seed cell.
 *
 * Random.Range is modelled by a nondeterministic choice of an index in range.
 */
module Engine {
  import opened ListOps
  import opened Grid
  import opened Tiles
  import opened Frontier

  /** A cell: its own coordinates, its kind, and whether it has been observed. */
  datatype TileState = TileState(x: int, y: int, tileType: Kind, observed: bool)

  class TiledModel {
    const width: int
    const height: int
    const rules: seq<Rule>
    var tileStates: array2<TileState>
    /** The frontier (m_checkingTileStates), holding the coordinates of its cells. */
    var checking: seq<Pos>
    /** The observed cells, in the order in which they were observed. */
    ghost var history: seq<Pos>

    constructor (width: int, height: int, rules: seq<Rule>)
      ensures this.width == width && this.height == height && this.rules == rules
      ensures checking == [] && history == []
    {
      this.width := width;
      this.height := height;
      this.rules := rules;
      tileStates := new TileState[0, 0];
      checking := [];
      history := [];
    }

    /** The grid has the configured size, every cell knows its own
      * coordinates, and the observed cells are exactly those in history. */
    ghost predicate Valid()
      reads this, tileStates
    {
      && tileStates.Length0 == width && tileStates.Length1 == height
      && (forall x, y :: 0 <= x < width && 0 <= y < height ==>
            tileStates[x, y].x == x && tileStates[x, y].y == y)
      && (forall x, y :: 0 <= x < width && 0 <= y < height ==>
            (tileStates[x, y].observed <==> (x, y) in history))
      && (forall p :: p in history ==> InBounds(width, height, p))
      && Distinct(history)
    }

    /** The kind of every observed cell. */
    ghost function Placed(): map<Pos, Kind>
      reads this, tileStates
      requires Valid()
    {
      map p | p in history :: tileStates[p.0, p.1].tileType
    }

    /** Every observed cell satisfies the rules of the neighbours observed before it. */
    ghost predicate RuleCompliant()
      reads this, tileStates
      requires Valid()
    {
      Compliant(rules, history, Placed())
    }

    /** The kind of the neighbour at direction d, when it is in the grid and observed. */
    function NeighbourKind(p: Pos, d: Dir): (r: Option<Kind>)
      reads this, tileStates
      requires Valid()
      ensures r.Some? <==> Step(p, d) in history
      ensures r.Some? ==> r.value == Placed()[Step(p, d)]
    {
      var q := Step(p, d);
      if InBounds(width, height, q) && tileStates[q.0, q.1].observed
      then Some(tileStates[q.0, q.1].tileType)
      else None
    }

    function Surroundings(p: Pos): Around
      reads this, tileStates
      requires Valid()
    {
      Around(NeighbourKind(p, Up), NeighbourKind(p, Down), NeighbourKind(p, Left), NeighbourKind(p, Right))
    }

    /** The observed neighbours seen through the grid are the placed kinds. */
    lemma SurroundingsArePlaced(p: Pos)
      requires Valid()
      ensures Surroundings(p) == AroundIn(Placed(), p)
    {
      forall d
        ensures NeighbourKind(p, d) == AroundIn(Placed(), p).At(d)
      {
        var q := Step(p, d);
        if q in history {
          assert InBounds(width, height, q);
        }
      }
      assert Surroundings(p).At(Up) == AroundIn(Placed(), p).At(Up);
      assert Surroundings(p).At(Down) == AroundIn(Placed(), p).At(Down);
      assert Surroundings(p).At(Left) == AroundIn(Placed(), p).At(Left);
      assert Surroundings(p).At(Right) == AroundIn(Placed(), p).At(Right);
    }

    /** p is a cell of the grid that has not been observed. */
    predicate Unobserved(p: Pos)
      reads this, tileStates
      requires Valid()
    {
      InBounds(width, height, p) && !tileStates[p.0, p.1].observed
    }

    /**
     * GetUnobservedTileStates: the in-bounds neighbours of (x, y) that are not
     * observed, in the order Up, Down, Left, Right.
     */
    function UnobservedNeighbours(x: int, y: int): (r: seq<Pos>)
      reads this, tileStates
      requires Valid() && InBounds(width, height, (x, y))
      ensures |r| <= 4 && Distinct(r)
      ensures forall d :: Step((x, y), d) in r <==> Unobserved(Step((x, y), d))
      ensures forall q :: q in r ==> Unobserved(q)
      ensures forall q :: q in r ==> q in [Step((x, y), Up), Step((x, y), Down), Step((x, y), Left), Step((x, y), Right)]
      ensures RankSorted((x, y), r)
    {
      var p := (x, y);
      var r := KeepNeighbours(p, Unobserved(Step(p, Up)), Unobserved(Step(p, Down)),
                                 Unobserved(Step(p, Left)), Unobserved(Step(p, Right)));
      assert forall d :: Step(p, d) in r <==> Unobserved(Step(p, d)) by {
        forall d
          ensures Step(p, d) in r <==> Unobserved(Step(p, d))
        {
          assert d.Up? || d.Down? || d.Left? || d.Right?;
        }
      }
      r
    }

    /**
     * One side of GetValidTileType (the four blocks differ only in the
     * direction): when the neighbour at direction d is in the grid and
     * observed, and some kind is still valid, keep only the kinds that the
     * neighbour's rules in the inverse direction admit.
     */
    method ConstrainSide(x: int, y: int, valid: seq<Kind>, d: Dir) returns (r: seq<Kind>)
      requires Valid() && InBounds(width, height, (x, y)) && Distinct(valid)
      ensures Distinct(r)
      ensures forall b :: b in r <==> b in valid && b in SideAllowed(rules, NeighbourKind((x, y), d), d)
    {
      var q := Step((x, y), d);
      if InBounds(width, height, q) && |valid| != 0 {
        if tileStates[q.0, q.1].observed {
          r := Constrain(rules, valid, tileStates[q.0, q.1].tileType, Inverse(d));
          return;
        }
      }
      r := valid;
    }

    /**
     * The four side blocks of GetValidTileType: the kinds left after every side
     * has had its say are exactly the candidate kinds of the cell.
     */
    method ValidTileTypes(x: int, y: int) returns (valid: seq<Kind>)
      requires Valid() && InBounds(width, height, (x, y))
      ensures Distinct(valid)
      ensures forall b :: b in valid <==> b in Candidates(rules, Surroundings((x, y)))
    {
      valid := [Red, Green, Blue];
      assert forall b :: b in valid by {
        forall b: Kind
          ensures b in valid
        {
          assert b.Red? || b.Green? || b.Blue?;
        }
      }
      valid := ConstrainSide(x, y, valid, Up);
      valid := ConstrainSide(x, y, valid, Down);
      valid := ConstrainSide(x, y, valid, Left);
      valid := ConstrainSide(x, y, valid, Right);
    }

    /**
     * The assignment that ends GetValidTileType: the cell takes kind k and
     * becomes observed, and joins history unless it was already observed.
     */
    method Observe(x: int, y: int, k: Kind)
      requires Valid() && InBounds(width, height, (x, y))
      modifies this`history, tileStates
      ensures Valid()
      ensures tileStates[x, y] == old(tileStates[x, y]).(observed := true, tileType := k)
      ensures history == (if old(tileStates[x, y].observed) then old(history) else old(history) + [(x, y)])
      ensures !old(tileStates[x, y].observed) ==> Placed() == old(Placed())[(x, y) := k]
      ensures forall i, j :: 0 <= i < width && 0 <= j < height && (i, j) != (x, y) ==>
        tileStates[i, j] == old(tileStates[i, j])
    {
      ghost var wasObserved := tileStates[x, y].observed;
      tileStates[x, y] := tileStates[x, y].(observed := true, tileType := k);
      if !wasObserved {
        history := history + [(x, y)];
      }
    }

    /**
     * GetValidTileType: if some kind is left for the cell, observe it with
     * one of them (a random pick); otherwise leave the whole grid as it is.
     * Every other cell is left alone.
     */
    method Resolve(x: int, y: int)
      requires Valid() && InBounds(width, height, (x, y))
      modifies this`history, tileStates
      ensures Valid()
      ensures var c := Candidates(rules, old(Surroundings((x, y))));
        if c == {} then
          unchanged(tileStates) && history == old(history)
        else
          && tileStates[x, y] == old(tileStates[x, y]).(observed := true, tileType := tileStates[x, y].tileType)
          && tileStates[x, y].tileType in c
          && history == (if old(tileStates[x, y].observed) then old(history) else old(history) + [(x, y)])
          && (!old(tileStates[x, y].observed) ==> Placed() == old(Placed())[(x, y) := tileStates[x, y].tileType])
      ensures forall i, j :: 0 <= i < width && 0 <= j < height && (i, j) != (x, y) ==>
        tileStates[i, j] == old(tileStates[i, j])
    {
      var valid := ValidTileTypes(x, y);
      ghost var c := Candidates(rules, Surroundings((x, y)));
      if |valid| > 0 {
        var r :| 0 <= r < |valid|;
        assert valid[r] in c;
        Observe(x, y, valid[r]);
      } else {
        assert c == {};
      }
    }

    /**
     * The set-up part of Generate: a fresh grid of unobserved cells, each
     * holding its own coordinates, and a frontier holding one random cell.
     */
    method Initialise()
      requires 1 <= width && 1 <= height
      modifies this
      ensures Valid() && fresh(tileStates)
      ensures forall x, y :: 0 <= x < width && 0 <= y < height ==>
        tileStates[x, y] == TileState(x, y, Red, false)
      ensures history == [] && |checking| == 1 && InBounds(width, height, checking[0])
    {
      var grid := new TileState[width, height];
      for x := 0 to width
        invariant forall i, j :: 0 <= i < x && 0 <= j < height ==> grid[i, j] == TileState(i, j, Red, false)
      {
        for y := 0 to height
          invariant forall i, j :: 0 <= i < x && 0 <= j < height ==> grid[i, j] == TileState(i, j, Red, false)
          invariant forall j :: 0 <= j < y ==> grid[x, j] == TileState(x, j, Red, false)
        {
          grid[x, y] := TileState(x, y, Red, false);
        }
      }
      tileStates := grid;
      history := [];
      checking := [];
      var seedX :| 0 <= seedX < width;
      var seedY :| 0 <= seedY < height;
      checking := checking + [(seedX, seedY)];
    }

    /** The Contains/Add loop of Generate: append each given cell not already in the frontier. */
    method AddAbsent(cells: seq<Pos>)
      modifies this`checking
      ensures checking == AppendAbsent(old(checking), cells)
    {
      if |cells| > 0 {
        for i := 0 to |cells|
          invariant AppendAbsent(checking, cells[i..]) == AppendAbsent(old(checking), cells)
        {
          assert cells[i..][1..] == cells[i + 1..];
          if cells[i] in checking {
            continue;
          }
          checking := checking + [cells[i]];
        }
      }
    }

    /**
     * The frontier update of Generate, once the frontier cell `tile` has been
     * observed: remove it from the frontier, then append each of its
     * unobserved neighbours not already there. The frontier invariants,
     * which held before `tile` was observed, hold again afterwards.
     */
    method Expand(tile: Pos, ghost before: seq<Pos>)
      requires Valid() && InBounds(width, height, tile) && tile in checking
      requires history == before + [tile]
      requires Pending(width, height, before, checking) && Covers(width, height, before, checking)
      modifies this`checking
      ensures checking == AppendAbsent(Remove(old(checking), tile), UnobservedNeighbours(tile.0, tile.1))
      ensures Pending(width, height, history, checking) && Covers(width, height, history, checking)
    {
      checking := Remove(checking, tile);
      var unobserved := UnobservedNeighbours(tile.0, tile.1);
      AddAbsent(unobserved);
      forall q | q in unobserved
        ensures InBounds(width, height, q) && q !in history
      {
        assert Unobserved(q);
      }
      RoundKeepsFrontier(width, height, before, old(checking), tile, unobserved);
    }

    /**
     * One round of the Generate loop on a frontier cell:
     * resolve it; if it is now observed, expand the frontier from it; if
     * not, nothing has changed and the cell had no candidate kind.
     */
    method Visit(tile: Pos) returns (observed: bool)
      requires Valid() && Pending(width, height, history, checking) && Covers(width, height, history, checking)
      requires RuleCompliant()
      requires tile in checking
      modifies this, tileStates
      ensures tileStates == old(tileStates)
      ensures Valid() && Pending(width, height, history, checking) && Covers(width, height, history, checking)
      ensures RuleCompliant()
      ensures observed == tileStates[tile.0, tile.1].observed
      ensures observed ==> history == old(history) + [tile]
      ensures observed ==> tile !in old(Placed()) && Placed() == old(Placed())[tile := tileStates[tile.0, tile.1].tileType]
      ensures observed ==> checking == AppendAbsent(Remove(old(checking), tile), UnobservedNeighbours(tile.0, tile.1))
      ensures forall i, j :: 0 <= i < width && 0 <= j < height && (i, j) != tile ==>
        tileStates[i, j] == old(tileStates[i, j])
      ensures !observed ==> unchanged(this) && unchanged(tileStates)
      ensures !observed ==> Candidates(rules, Surroundings(tile)) == {}
    {
      ghost var before, placedBefore := history, Placed();
      SurroundingsArePlaced(tile);
      Resolve(tile.0, tile.1);
      observed := tileStates[tile.0, tile.1].observed;
      if observed {
        ghost var k := tileStates[tile.0, tile.1].tileType;
        assert history == before + [tile];
        PlaceKeepsCompliant(rules, before, placedBefore, tile, k);
        Expand(tile, before);
      } else {
        assert Surroundings(tile) == old(Surroundings(tile));
      }
    }

    /** A cell left without candidates has an observed neighbour. */
    lemma StallNeedsObservedCell(p: Pos)
      requires Valid() && Candidates(rules, Surroundings(p)) == {}
      ensures |history| > 0
    {
      var a := Surroundings(p);
      EmptyNeedsObservedNeighbour(rules, a);
      var d :| a.At(d).Some?;
      assert a.At(d) == NeighbourKind(p, d) by {
        match d
        case Up =>
        case Down =>
        case Left =>
        case Right =>
      }
      var q := Step(p, d);
      assert InBounds(width, height, q) && tileStates[q.0, q.1].observed;
      assert (q.0, q.1) in history;
    }

    /** With both frontier invariants, the frontier is empty exactly when every cell is observed. */
    lemma Completion()
      requires Valid() && Pending(width, height, history, checking) && Covers(width, height, history, checking)
      requires |history| > 0
      ensures checking == [] <==> forall x, y :: 0 <= x < width && 0 <= y < height ==> tileStates[x, y].observed
    {
      if checking == [] {
        EmptyFrontierCoversGrid(width, height, history);
        forall x, y | 0 <= x < width && 0 <= y < height
          ensures tileStates[x, y].observed
        {
          assert InBounds(width, height, (x, y));
        }
      } else {
        var q := checking[0];
        assert InBounds(width, height, q) && q !in history;
        assert !tileStates[q.0, q.1].observed;
      }
    }

    /**
     * Generate: resolve random frontier cells until the frontier is empty
     * (then every cell is observed) or a cell has no candidate left (then
     * the run stops with that cell unobserved and still in the frontier).
     * Every observed cell satisfies the rules of the neighbours observed
     * before it, and at most width * height cells are ever resolved.
     */
    method Generate()
      requires 1 <= width && 1 <= height
      modifies this
      ensures Valid() && fresh(tileStates)
      ensures Pending(width, height, history, checking) && RuleCompliant()
      ensures 1 <= |history| <= width * height
      ensures checking == [] <==> forall x, y :: 0 <= x < width && 0 <= y < height ==> tileStates[x, y].observed
      ensures checking != [] ==> exists i :: 0 <= i < |checking| && Candidates(rules, Surroundings(checking[i])) == {}
    {
      Initialise();
      // The kind each cell received at the moment it was observed.
      ghost var kinds: map<Pos, Kind> := map[];
      while checking != []
        invariant Valid() && fresh(tileStates)
        invariant Placed() == kinds
        invariant Pending(width, height, history, checking) && Covers(width, height, history, checking) && RuleCompliant()
        invariant checking == [] ==> |history| > 0
        invariant |history| <= width * height
        decreases width * height - |history|
      {
        var r :| 0 <= r < |checking|;
        var tile := checking[r];
        var observed := Visit(tile);
        if observed {
          kinds := kinds[tile := tileStates[tile.0, tile.1].tileType];
          DistinctCellsBound(width, height, history);
        } else {
          StallNeedsObservedCell(tile);
          break;
        }
      }
      Completion();
    }
  }
}
