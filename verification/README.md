# EvenSimplerTiledModel in Dafny

A verified model of the tile-propagation engine in
`EvenSimplerTiledModel.cs`. This is a small, simplified wave-function-collapse
style generator. A `width x height` grid of cells starts unobserved. A
random cell is put on a frontier (`m_checkingTileStates`). The loop then
repeatedly picks a random frontier cell and resolves it.

- **Resolving a cell** starts from the kinds Red, Green and Blue. For each
  in-bounds observed neighbour on side D with kind K, every kind b is removed
  unless the rule `(K, inverse(D), b)` exists. If some kind survives, one is
  picked at random and the cell becomes observed.
- **After a successful resolve**, the cell leaves the frontier. Its
  unobserved in-bounds neighbours (Up, Down, Left, Right, in that order) are
  appended unless they are already present.
- **If no kind survives**, the loop stops.

The model is split by concern:

- `list_ops.dfy` (`ListOps`): the two `List<T>` operations the engine
  relies on, `Remove` and "add unless contained".
- `grid.dfy` (`Grid`): directions, steps (Up is `y + 1`), bounds, the
  neighbour list, and two whole-grid facts. A grid has `width * height`
  cells, and it is connected.
- `tiles.dfy` (`Tiles`): kinds, rules, the candidate kinds of a cell as a
  specification function (`Candidates`), and the imperative per-side
  filtering loops proved against it. It also defines the rule-compliance
  predicate and the lemma that placing a candidate keeps it.
- `frontier.dfy` (`Frontier`): the two frontier invariants and their
  preservation.
  - *Pending*: the frontier holds distinct, in-bounds, unobserved cells.
  - *Covers*: every unobserved in-bounds neighbour of an observed cell is in
    the frontier.
- `tiled_model.dfy` (`Engine`): the `TiledModel` class. It holds the grid
  as an `array2<TileState>`, the frontier as a `seq` of coordinates, and a
  ghost `history` of observed cells in observation order. Its methods are
  `GetValidTileType` (`Resolve`), `GetUnobservedTileStates`
  (`UnobservedNeighbours`) and `Generate`.

What `Generate` is proved to establish:

- The loop terminates, and at most `width * height` cells are observed.
- Every observed cell obeys the rules against each neighbour that was
  observed before it.
- An observed cell keeps the kind it received when it was observed for the
  rest of the run.
- At the end, the frontier is empty exactly when every cell is observed.
- If the frontier is not empty at the end, the run stopped on a frontier
  cell that has no candidate kind.

`Random.Range` is modelled as a nondeterministic choice of an index in range
(`:|`). The proofs therefore hold for every possible sequence of random
draws.

Two behaviours of the code are easy to misread, and the model follows the
code in both.

- **A side whose observed neighbour has kind K, with no rule at all for
  `(K, inverse(D))`, eliminates every kind.** The rejected list starts full
  and nothing is removed from it. So such a side does not leave the cell
  unconstrained. `UnmatchedSideEliminatesAll` and `RightOfRedExample` state
  this.
- **Resolving a cell that is already observed is not a no-op.** The
  candidate kinds are recomputed, and the cell may take a different kind.
  `Resolve` is specified for both cases. `Generate` only resolves frontier
  cells, which are unobserved.

## Model

| member | source | states |
|---|---|---|
| ListOps.Remove | Assets/EvenSimplerTiledModel/EvenSimplerTiledModel.cs:86 | `List.Remove` takes out one occurrence of x when present and returns the list unchanged otherwise (as multisets: `multiset(s) - {x}`) |
| ListOps.RemoveDistinct | Assets/EvenSimplerTiledModel/EvenSimplerTiledModel.cs:154 | on a duplicate-free list, `Remove` keeps it duplicate-free and removes exactly x |
| ListOps.AppendAbsent | Assets/EvenSimplerTiledModel/EvenSimplerTiledModel.cs:91-98 | "add unless contained" keeps the old list as a prefix, adds at most one entry per given element, contains exactly the old and new elements, and keeps a duplicate-free list duplicate-free |
| Grid.Step | Assets/EvenSimplerTiledModel/EvenSimplerTiledModel.cs:264-302 | the neighbour cell one step away: Up and Down keep x and move y (Up to `y + 1`, as at `m_tileStates[x, y + 1]`), Left and Right keep y and move x (Right to `x + 1`); the result is always at distance one |
| Grid.Inverse | Assets/EvenSimplerTiledModel/EvenSimplerTiledModel.cs:140-152 | the direction consulted for a neighbour is the opposite of the side it lies on: stepping d then Inverse(d) returns to the cell |
| Grid.KeepNext | Assets/EvenSimplerTiledModel/EvenSimplerTiledModel.cs:264-272 | one block of GetUnobservedTileStates: the list grows by the neighbour on that side exactly when it is kept, and stays duplicate-free and in side order |
| Grid.KeepNeighbours | Assets/EvenSimplerTiledModel/EvenSimplerTiledModel.cs:259-305 | the kept neighbours: at most four, distinct, each side present iff kept, nothing but neighbours, in the order Up, Down, Left, Right |
| Grid.CellsSize | Assets/EvenSimplerTiledModel/EvenSimplerTiledModel.cs:62-70 | the grid built by the nested loops has exactly `width * height` cells |
| Grid.DistinctCellsBound | Assets/EvenSimplerTiledModel/EvenSimplerTiledModel.cs:78 | distinct in-bounds cells number at most `width * height`, which bounds the number of loop rounds |
| Grid.ClosedCoversGrid | Assets/EvenSimplerTiledModel/EvenSimplerTiledModel.cs:86-100 | the grid is connected: a non-empty set of cells that contains every in-bounds neighbour of its members is the whole grid |
| Tiles.Allowed | Assets/EvenSimplerTiledModel/EvenSimplerTiledModel.cs:149-156 | the kinds admitted by neighbour kind a in direction d are exactly the b with a rule `(a, d, b)` |
| Tiles.SideAllowed | Assets/EvenSimplerTiledModel/EvenSimplerTiledModel.cs:140-166 | one side leaves every kind when its neighbour is absent or unobserved, and otherwise exactly the kinds its neighbour's rules in the inverse direction admit |
| Tiles.Candidates | Assets/EvenSimplerTiledModel/EvenSimplerTiledModel.cs:133-250 | a kind survives iff on every side with an observed neighbour of kind K the rule `(K, inverse(side), kind)` exists |
| Tiles.Unconstrained | Assets/EvenSimplerTiledModel/EvenSimplerTiledModel.cs:133-136 | a cell with no observed neighbour may take any of the three kinds |
| Tiles.UnmatchedSideEliminatesAll | Assets/EvenSimplerTiledModel/EvenSimplerTiledModel.cs:144-164 | an observed neighbour of kind K with no rule for `(K, inverse(side))` leaves no candidate at all |
| Tiles.EmptyNeedsObservedNeighbour | Assets/EvenSimplerTiledModel/EvenSimplerTiledModel.cs:252-256 | a cell can only be left without candidates (and so stop the run) when some neighbour is observed |
| Tiles.RightOfRedExample | Assets/EvenSimplerTiledModel/EvenSimplerTiledModel.cs:140-250 | with the rules (Red, Right, Green) and (Red, Right, Blue), a cell right of a Red cell may be Green or Blue, and a cell above a Red cell has no candidate |
| Tiles.RejectedKinds | Assets/EvenSimplerTiledModel/EvenSimplerTiledModel.cs:144-156 | the rejected list built by the rule loop is duplicate-free and holds exactly the kinds the neighbour's rules in that direction do not admit |
| Tiles.RemoveKinds | Assets/EvenSimplerTiledModel/EvenSimplerTiledModel.cs:158-164 | removing each rejected kind leaves exactly the valid kinds that are not rejected, still duplicate-free |
| Tiles.Constrain | Assets/EvenSimplerTiledModel/EvenSimplerTiledModel.cs:144-164 | one observed side keeps exactly the valid kinds its neighbour's rules admit |
| Tiles.PlaceKeepsCompliant | Assets/EvenSimplerTiledModel/EvenSimplerTiledModel.cs:252-256 | observing a fresh cell with one of its candidate kinds keeps every observed cell compliant with the rules of the neighbours observed before it |
| Frontier.RoundKeepsFrontier | Assets/EvenSimplerTiledModel/EvenSimplerTiledModel.cs:86-100 | removing the observed cell and appending its unobserved neighbours unless present keeps the frontier duplicate-free, in bounds, unobserved and covering every unobserved neighbour of an observed cell |
| Frontier.EmptyFrontierCoversGrid | Assets/EvenSimplerTiledModel/EvenSimplerTiledModel.cs:78 | once some cell is observed, an empty covering frontier means every cell of the grid is observed |
| Engine.TiledModel.constructor | Assets/EvenSimplerTiledModel/EvenSimplerTiledModel.cs:46-49 | the configured size and rule set, with an empty frontier |
| Engine.TiledModel.NeighbourKind | Assets/EvenSimplerTiledModel/EvenSimplerTiledModel.cs:140-142 | a side reports a neighbour exactly when the cell one step away is in the grid and observed, and then reports the kind that cell was observed with |
| Engine.TiledModel.SurroundingsArePlaced | Assets/EvenSimplerTiledModel/EvenSimplerTiledModel.cs:140-226 | the observed neighbours read from the grid are the kinds placed in observation history |
| Engine.TiledModel.UnobservedNeighbours | Assets/EvenSimplerTiledModel/EvenSimplerTiledModel.cs:259-305 | GetUnobservedTileStates returns, in the order Up, Down, Left, Right and without duplicates, exactly the in-bounds neighbours that are not observed |
| Engine.TiledModel.ConstrainSide | Assets/EvenSimplerTiledModel/EvenSimplerTiledModel.cs:140-166 | one side block of GetValidTileType keeps exactly the valid kinds that side allows (all of them when the neighbour is outside the grid or unobserved) |
| Engine.TiledModel.ValidTileTypes | Assets/EvenSimplerTiledModel/EvenSimplerTiledModel.cs:133-250 | after the four side blocks, the valid list holds exactly the candidate kinds of the cell, without duplicates |
| Engine.TiledModel.Observe | Assets/EvenSimplerTiledModel/EvenSimplerTiledModel.cs:252-256 | the cell takes the chosen kind and becomes observed, joins the history if it was unobserved, and no other cell changes |
| Engine.TiledModel.Resolve | Assets/EvenSimplerTiledModel/EvenSimplerTiledModel.cs:131-257 | GetValidTileType leaves the grid unchanged when no candidate exists, and otherwise observes the cell with one of its candidate kinds; no other cell changes |
| Engine.TiledModel.Initialise | Assets/EvenSimplerTiledModel/EvenSimplerTiledModel.cs:62-72 | a fresh grid of unobserved cells holding their own coordinates, and a frontier holding one in-bounds cell |
| Engine.TiledModel.AddAbsent | Assets/EvenSimplerTiledModel/EvenSimplerTiledModel.cs:89-100 | the loop that appends each cell unless the frontier contains it computes `AppendAbsent` |
| Engine.TiledModel.Expand | Assets/EvenSimplerTiledModel/EvenSimplerTiledModel.cs:86-100 | the frontier after a successful round is the old one minus the cell plus its absent unobserved neighbours, and both frontier invariants hold again |
| Engine.TiledModel.Visit | Assets/EvenSimplerTiledModel/EvenSimplerTiledModel.cs:80-105 | one loop round either observes the frontier cell or changes nothing because the cell has no candidate. When it observes the cell, history grows by that cell, the placed kinds grow by that cell's kind only, and the frontier becomes the old one minus the cell plus its absent unobserved neighbours. No other cell changes, and the frontier invariants and rule compliance hold again |
| Engine.TiledModel.StallNeedsObservedCell | Assets/EvenSimplerTiledModel/EvenSimplerTiledModel.cs:102-105 | the loop can only break after some cell has been observed |
| Engine.TiledModel.Completion | Assets/EvenSimplerTiledModel/EvenSimplerTiledModel.cs:78 | under the frontier invariants, the frontier is empty iff every cell is observed |
| Engine.TiledModel.Generate | Assets/EvenSimplerTiledModel/EvenSimplerTiledModel.cs:60-109 | the loop ends with at most `width * height` cells observed, and its invariant keeps every observed cell's kind equal to the kind it received when observed. At least one cell is observed, and every observed cell obeys the rules against the neighbours observed before it. The frontier is empty iff the whole grid is observed; otherwise it holds a cell with no candidate |

## Left out

- `GenerateTiles` (lines 111-129): the rendering that instantiates one `GameObject` per cell. It is Unity scene I/O and has no logic beyond reading each cell's kind.
- `Update` (lines 52-58): the keyboard handler that calls `Generate`. It is input handling.
- The `tiles` prefab array and `m_tiles`: rendering state.
- The serialisation attributes and the `MonoBehaviour` plumbing.
- `Random.Range`: modelled as an arbitrary in-range choice. Its uniformity, and the reproducibility of a run from a seed, are not modelled.
- Cell references: a frontier entry is a cell's coordinates rather than a reference to its `TileState` object. `Valid()` proves that each cell holds its own coordinates, so `List.Contains` and `List.Remove` on references behave the same as on coordinates.
- Engine.TiledModel.Generate: requires `1 <= width && 1 <= height`. With a zero or negative size, the array allocation or the first index into the grid fails in the original with a .NET exception, which is not modelled.
- Engine.TiledModel.Resolve: does not claim that resolving an already observed cell is a no-op. The code recomputes the candidates and may change the kind, and the contract says exactly that.
- `TileType` values outside Red, Green and Blue (an enum can hold any integer in .NET) are not modelled, and neither are out-of-range rule directions.
