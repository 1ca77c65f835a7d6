/**
 * Grid geometry: cell coordinates, the four axis-aligned steps (Up is y + 1),
 * the bounds of a width x height grid, and two facts about the whole grid:
 * it has width * height cells, and it is connected, so a non-empty set of
 * cells closed under stepping to in-bounds neighbours is the whole grid.
 */
module Grid {
  import opened ListOps

  type Pos = (int, int)

  datatype Dir = Up | Down | Left | Right

  /** The opposite direction, used when a neighbour's rule is consulted. */
  function Inverse(d: Dir): (r: Dir)
    ensures r != d
    ensures forall p :: Step(Step(p, d), r) == p
  {
    match d
    case Up => Down
    case Down => Up
    case Left => Right
    case Right => Left
  }

  /**
   * The neighbour one cell away in direction d. Up and Down move along y
   * (Up towards larger y), Left and Right along x (Right towards larger x).
   */
  function Step(p: Pos, d: Dir): (r: Pos)
    ensures d.Up? || d.Down? <==> r.0 == p.0
    ensures d.Left? || d.Right? <==> r.1 == p.1
    ensures r.1 > p.1 <==> d.Up?
    ensures r.1 < p.1 <==> d.Down?
    ensures r.0 > p.0 <==> d.Right?
    ensures r.0 < p.0 <==> d.Left?
    ensures (r.0 - p.0) * (r.0 - p.0) + (r.1 - p.1) * (r.1 - p.1) == 1
  {
    match d
    case Up => (p.0, p.1 + 1)
    case Down => (p.0, p.1 - 1)
    case Left => (p.0 - 1, p.1)
    case Right => (p.0 + 1, p.1)
  }

  /** Position of a neighbour of p in the order Up, Down, Left, Right. */
  function Rank(p: Pos, q: Pos): int
  {
    if q == Step(p, Up) then 0
    else if q == Step(p, Down) then 1
    else if q == Step(p, Left) then 2
    else 3
  }

  function Order(d: Dir): int
  {
    match d
    case Up => 0
    case Down => 1
    case Left => 2
    case Right => 3
  }

  /** The neighbours in r are listed in the order Up, Down, Left, Right. */
  ghost predicate RankSorted(p: Pos, r: seq<Pos>)
  {
    forall i, j :: 0 <= i < j < |r| ==> Rank(p, r[i]) < Rank(p, r[j])
  }

  lemma StepRank(p: Pos, d: Dir)
    ensures Rank(p, Step(p, d)) == Order(d)
  {
  }

  /** r followed by the neighbour of p at d when `keep` holds. */
  function KeepNext(p: Pos, r: seq<Pos>, d: Dir, keep: bool): (r': seq<Pos>)
    requires Distinct(r) && RankSorted(p, r)
    requires forall q :: q in r ==> Rank(p, q) < Order(d)
    ensures Distinct(r') && RankSorted(p, r') && |r'| <= |r| + 1
    ensures forall q :: q in r' <==> q in r || (keep && q == Step(p, d))
    ensures forall q :: q in r' ==> Rank(p, q) <= Order(d)
  {
    StepRank(p, d);
    if keep then r + [Step(p, d)] else r
  }

  /**
   * The neighbours of p that are kept (one flag per direction), listed in
   * the order Up, Down, Left, Right.
   */
  function KeepNeighbours(p: Pos, up: bool, down: bool, left: bool, right: bool): (r: seq<Pos>)
    ensures |r| <= 4 && Distinct(r)
    ensures Step(p, Up) in r <==> up
    ensures Step(p, Down) in r <==> down
    ensures Step(p, Left) in r <==> left
    ensures Step(p, Right) in r <==> right
    ensures forall q :: q in r ==> q in [Step(p, Up), Step(p, Down), Step(p, Left), Step(p, Right)]
    ensures RankSorted(p, r)
  {
    StepRank(p, Up);
    StepRank(p, Down);
    StepRank(p, Left);
    StepRank(p, Right);
    var r1 := KeepNext(p, [], Up, up);
    var r2 := KeepNext(p, r1, Down, down);
    var r3 := KeepNext(p, r2, Left, left);
    KeepNext(p, r3, Right, right)
  }

  predicate InBounds(width: int, height: int, p: Pos)
  {
    0 <= p.0 < width && 0 <= p.1 < height
  }

  function Cells(width: int, height: int): set<Pos>
  {
    set x, y | 0 <= x < width && 0 <= y < height :: (x, y)
  }

  function Column(x: int, height: int): set<Pos>
  {
    set y | 0 <= y < height :: (x, y)
  }

  lemma {:induction false} ColumnSize(x: int, height: nat)
    ensures |Column(x, height)| == height
  {
    if height > 0 {
      ColumnSize(x, height - 1);
      assert Column(x, height) == Column(x, height - 1) + {(x, height - 1)};
    } else {
      assert Column(x, height) == {};
    }
  }

  /** A width x height grid has width * height cells. */
  lemma {:induction false} CellsSize(width: nat, height: nat)
    ensures |Cells(width, height)| == width * height
  {
    if width > 0 {
      CellsSize(width - 1, height);
      ColumnSize(width - 1, height);
      var prev, col := Cells(width - 1, height), Column(width - 1, height);
      forall p | p in Cells(width, height)
        ensures p in prev + col
      {
        if p.0 < width - 1 {
          assert p in prev;
        } else {
          assert p == (width - 1, p.1);
          assert p in col;
        }
      }
      assert Cells(width, height) == prev + col;
      assert prev !! col;
      assert width * height == (width - 1) * height + height;
    } else {
      assert Cells(width, height) == {};
    }
  }

  function Elements<T>(s: seq<T>): set<T>
  {
    set x | x in s
  }

  lemma {:induction false} DistinctElements<T>(s: seq<T>)
    requires Distinct(s)
    ensures |Elements(s)| == |s|
  {
    if s != [] {
      DistinctElements(s[1..]);
      assert Elements(s) == Elements(s[1..]) + {s[0]};
      assert s[0] !in Elements(s[1..]);
    } else {
      assert Elements(s) == {};
    }
  }

  /** A list of distinct in-bounds cells has at most width * height entries. */
  lemma DistinctCellsBound(width: nat, height: nat, s: seq<Pos>)
    requires Distinct(s)
    requires forall p :: p in s ==> InBounds(width, height, p)
    ensures |s| <= width * height
  {
    DistinctElements(s);
    CellsSize(width, height);
    var e, c := Elements(s), Cells(width, height);
    assert e <= c;
    assert c == e + (c - e);
  }

  /** Every in-bounds neighbour of a member of S is in S. */
  ghost predicate Closed(width: int, height: int, S: set<Pos>)
  {
    forall p, d :: p in S && InBounds(width, height, Step(p, d)) ==> Step(p, d) in S
  }

  lemma {:induction false} ReachAlongColumn(width: int, height: int, S: set<Pos>, s: Pos, y: int)
    requires Closed(width, height, S) && s in S && InBounds(width, height, s)
    requires 0 <= y < height
    ensures (s.0, y) in S
    decreases if y < s.1 then s.1 - y else y - s.1
  {
    if y > s.1 {
      ReachAlongColumn(width, height, S, s, y - 1);
      assert Step((s.0, y - 1), Up) == (s.0, y);
    } else if y < s.1 {
      ReachAlongColumn(width, height, S, s, y + 1);
      assert Step((s.0, y + 1), Down) == (s.0, y);
    }
  }

  lemma {:induction false} ReachAlongRow(width: int, height: int, S: set<Pos>, s: Pos, x: int, y: int)
    requires Closed(width, height, S) && s in S && InBounds(width, height, s)
    requires 0 <= x < width && 0 <= y < height
    ensures (x, y) in S
    decreases if x < s.0 then s.0 - x else x - s.0
  {
    if x > s.0 {
      ReachAlongRow(width, height, S, s, x - 1, y);
      assert Step((x - 1, y), Right) == (x, y);
    } else if x < s.0 {
      ReachAlongRow(width, height, S, s, x + 1, y);
      assert Step((x + 1, y), Left) == (x, y);
    } else {
      ReachAlongColumn(width, height, S, s, y);
    }
  }

  /** The grid is connected: a non-empty closed set of cells covers it. */
  lemma ClosedCoversGrid(width: int, height: int, S: set<Pos>)
    requires Closed(width, height, S)
    requires S != {} && forall p :: p in S ==> InBounds(width, height, p)
    ensures forall p :: InBounds(width, height, p) ==> p in S
  {
    var s :| s in S;
    forall p | InBounds(width, height, p)
      ensures p in S
    {
      ReachAlongRow(width, height, S, s, p.0, p.1);
    }
  }
}
