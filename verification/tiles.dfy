/**
 * Tile kinds, adjacency rules and the candidate kinds of a cell.
 *
 * A rule (a, d, b) says that a tile of kind a admits a tile of kind b at
 * direction d from it. A cell whose neighbour in direction D is observed
 * with kind K keeps only the kinds b with a rule (K, Inverse(D), b); a side
 * for which no rule matches at all leaves no candidate.
 */
module Tiles {
  import opened ListOps
  import opened Grid

  datatype Kind = Red | Green | Blue

  datatype Rule = Rule(tileTypeA: Kind, direction: Dir, tileTypeB: Kind)

  datatype Option<T> = None | Some(value: T)

  const AllKinds: set<Kind> := {Red, Green, Blue}

  /** The kinds that a tile of kind a admits at direction d. */
  function Allowed(rules: seq<Rule>, a: Kind, d: Dir): (r: set<Kind>)
    ensures forall b :: b in r <==> Rule(a, d, b) in rules
  {
    if rules == [] then {}
    else
      assert rules == [rules[0]] + rules[1..];
      var here := if rules[0].tileTypeA == a && rules[0].direction == d then {rules[0].tileTypeB} else {};
      here + Allowed(rules[1..], a, d)
  }

  /**
   * The kinds of the observed neighbour (if any) on each side of a cell:
   * None when that side is out of the grid or not yet observed.
   */
  datatype Around = Around(up: Option<Kind>, down: Option<Kind>, left: Option<Kind>, right: Option<Kind>)
  {
    function At(d: Dir): Option<Kind>
    {
      match d
      case Up => up
      case Down => down
      case Left => left
      case Right => right
    }
  }

  /** What one side leaves of the kinds: all of them if it has no observed neighbour. */
  function SideAllowed(rules: seq<Rule>, n: Option<Kind>, d: Dir): (r: set<Kind>)
    ensures forall b :: b in r <==> (n.Some? ==> Rule(n.value, Inverse(d), b) in rules)
  {
    assert forall b :: b in AllKinds by {
      forall b: Kind
        ensures b in AllKinds
      {
        assert b.Red? || b.Green? || b.Blue?;
      }
    }
    match n
    case None => AllKinds
    case Some(k) => Allowed(rules, k, Inverse(d))
  }

  /**
   * The kinds a cell may take: a kind survives when, on every side with an
   * observed neighbour of kind K, some rule (K, Inverse(side), kind) exists.
   */
  function Candidates(rules: seq<Rule>, a: Around): (r: set<Kind>)
    ensures forall b :: b in r <==>
      forall d :: a.At(d).Some? ==> Rule(a.At(d).value, Inverse(d), b) in rules
  {
    var r := SideAllowed(rules, a.up, Up) * SideAllowed(rules, a.down, Down)
           * SideAllowed(rules, a.left, Left) * SideAllowed(rules, a.right, Right);
    assert forall b :: b in r <==>
      forall d :: a.At(d).Some? ==> Rule(a.At(d).value, Inverse(d), b) in rules
    by {
      assert a.At(Up) == a.up && a.At(Down) == a.down && a.At(Left) == a.left && a.At(Right) == a.right;
    }
    r
  }

  /** A cell with no observed neighbour can take any of the three kinds. */
  lemma Unconstrained(rules: seq<Rule>, a: Around)
    requires forall d :: a.At(d).None?
    ensures Candidates(rules, a) == AllKinds
  {
    assert a.At(Up).None? && a.At(Down).None? && a.At(Left).None? && a.At(Right).None?;
  }

  /**
   * A side whose observed neighbour has kind K while no rule has
   * tileTypeA == K and direction == Inverse(side) eliminates every kind.
   */
  lemma UnmatchedSideEliminatesAll(rules: seq<Rule>, a: Around, d: Dir)
    requires a.At(d).Some?
    requires forall i :: 0 <= i < |rules| ==>
      !(rules[i].tileTypeA == a.At(d).value && rules[i].direction == Inverse(d))
    ensures Candidates(rules, a) == {}
  {
    forall b | b in Candidates(rules, a)
      ensures false
    {
      var i :| 0 <= i < |rules| && rules[i] == Rule(a.At(d).value, Inverse(d), b);
    }
  }

  /** A cell left with no candidate has at least one observed neighbour. */
  lemma EmptyNeedsObservedNeighbour(rules: seq<Rule>, a: Around)
    requires Candidates(rules, a) == {}
    ensures exists d :: a.At(d).Some?
  {
    assert Red !in Candidates(rules, a);
  }

  /**
   * With only the rules "Red admits Green to its right" and "Red admits Blue
   * to its right", a cell whose left neighbour is Red may be Green or Blue,
   * while a cell whose lower neighbour is Red has no candidate at all, since
   * no rule speaks of Red in direction Up.
   */
  lemma RightOfRedExample()
    ensures var rules := [Rule(Red, Right, Green), Rule(Red, Right, Blue)];
      && Candidates(rules, Around(None, None, Some(Red), None)) == {Green, Blue}
      && Candidates(rules, Around(None, Some(Red), None, None)) == {}
  {
    var rules := [Rule(Red, Right, Green), Rule(Red, Right, Blue)];
    assert Rule(Red, Right, Green) == rules[0] && Rule(Red, Right, Blue) == rules[1];
    assert Red !in Candidates(rules, Around(None, None, Some(Red), None));
    UnmatchedSideEliminatesAll(rules, Around(None, Some(Red), None, None), Down);
  }

  /**
   * The rule loop of one side of GetValidTileType: start from every kind and take out, for each
   * rule (neighbour, d, b), the kind b; what is left is rejected.
   */
  method RejectedKinds(rules: seq<Rule>, neighbour: Kind, d: Dir) returns (invalid: seq<Kind>)
    ensures Distinct(invalid)
    ensures forall b :: b in invalid <==> b !in Allowed(rules, neighbour, d)
  {
    invalid := [Red, Green, Blue];
    assert rules[..0] == [];
    assert forall b :: b !in Allowed(rules[..0], neighbour, d);
    forall b: Kind
      ensures b in invalid
    {
      assert b == invalid[0] || b == invalid[1] || b == invalid[2];
    }
    for i := 0 to |rules|
      invariant Distinct(invalid)
      invariant forall b :: b in invalid <==> b !in Allowed(rules[..i], neighbour, d)
    {
      assert rules[..i + 1] == rules[..i] + [rules[i]];
      if rules[i].tileTypeA == neighbour && rules[i].direction == d {
        RemoveDistinct(invalid, rules[i].tileTypeB);
        invalid := Remove(invalid, rules[i].tileTypeB);
      }
    }
    assert rules[..|rules|] == rules;
  }

  /** The removal loop of one side of GetValidTileType: remove each rejected kind from the valid ones. */
  method RemoveKinds(valid: seq<Kind>, invalid: seq<Kind>) returns (r: seq<Kind>)
    requires Distinct(valid)
    ensures Distinct(r)
    ensures forall b :: b in r <==> b in valid && b !in invalid
  {
    r := valid;
    if |invalid| > 0 {
      for i := 0 to |invalid|
        invariant Distinct(r)
        invariant forall b :: b in r <==> b in valid && b !in invalid[..i]
      {
        assert invalid[..i + 1] == invalid[..i] + [invalid[i]];
        RemoveDistinct(r, invalid[i]);
        r := Remove(r, invalid[i]);
      }
      assert invalid[..|invalid|] == invalid;
    }
  }

  /**
   * One side of the resolve step: the valid kinds afterwards are the valid
   * kinds before that the observed neighbour's rules in direction d admit.
   */
  method Constrain(rules: seq<Rule>, valid: seq<Kind>, neighbour: Kind, d: Dir) returns (r: seq<Kind>)
    requires Distinct(valid)
    ensures Distinct(r)
    ensures forall b :: b in r <==> b in valid && b in Allowed(rules, neighbour, d)
  {
    var invalid := RejectedKinds(rules, neighbour, d);
    r := RemoveKinds(valid, invalid);
  }

  /** The observed neighbours of p, given the kinds placed so far. */
  function AroundIn(placed: map<Pos, Kind>, p: Pos): (r: Around)
    ensures forall d :: r.At(d) == if Step(p, d) in placed then Some(placed[Step(p, d)]) else None
  {
    var look := (q: Pos) => if q in placed then Some(placed[q]) else None;
    Around(look(Step(p, Up)), look(Step(p, Down)), look(Step(p, Left)), look(Step(p, Right)))
  }

  /**
   * Cells were placed in the given order with the given kinds, and every
   * cell satisfies the rules of each neighbour placed before it: when
   * order[j] lies at direction d from an earlier order[i], the rule
   * (kind of order[i], d, kind of order[j]) exists.
   */
  ghost predicate Compliant(rules: seq<Rule>, order: seq<Pos>, placed: map<Pos, Kind>)
  {
    forall i, j, d ::
      (0 <= i < j < |order| && order[i] in placed && order[j] in placed && order[j] == Step(order[i], d))
      ==> Rule(placed[order[i]], d, placed[order[j]]) in rules
  }

  /** Placing a candidate kind on a fresh cell keeps the placement compliant. */
  lemma PlaceKeepsCompliant(rules: seq<Rule>, order: seq<Pos>, placed: map<Pos, Kind>, p: Pos, k: Kind)
    requires Compliant(rules, order, placed)
    requires forall q :: q in placed <==> q in order
    requires p !in order
    requires k in Candidates(rules, AroundIn(placed, p))
    ensures Compliant(rules, order + [p], placed[p := k])
  {
    var order', placed' := order + [p], placed[p := k];
    forall i, j, d | 0 <= i < j < |order'| && order'[i] in placed' && order'[j] in placed'
      && order'[j] == Step(order'[i], d)
      ensures Rule(placed'[order'[i]], d, placed'[order'[j]]) in rules
    {
      var q := order'[i];
      assert q == order[i] && q != p;
      if j < |order| {
        assert order'[j] == order[j] && order[j] != p;
      } else {
        assert Step(p, Inverse(d)) == q;
        assert AroundIn(placed, p).At(Inverse(d)) == Some(placed[q]);
        assert Inverse(Inverse(d)) == d;
      }
    }
  }
}
