/**
 * The two operations of a .NET List<T> that the tile engine relies on,
 * modelled on sequences: Remove (drop the first occurrence of a value)
 * and the "add unless already contained" pattern used to grow the frontier.
 */
module ListOps {

  /** No element occurs twice. */
  predicate Distinct<T(==)>(s: seq<T>)
  {
    forall i, j :: 0 <= i < j < |s| ==> s[i] != s[j]
  }

  /**
   * List<T>.Remove(x): removes the first occurrence of x, and leaves the
   * list as it is when x does not occur.
   */
  function Remove<T(==,!new)>(s: seq<T>, x: T): (r: seq<T>)
    ensures x !in s ==> r == s
    ensures x in s ==> |r| == |s| - 1
    ensures multiset(r) == multiset(s) - multiset{x}
  {
    if s == [] then []
    else
      assert s == [s[0]] + s[1..];
      if s[0] == x then s[1..]
      else [s[0]] + Remove(s[1..], x)
  }

  /** On a list without duplicates, Remove takes out exactly x. */
  lemma {:induction false} RemoveDistinct<T(!new)>(s: seq<T>, x: T)
    requires Distinct(s)
    ensures Distinct(Remove(s, x))
    ensures forall y :: y in Remove(s, x) <==> y in s && y != x
  {
    if s != [] && s[0] != x {
      RemoveDistinct(s[1..], x);
      assert s[0] !in s[1..];
    }
  }

  /**
   * Appends, in order, every element of xs that is not yet present
   * (each one checked against the list as it has grown so far).
   */
  function AppendAbsent<T(==,!new)>(s: seq<T>, xs: seq<T>): (r: seq<T>)
    ensures |s| <= |r| <= |s| + |xs| && r[..|s|] == s
    ensures forall y :: y in r <==> y in s || y in xs
    ensures Distinct(s) ==> Distinct(r)
    decreases |xs|
  {
    if xs == [] then s
    else AppendAbsent(if xs[0] in s then s else s + [xs[0]], xs[1..])
  }
}
