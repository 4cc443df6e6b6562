/** Neighbour lists of an undirected graph built from its edge list, as
    readUnweightedUndirectedGraph fills them (the input stream itself is left out:
    the edges arrive as a sequence of pairs). */
module Adjacency {

  /** One input line `v u`: an undirected edge between v and u. */
  type Edge = (int, int)

  /** Every endpoint of every edge is a vertex id in [0, n). */
  predicate EdgesInRange(n: nat, edges: seq<Edge>) {
    forall i :: 0 <= i < |edges| ==> 0 <= edges[i].0 < n && 0 <= edges[i].1 < n
  }

  /** The neighbour list of vertex x once the edges have been read in order: the
      edge (v, u) appends u to the list of v and then v to the list of u, so a
      self-loop (v, v) appends v to its own list twice. */
  function Neighbours(edges: seq<Edge>, x: int): seq<int>
  {
    if edges == [] then []
    else
      var e := edges[|edges| - 1];
      Neighbours(edges[..|edges| - 1], x)
        + (if e.0 == x then [e.1] else [])
        + (if e.1 == x then [e.0] else [])
  }

  /** How many input lines hold exactly the pair (a, b). */
  function Occurrences(edges: seq<Edge>, a: int, b: int): nat
  {
    if edges == [] then 0
    else Occurrences(edges[..|edges| - 1], a, b) + (if edges[|edges| - 1] == (a, b) then 1 else 0)
  }

  /** The pair (a, b) occurs at all exactly when Occurrences counts it. */
  lemma {:induction false} OccurrencesPositive(edges: seq<Edge>, a: int, b: int)
    ensures Occurrences(edges, a, b) > 0 <==> exists i :: 0 <= i < |edges| && edges[i] == (a, b)
  {
    if edges != [] {
      var init := edges[..|edges| - 1];
      OccurrencesPositive(init, a, b);
      if exists i :: 0 <= i < |edges| && edges[i] == (a, b) {
        var i :| 0 <= i < |edges| && edges[i] == (a, b);
        if i < |init| {
          assert init[i] == (a, b);
        }
      }
      if Occurrences(init, a, b) > 0 {
        var i :| 0 <= i < |init| && init[i] == (a, b);
        assert edges[i] == (a, b);
      }
    }
  }

  /** No entry is lost and none is invented: u appears in the list of v once for
      every line (v, u) and once for every line (u, v); a self-loop line (v, v)
      therefore contributes v twice to its own list. */
  lemma {:induction false} NeighbourMultiplicity(edges: seq<Edge>, v: int, u: int)
    ensures multiset(Neighbours(edges, v))[u] == Occurrences(edges, v, u) + Occurrences(edges, u, v)
  {
    if edges != [] {
      var init := edges[..|edges| - 1];
      var e := edges[|edges| - 1];
      NeighbourMultiplicity(init, v, u);
      var fst := if e.0 == v then [e.1] else [];
      var snd := if e.1 == v then [e.0] else [];
      assert Neighbours(edges, v) == Neighbours(init, v) + fst + snd;
      assert multiset(Neighbours(edges, v)) == multiset(Neighbours(init, v)) + multiset(fst) + multiset(snd);
    }
  }

  /** Storage is symmetric, multiplicities included: u is listed under v as often
      as v is listed under u. */
  lemma SymmetricStorage(edges: seq<Edge>, v: int, u: int)
    ensures multiset(Neighbours(edges, v))[u] == multiset(Neighbours(edges, u))[v]
  {
    NeighbourMultiplicity(edges, v, u);
    NeighbourMultiplicity(edges, u, v);
  }

  /** u is a neighbour of v exactly when some input line joins them, in either order. */
  lemma NeighbourIff(edges: seq<Edge>, v: int, u: int)
    ensures u in Neighbours(edges, v) <==>
            exists i :: 0 <= i < |edges| && (edges[i] == (v, u) || edges[i] == (u, v))
  {
    NeighbourMultiplicity(edges, v, u);
    OccurrencesPositive(edges, v, u);
    OccurrencesPositive(edges, u, v);
  }

  /** With all ids in [0, n), every stored neighbour is a vertex id in [0, n). */
  lemma {:induction false} NeighboursInRange(n: nat, edges: seq<Edge>, x: int)
    requires EdgesInRange(n, edges)
    ensures forall w :: w in Neighbours(edges, x) ==> 0 <= w < n
  {
    if edges != [] {
      NeighboursInRange(n, edges[..|edges| - 1], x);
    }
  }
}
