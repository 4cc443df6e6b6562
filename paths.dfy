/** Paths over neighbour lists, and the greedy farthest-first walk that
    findLongPathFromRoot performs, stated as predicates on values. */
module Paths {

  /** Neighbour lists of a graph with |adj| vertices whose entries are vertex ids. */
  predicate WellFormed(adj: seq<seq<int>>) {
    forall v, k :: 0 <= v < |adj| && 0 <= k < |adj[v]| ==> 0 <= adj[v][k] < |adj|
  }

  /** Every element of p is a vertex id in [0, n). */
  predicate InRange(n: int, p: seq<int>) {
    forall i :: 0 <= i < |p| ==> 0 <= p[i] < n
  }

  /** No vertex occurs twice in p. */
  predicate Distinct(p: seq<int>) {
    forall i, j :: 0 <= i < j < |p| ==> p[i] != p[j]
  }

  /** Each vertex of p after the first is in the edge list of the one before it
      (the check the disabled isValidPath helper of the source performs). */
  predicate Linked(adj: seq<seq<int>>, p: seq<int>) {
    InRange(|adj|, p) && forall i :: 0 <= i < |p| - 1 ==> p[i + 1] in adj[p[i]]
  }

  /** A simple path: linked and without repeated vertices. */
  predicate IsSimplePath(adj: seq<seq<int>>, p: seq<int>) {
    Linked(adj, p) && Distinct(p)
  }

  /** The vertex ids occurring in p. */
  function Elements(p: seq<int>): set<int> {
    set i | 0 <= i < |p| :: p[i]
  }

  /** The ids 0 .. n-1. */
  function Ids(n: nat): (ids: set<int>)
    ensures forall x :: x in ids <==> 0 <= x < n
  {
    if n == 0 then {} else Ids(n - 1) + {n - 1}
  }

  lemma {:induction false} ElementsCard(p: seq<int>)
    requires Distinct(p)
    ensures |Elements(p)| == |p|
  {
    if p != [] {
      var init := p[..|p| - 1];
      ElementsCard(init);
      assert Elements(p) == Elements(init) + {p[|p| - 1]};
      assert p[|p| - 1] !in Elements(init);
    }
  }

  lemma {:induction false} IdsCard(n: nat)
    ensures |Ids(n)| == n
  {
    if n > 0 {
      IdsCard(n - 1);
      var smaller := Ids(n - 1);
      assert n - 1 !in smaller;
      assert Ids(n) == smaller + {n - 1};
      assert smaller * {n - 1} == {};
    }
  }

  /** Concatenation is associative. */
  lemma Associative(a: seq<int>, b: seq<int>, c: seq<int>)
    ensures a + (b + c) == (a + b) + c
  {
  }

  /** Appending distinct ids none of which is already present keeps a sequence
      of ids distinct. */
  lemma DistinctAppend(n: int, a: seq<int>, b: seq<int>)
    requires InRange(n, a) && Distinct(a) && InRange(n, b) && Distinct(b)
    requires forall i :: 0 <= i < |b| ==> b[i] !in a
    ensures InRange(n, a + b) && Distinct(a + b)
  {
    forall i, j | 0 <= i < j < |a + b|
      ensures (a + b)[i] != (a + b)[j]
    {
      if i < |a| && j >= |a| {
        assert (a + b)[i] == a[i] && (a + b)[j] == b[j - |a|];
      }
    }
  }

  /** Pigeonhole: a sequence of distinct ids in [0, n) has at most n elements. */
  lemma DistinctBounded(n: nat, p: seq<int>)
    requires InRange(n, p) && Distinct(p)
    ensures |p| <= n
  {
    ElementsCard(p);
    IdsCard(n);
    var a, b := Elements(p), Ids(n);
    assert a <= b;
    assert b == a + (b - a);
    assert a * (b - a) == {};
  }

  /** Position k of `edges` holds the vertex the walk moves to when the vertices
      of `visited` are used: an unvisited neighbour whose distance is the largest
      among the unvisited neighbours, and the first such in list order (the scan
      replaces its candidate only on a strictly larger distance). */
  predicate IsFirstFarthest(edges: seq<int>, visited: seq<int>, dist: seq<int>, k: int)
  {
    (forall j :: 0 <= j < |edges| ==> 0 <= edges[j] < |dist|) &&
    0 <= k < |edges| && edges[k] !in visited &&
    (forall j :: 0 <= j < k && edges[j] !in visited ==> dist[edges[j]] < dist[edges[k]]) &&
    (forall j :: k < j < |edges| && edges[j] !in visited ==> dist[edges[j]] <= dist[edges[k]])
  }

  /** The list order and the strict comparison make the choice unique. */
  lemma FirstFarthestUnique(edges: seq<int>, visited: seq<int>, dist: seq<int>, k1: int, k2: int)
    requires IsFirstFarthest(edges, visited, dist, k1) && IsFirstFarthest(edges, visited, dist, k2)
    ensures k1 == k2
  {
  }

  /** w is the vertex the scan of `edges` settles on when `visited` are used. */
  predicate IsChoice(edges: seq<int>, visited: seq<int>, dist: seq<int>, w: int)
  {
    exists k :: 0 <= k < |edges| && edges[k] == w && IsFirstFarthest(edges, visited, dist, k)
  }

  /** After the vertices of `prefix` have been used, in that order, the walk moves
      from the last of them to w. */
  predicate Step(adj: seq<seq<int>>, dist: seq<int>, prefix: seq<int>, w: int)
  {
    |prefix| > 0 && 0 <= prefix[|prefix| - 1] < |adj| &&
    IsChoice(adj[prefix[|prefix| - 1]], prefix, dist, w)
  }

  /** From a given prefix the walk has at most one way to go on. */
  lemma StepUnique(adj: seq<seq<int>>, dist: seq<int>, prefix: seq<int>, w1: int, w2: int)
    requires Step(adj, dist, prefix, w1) && Step(adj, dist, prefix, w2)
    ensures w1 == w2
  {
    var edges := adj[prefix[|prefix| - 1]];
    var k1 :| 0 <= k1 < |edges| && edges[k1] == w1 && IsFirstFarthest(edges, prefix, dist, k1);
    var k2 :| 0 <= k2 < |edges| && edges[k2] == w2 && IsFirstFarthest(edges, prefix, dist, k2);
    FirstFarthestUnique(edges, prefix, dist, k1, k2);
  }

  /** The last vertex of p has no neighbour outside p: the walk ends there. */
  predicate Stuck(adj: seq<seq<int>>, p: seq<int>)
  {
    |p| > 0 && 0 <= p[|p| - 1] < |adj| &&
    forall u :: u in adj[p[|p| - 1]] ==> u in p
  }

  /** p is the whole walk from `start` under the labels `dist`: every move is the
      greedy choice and the walk stops exactly where no unused neighbour is left. */
  predicate IsGreedyWalk(adj: seq<seq<int>>, dist: seq<int>, start: int, p: seq<int>)
  {
    WellFormed(adj) && |dist| == |adj| &&
    |p| > 0 && p[0] == start && 0 <= start < |adj| &&
    (forall i {:trigger Step(adj, dist, p[..i], p[i])} :: 1 <= i < |p| ==> Step(adj, dist, p[..i], p[i])) &&
    Stuck(adj, p)
  }

  /** A greedy walk is a simple path, so it has at most |adj| vertices. */
  lemma GreedyWalkIsSimplePath(adj: seq<seq<int>>, dist: seq<int>, start: int, p: seq<int>)
    requires IsGreedyWalk(adj, dist, start, p)
    ensures IsSimplePath(adj, p) && |p| <= |adj|
  {
    forall i | 1 <= i < |p| ensures 0 <= p[i] < |adj| {
      assert Step(adj, dist, p[..i], p[i]);
    }
    assert InRange(|adj|, p);
    forall i | 1 <= i < |p|
      ensures p[i] in adj[p[i - 1]] && p[i] !in p[..i]
    {
      assert Step(adj, dist, p[..i], p[i]);
      var k :| 0 <= k < |adj[p[i - 1]]| && adj[p[i - 1]][k] == p[i] &&
               IsFirstFarthest(adj[p[i - 1]], p[..i], dist, k);
    }
    forall i, j | 0 <= i < j < |p|
      ensures p[i] != p[j]
    {
      assert p[i] == p[..j][i];
    }
    forall i | 0 <= i < |p| - 1 ensures p[i + 1] in adj[p[i]] {
      assert p[(i + 1) - 1] == p[i];
    }
    DistinctBounded(|adj|, p);
  }

  /** The walk is determined by the graph, the labels and the start vertex: two
      greedy walks from the same start under the same labels are equal. */
  lemma GreedyWalkUnique(adj: seq<seq<int>>, dist: seq<int>, start: int, p: seq<int>, q: seq<int>)
    requires IsGreedyWalk(adj, dist, start, p) && IsGreedyWalk(adj, dist, start, q)
    ensures p == q
  {
    var m := if |p| < |q| then |p| else |q|;
    AgreeUpTo(adj, dist, start, p, q, m);
    if |p| < |q| {
      assert q[..|p|] == p;
      StuckPrefixCannotStep(adj, dist, start, q, p);
    } else if |q| < |p| {
      assert p[..|q|] == q;
      StuckPrefixCannotStep(adj, dist, start, p, q);
    } else {
      assert p == p[..m] && q == q[..m];
    }
  }

  /** Two greedy walks from the same start agree on their first i vertices. */
  lemma {:induction false} AgreeUpTo(adj: seq<seq<int>>, dist: seq<int>, start: int, p: seq<int>, q: seq<int>, i: int)
    requires IsGreedyWalk(adj, dist, start, p) && IsGreedyWalk(adj, dist, start, q)
    requires 1 <= i <= |p| && i <= |q|
    ensures p[..i] == q[..i]
  {
    if i == 1 {
      assert p[..1] == [start] == q[..1];
    } else {
      AgreeUpTo(adj, dist, start, p, q, i - 1);
      assert Step(adj, dist, p[..i - 1], p[i - 1]);
      assert Step(adj, dist, q[..i - 1], q[i - 1]);
      StepUnique(adj, dist, p[..i - 1], p[i - 1], q[i - 1]);
      assert p[..i] == p[..i - 1] + [p[i - 1]];
      assert q[..i] == q[..i - 1] + [q[i - 1]];
    }
  }

  /** A walk is never stuck at a proper prefix of itself. */
  lemma StuckPrefixCannotStep(adj: seq<seq<int>>, dist: seq<int>, start: int, long: seq<int>, short: seq<int>)
    requires IsGreedyWalk(adj, dist, start, long)
    requires 0 < |short| < |long| && long[..|short|] == short
    ensures !Stuck(adj, short)
  {
    var i := |short|;
    assert Step(adj, dist, long[..i], long[i]);
    var v := short[i - 1];
    var k :| 0 <= k < |adj[v]| && adj[v][k] == long[i] && IsFirstFarthest(adj[v], short, dist, k);
    assert long[i] in adj[v] && long[i] !in short;
  }

  /** The state of the walk at the top of its loop: the vertices used so far, in
      order, and the stack, which never holds more than one vertex. While nothing
      is used the stack holds the start; afterwards every move so far was the
      greedy choice, the stacked vertex is the next greedy choice, and an empty
      stack means the last vertex is stuck. */
  predicate WalkSoFar(adj: seq<seq<int>>, dist: seq<int>, start: int, p: seq<int>, stack: seq<int>)
  {
    WellFormed(adj) && |dist| == |adj| && 0 <= start < |adj| &&
    |stack| <= 1 && InRange(|adj|, p) && Distinct(p) && InRange(|adj|, stack) &&
    (p == [] ==> stack == [start]) &&
    (p != [] ==>
      p[0] == start &&
      (forall i {:trigger Step(adj, dist, p[..i], p[i])} :: 1 <= i < |p| ==> Step(adj, dist, p[..i], p[i])) &&
      (stack == [] ==> Stuck(adj, p)) &&
      (stack != [] ==> Step(adj, dist, p, stack[0]))) &&
    (stack != [] ==> stack[0] !in p)
  }

  /** Every move of p + [v] is greedy when every move of p was and v is the
      greedy choice after p (or p is empty). */
  lemma StepsExtend(adj: seq<seq<int>>, dist: seq<int>, p: seq<int>, v: int)
    requires forall i {:trigger Step(adj, dist, p[..i], p[i])} :: 1 <= i < |p| ==> Step(adj, dist, p[..i], p[i])
    requires p != [] ==> Step(adj, dist, p, v)
    ensures forall i {:trigger Step(adj, dist, (p + [v])[..i], (p + [v])[i])} ::
              1 <= i < |p| + 1 ==> Step(adj, dist, (p + [v])[..i], (p + [v])[i])
  {
    var p1 := p + [v];
    forall i | 1 <= i < |p1|
      ensures Step(adj, dist, p1[..i], p1[i])
    {
      if i < |p| {
        assert p1[..i] == p[..i] && p1[i] == p[i];
      } else {
        assert p1[..i] == p;
      }
    }
  }

  /** One turn of the walk: the stacked vertex v is popped and used, and the scan
      of its neighbours either pushes the greedy choice w or finds every
      neighbour used. */
  lemma WalkAdvance(adj: seq<seq<int>>, dist: seq<int>, start: int, p: seq<int>, v: int, w: int, stack1: seq<int>)
    requires WalkSoFar(adj, dist, start, p, [v])
    requires w == -1 ==> stack1 == [] && forall u :: u in adj[v] ==> u in p + [v]
    requires w != -1 ==> stack1 == [w] && IsChoice(adj[v], p + [v], dist, w)
    ensures WalkSoFar(adj, dist, start, p + [v], stack1)
    ensures |p| + 1 + |stack1| <= |adj|
  {
    var p1 := p + [v];
    StepsExtend(adj, dist, p, v);
    assert InRange(|adj|, p1) && Distinct(p1);
    assert p1[0] == start;
    if w != -1 {
      var k :| 0 <= k < |adj[v]| && adj[v][k] == w && IsFirstFarthest(adj[v], p1, dist, k);
      assert Step(adj, dist, p1, w);
      assert InRange(|adj|, p1 + [w]) && Distinct(p1 + [w]);
      DistinctBounded(|adj|, p1 + [w]);
    } else {
      assert Stuck(adj, p1);
      DistinctBounded(|adj|, p1);
    }
  }

  /** With the stack empty the walk is finished: it is the greedy walk from start. */
  lemma WalkFinished(adj: seq<seq<int>>, dist: seq<int>, start: int, p: seq<int>)
    requires WalkSoFar(adj, dist, start, p, [])
    ensures IsGreedyWalk(adj, dist, start, p)
  {
  }
}
