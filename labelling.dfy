/** What createAuxiliaryGraph leaves behind, stated over snapshots of the used
    and distance arrays: the record of the breadth-first discovery, the closure of
    the discovered set, and the running choice of the farthest vertex. The step
    lemmas carry one discovery; the remaining lemmas say what a finished record
    means for the graph. */
module Labelling {
  import opened Paths

  /** The root has no neighbour other than itself (self-loops only, or none). */
  predicate Isolated(adj: seq<seq<int>>, root: int)
    requires 0 <= root < |adj|
  {
    forall u :: u in adj[root] ==> u == root
  }

  /** The discovery record so far: `order` lists the pushed vertices (distinct,
      starting at root), the used flags mark exactly them, root has label 0 and
      the vertex at position k > 0 was discovered from the one at position
      parent[k] < k, with a label one larger. Every label is non-negative. */
  ghost predicate Labelled(adj: seq<seq<int>>, used: seq<bool>, dist: seq<int>,
                           root: int, order: seq<int>, parent: seq<int>)
  {
    WellFormed(adj) && |used| == |adj| && |dist| == |adj| &&
    (forall v :: 0 <= v < |dist| ==> dist[v] >= 0) &&
    0 <= root < |adj| &&
    InRange(|adj|, order) && Distinct(order) && |order| > 0 && order[0] == root &&
    (forall v :: 0 <= v < |adj| ==> (used[v] <==> v in order)) &&
    dist[root] == 0 &&
    |parent| == |order| &&
    forall k :: 1 <= k < |order| ==>
      0 <= parent[k] < k && order[k] in adj[order[parent[k]]] &&
      dist[order[k]] == dist[order[parent[k]]] + 1
  }

  /** The first h discovered vertices have been taken off the queue: each of their
      neighbours is used. */
  ghost predicate Expanded(adj: seq<seq<int>>, used: seq<bool>, order: seq<int>, h: int)
    requires |used| == |adj| && InRange(|adj|, order) && WellFormed(adj)
  {
    forall i, k :: 0 <= i < h && i < |order| && 0 <= k < |adj[order[i]]| ==> used[adj[order[i]][k]]
  }

  /** Vertices not discovered keep the labels they had before the run. */
  ghost predicate Stale(used: seq<bool>, dist: seq<int>, before: seq<int>)
  {
    |used| == |dist| == |before| &&
    forall v :: 0 <= v < |used| && !used[v] ==> dist[v] == before[v]
  }

  /** The running farthest vertex: none (-1, distance -1) while only root is
      discovered; otherwise the vertex at position fk > 0, whose label is the
      largest among the discovered vertices other than root and strictly larger
      than the label of every vertex discovered before it. */
  ghost predicate FarthestSoFar(dist: seq<int>, order: seq<int>, farthest: int, farthestDistance: int, fk: int)
    requires InRange(|dist|, order)
  {
    (|order| <= 1 ==> farthest == -1 && farthestDistance == -1) &&
    (|order| > 1 ==>
      1 <= fk < |order| && farthest == order[fk] && farthestDistance == dist[farthest] &&
      (forall j :: 1 <= j < |order| ==> dist[order[j]] <= farthestDistance) &&
      (forall j :: 1 <= j < fk ==> dist[order[j]] < farthestDistance))
  }

  /** The state of a run between two steps: the record, the stale labels, the
      first h positions expanded and the running farthest vertex. */
  ghost predicate Progress(adj: seq<seq<int>>, used: seq<bool>, dist: seq<int>, before: seq<int>,
                           root: int, order: seq<int>, parent: seq<int>, h: int,
                           farthest: int, farthestDistance: int, fk: int)
  {
    // Bound to a name so that a caller asserting Progress does not split it into its conjuncts.
    var state := Labelled(adj, used, dist, root, order, parent) && Stale(used, dist, before) &&
                 Expanded(adj, used, order, h) && FarthestSoFar(dist, order, farthest, farthestDistance, fk);
    state
  }

  /** One discovery: `next`, a neighbour of the vertex taken off the queue at
      position pos, is not used yet; it is marked, labelled one more than its
      discoverer and appended to the record, with its discoverer's position. */
  lemma DiscoverLabelled(adj: seq<seq<int>>, used: seq<bool>, dist: seq<int>, before: seq<int>,
                         root: int, order: seq<int>, parent: seq<int>, pos: int, next: int,
                         used1: seq<bool>, dist1: seq<int>)
    requires Labelled(adj, used, dist, root, order, parent) && Stale(used, dist, before)
    requires 0 <= pos < |order| && next in adj[order[pos]] && !used[next]
    requires used1 == used[next := true]
    requires dist1 == dist[next := dist[order[pos]] + 1]
    ensures Labelled(adj, used1, dist1, root, order + [next], parent + [pos])
    ensures Stale(used1, dist1, before)
    ensures |order| + 1 <= |adj|
  {
    var current := order[pos];
    var order1 := order + [next];
    var parent1 := parent + [pos];
    assert next !in order;
    assert Distinct(order1);
    assert InRange(|adj|, order1);
    DistinctBounded(|adj|, order1);
    assert next != root;
    forall v | 0 <= v < |adj|
      ensures used1[v] <==> v in order1
    {
      assert v in order1 <==> v in order || v == next;
    }
    forall k | 1 <= k < |order1|
      ensures 0 <= parent1[k] < k && order1[k] in adj[order1[parent1[k]]] &&
              dist1[order1[k]] == dist1[order1[parent1[k]]] + 1
    {
      if k < |order| {
        assert order1[k] == order[k] && order1[parent1[k]] == order[parent[k]];
        assert order[k] != next && order[parent[k]] != next;
      } else {
        assert order1[parent1[k]] == current && current != next;
      }
    }
  }

  /** A discovery keeps the first pos positions expanded. */
  lemma DiscoverExpanded(adj: seq<seq<int>>, used: seq<bool>, order: seq<int>, pos: int, next: int)
    requires |used| == |adj| && InRange(|adj|, order) && WellFormed(adj) && 0 <= next < |adj|
    requires 0 <= pos < |order| && Expanded(adj, used, order, pos)
    ensures Expanded(adj, used[next := true], order + [next], pos)
  {
    var order1 := order + [next];
    forall i, k | 0 <= i < pos && i < |order1| && 0 <= k < |adj[order1[i]]|
      ensures used[next := true][adj[order1[i]][k]]
    {
      assert order1[i] == order[i];
    }
  }

  /** A discovery updates the running farthest vertex as the strict comparison of
      the source does: the newcomer replaces it only when its label is larger. */
  lemma DiscoverFarthest(dist: seq<int>, order: seq<int>, next: int,
                         farthest: int, farthestDistance: int, fk: int,
                         dist1: seq<int>, farthest1: int, farthestDistance1: int, fk1: int)
    requires InRange(|dist|, order) && 0 <= next < |dist| && next !in order && |order| > 0
    requires |dist1| == |dist| && dist1[next] >= 1
    requires forall v :: 0 <= v < |dist| && v != next ==> dist1[v] == dist[v]
    requires FarthestSoFar(dist, order, farthest, farthestDistance, fk)
    requires farthestDistance < dist1[next] ==>
               farthest1 == next && farthestDistance1 == dist1[next] && fk1 == |order|
    requires farthestDistance >= dist1[next] ==>
               farthest1 == farthest && farthestDistance1 == farthestDistance && fk1 == fk
    ensures FarthestSoFar(dist1, order + [next], farthest1, farthestDistance1, fk1)
  {
    var order1 := order + [next];
    assert forall j :: 0 <= j < |order| ==> order1[j] == order[j] && order[j] != next;
  }

  /** Taking the vertex at position pos off the queue once all its neighbours
      have been scanned extends the expanded prefix by one. */
  lemma Expand(adj: seq<seq<int>>, used: seq<bool>, order: seq<int>, pos: int)
    requires |used| == |adj| && InRange(|adj|, order) && WellFormed(adj)
    requires 0 <= pos < |order| && Expanded(adj, used, order, pos)
    requires forall u :: u in adj[order[pos]] ==> used[u]
    ensures Expanded(adj, used, order, pos + 1)
  {
    forall i, k | 0 <= i <= pos && i < |order| && 0 <= k < |adj[order[i]]|
      ensures used[adj[order[i]][k]]
    {
      if i == pos {
        assert adj[order[i]][k] in adj[order[pos]];
      }
    }
  }

  /** What createAuxiliaryGraph returns when it does not return -1: a vertex
      discovered after root whose label is the largest, and the first one
      discovered with that label. */
  ghost predicate IsFarthest(dist: seq<int>, order: seq<int>, farthest: int)
    requires InRange(|dist|, order)
  {
    exists k :: 1 <= k < |order| && order[k] == farthest &&
      (forall j :: 1 <= j < |order| ==> dist[order[j]] <= dist[farthest]) &&
      (forall j :: 1 <= j < k ==> dist[order[j]] < dist[farthest])
  }

  /** The running farthest vertex, once anything beyond root is discovered, is
      the farthest one: it is not root, its label is at least 1 and no discovered
      vertex has a larger label. */
  lemma FarthestIsMaximal(adj: seq<seq<int>>, used: seq<bool>, dist: seq<int>,
                          root: int, order: seq<int>, parent: seq<int>,
                          farthest: int, farthestDistance: int, fk: int)
    requires Labelled(adj, used, dist, root, order, parent)
    requires FarthestSoFar(dist, order, farthest, farthestDistance, fk) && farthest != -1
    ensures IsFarthest(dist, order, farthest)
    ensures 0 <= farthest < |adj| && farthest != root && used[farthest] && dist[farthest] >= 1
    ensures forall v :: 0 <= v < |adj| && used[v] ==> dist[v] <= dist[farthest]
  {
    assert order[fk] != order[0];
    assert dist[order[parent[fk]]] >= 0;
    forall v | 0 <= v < |adj| && used[v]
      ensures dist[v] <= dist[farthest]
    {
      var i :| 0 <= i < |order| && order[i] == v;
    }
  }

  /** A finished labelling: the record, with every discovered vertex expanded. */
  ghost predicate IsLabelling(adj: seq<seq<int>>, used: seq<bool>, dist: seq<int>,
                              root: int, order: seq<int>, parent: seq<int>)
  {
    // Bound to a name so that a caller asserting IsLabelling does not split it into its conjuncts.
    var finished := Labelled(adj, used, dist, root, order, parent) && Expanded(adj, used, order, |order|);
    finished
  }

  /** The vertices one scan of a neighbour list pushes, given the used flags
      before the scan: each entry not used yet is pushed and becomes used, so the
      result lists the entries not used before, each once, in list order. */
  function Fresh(edges: seq<int>, used: seq<bool>): seq<int>
    requires InRange(|used|, edges)
  {
    if edges == [] then []
    else if used[edges[0]] then Fresh(edges[1..], used)
    else [edges[0]] + Fresh(edges[1..], used[edges[0] := true])
  }

  /** The fresh vertices are distinct entries of the list that were not used,
      and every entry of the list was used or is fresh. */
  lemma {:induction false} FreshVertices(edges: seq<int>, used: seq<bool>)
    requires InRange(|used|, edges)
    ensures forall x :: x in Fresh(edges, used) ==> x in edges && !used[x]
    ensures forall x :: x in edges ==> used[x] || x in Fresh(edges, used)
    ensures Distinct(Fresh(edges, used))
  {
    if edges != [] {
      var rest := edges[1..];
      assert edges == [edges[0]] + rest;
      if used[edges[0]] {
        FreshVertices(rest, used);
      } else {
        var marked := used[edges[0] := true];
        FreshVertices(rest, marked);
        var tail := Fresh(rest, marked);
        assert marked[edges[0]];
        assert forall i :: 0 <= i < |tail| ==> tail[i] in tail && tail[i] != edges[0];
      }
    }
  }

  /** Fresh over a list with a given first entry. */
  lemma FreshCons(x: int, rest: seq<int>, used: seq<bool>)
    requires 0 <= x < |used| && InRange(|used|, rest)
    ensures InRange(|used|, [x] + rest)
    ensures Fresh([x] + rest, used) == if used[x] then Fresh(rest, used) else [x] + Fresh(rest, used[x := true])
  {
    assert ([x] + rest)[1..] == rest;
  }

    /** One step of the scan over the neighbour list `edges` of the vertex at
      position pos: `seen` and `seenParent` are the order and parents before
      looking at edges[j]; the step appends edges[j] with parent pos exactly when
      it was not used. Afterwards the rest of the scan still appends the fresh
      vertices of the whole list, and every vertex pushed by this scan has
      parent pos. */
  lemma ScanStep(edges: seq<int>, j: int, used: seq<bool>, used1: seq<bool>, pos: int,
                 order: seq<int>, parent: seq<int>, seen: seq<int>, seenParent: seq<int>,
                 order1: seq<int>, parent1: seq<int>, whole: seq<int>)
    requires InRange(|used|, edges) && 0 <= j < |edges|
    requires seen + Fresh(edges[j..], used) == whole
    requires |order| <= |seen| && seenParent == parent + Repeat(pos, |seen| - |order|)
    requires used[edges[j]] ==> order1 == seen && parent1 == seenParent && used1 == used
    requires !used[edges[j]] ==>
               order1 == seen + [edges[j]] && parent1 == seenParent + [pos] && used1 == used[edges[j] := true]
    ensures InRange(|used1|, edges)
    ensures order1 + Fresh(edges[j + 1..], used1) == whole
    ensures |order| <= |order1| && parent1 == parent + Repeat(pos, |order1| - |order|)
  {
    var rest := edges[j + 1..];
    assert edges[j..] == [edges[j]] + rest;
    FreshCons(edges[j], rest, used);
    if !used[edges[j]] {
      Associative(seen, [edges[j]], Fresh(rest, used1));
      RepeatOneMore(pos, |seen| - |order|);
      Associative(parent, Repeat(pos, |seen| - |order|), [pos]);
    }
  }

  /** Once every neighbour of the vertex at position pos has been looked at,
      the fresh ones have been appended to the order, so every neighbour is used. */
  lemma ScanComplete(adj: seq<seq<int>>, used0: seq<bool>, dist0: seq<int>, used: seq<bool>, dist: seq<int>,
                     root: int, order: seq<int>, parent: seq<int>, order1: seq<int>, parent1: seq<int>, pos: int)
    requires Labelled(adj, used0, dist0, root, order, parent) && 0 <= pos < |order|
    requires Labelled(adj, used, dist, root, order1, parent1)
    requires order1 == order + Fresh(adj[order[pos]], used0)
    ensures forall u :: u in adj[order[pos]] ==> used[u]
  {
    var edges := adj[order[pos]];
    FreshVertices(edges, used0);
    forall u | u in edges
      ensures used[u]
    {
      if used0[u] {
        assert u in order1;
      }
    }
  }

  /** The used flags of n vertices when exactly the vertices of order are used. */
  function Marks(n: nat, order: seq<int>): seq<bool>
  {
    seq(n, v => v in order)
  }

  /** n copies of x: the parent positions of the vertices pushed by one scan. */
  function Repeat(x: int, n: nat): seq<int>
  {
    seq(n, _ => x)
  }

  /** One more copy. */
  lemma RepeatOneMore(x: int, n: nat)
    ensures Repeat(x, n + 1) == Repeat(x, n) + [x]
  {
    assert Repeat(x, n + 1) == Repeat(x, n) + [x];
  }

  /** The queue discipline of createAuxiliaryGraph as a reference definition:
      from the record (order, parent) with the first pos vertices expanded, the
      vertex at position pos pushes its fresh neighbours in list order, each
      recording pos as its parent, until the queue is empty. */
  function BfsFrom(adj: seq<seq<int>>, order: seq<int>, parent: seq<int>, pos: int): (seq<int>, seq<int>)
    requires WellFormed(adj) && InRange(|adj|, order) && Distinct(order) && 0 <= pos <= |order|
    decreases |adj| - pos
  {
    if pos == |order| then (order, parent)
    else
      DistinctBounded(|adj|, order);
      ChildrenFit(adj, order, pos);
      var children := Children(adj, order, pos);
      var order1 := order + children;
      BfsFrom(adj, order1, parent + Repeat(pos, |children|), pos + 1)
  }

  /** The vertices the vertex at position pos pushes when exactly those of
      order are used. */
  function Children(adj: seq<seq<int>>, order: seq<int>, pos: int): seq<int>
    requires WellFormed(adj) && 0 <= pos < |order| && 0 <= order[pos] < |adj|
  {
    Fresh(adj[order[pos]], Marks(|adj|, order))
  }

  /** Appending the children keeps the order distinct and in range. */
  lemma ChildrenFit(adj: seq<seq<int>>, order: seq<int>, pos: int)
    requires WellFormed(adj) && InRange(|adj|, order) && Distinct(order) && 0 <= pos < |order|
    ensures InRange(|adj|, order + Children(adj, order, pos)) && Distinct(order + Children(adj, order, pos))
  {
    var used := Marks(|adj|, order);
    FreshVertices(adj[order[pos]], used);
    var children := Fresh(adj[order[pos]], used);
    forall i | 0 <= i < |children|
      ensures 0 <= children[i] < |adj| && children[i] !in order
    {
      assert children[i] in children;
    }
    DistinctAppend(|adj|, order, children);
  }

  /** The record a complete breadth-first run from root produces. */
  function Bfs(adj: seq<seq<int>>, root: int): (seq<int>, seq<int>)
    requires WellFormed(adj) && 0 <= root < |adj|
  {
    BfsFrom(adj, [root], [0], 0)
  }

  /** The record so far, with its first h positions expanded, continues under the
      reference definition into the record `target` (the complete breadth-first
      record from root, Bfs(adj, root), in a run). */
  ghost predicate Queued(adj: seq<seq<int>>, order: seq<int>, parent: seq<int>, h: int,
                         target: (seq<int>, seq<int>))
  {
    // Bound to a name so that a caller asserting Queued does not split it into its conjuncts.
    var agrees := WellFormed(adj) && InRange(|adj|, order) && Distinct(order) && 0 <= h <= |order| &&
                  BfsFrom(adj, order, parent, h) == target;
    agrees
  }

  /** A run starts with root alone on the queue. */
  lemma QueuedStart(adj: seq<seq<int>>, root: int)
    requires WellFormed(adj) && 0 <= root < |adj|
    ensures Queued(adj, [root], [0], 0, Bfs(adj, root))
  {
  }

  /** Expanding position pos as the reference definition does keeps the record
      on course. */
  lemma BfsExpand(adj: seq<seq<int>>, root: int, order: seq<int>, parent: seq<int>, pos: int,
                  used: seq<bool>, dist: seq<int>, order1: seq<int>, parent1: seq<int>,
                  target: (seq<int>, seq<int>))
    requires Queued(adj, order, parent, pos, target) && pos < |order|
    requires Labelled(adj, used, dist, root, order, parent)
    requires order1 == order + Fresh(adj[order[pos]], used)
    requires parent1 == parent + Repeat(pos, |order1| - |order|)
    ensures Queued(adj, order1, parent1, pos + 1, target)
  {
    assert used == Marks(|adj|, order);
    ChildrenFit(adj, order, pos);
  }

  /** Once every discovered vertex is expanded, the record is the complete one. */
  lemma QueuedDone(adj: seq<seq<int>>, order: seq<int>, parent: seq<int>, target: (seq<int>, seq<int>))
    requires Queued(adj, order, parent, |order|, target)
    ensures (order, parent) == target
  {
  }

  /** The state of createAuxiliaryGraph between two rounds of its outer loop:
      the queue holds the discovered vertices from position h of the order on,
      the labelling has progressed up to h, and the record so far is the one
      the first-in first-out queue produces from root. */
  ghost predicate Searching(adj: seq<seq<int>>, used: seq<bool>, dist: seq<int>, before: seq<int>,
                            root: int, queue: seq<int>, order: seq<int>, parent: seq<int>, h: int,
                            farthest: int, farthestDistance: int, fk: int, target: (seq<int>, seq<int>))
  {
    // Bound to a name so that a caller asserting Searching does not split it into its conjuncts.
    var between := 0 <= h <= |order| <= |adj| && queue == order[h..] &&
                   Progress(adj, used, dist, before, root, order, parent, h, farthest, farthestDistance, fk) &&
                   Queued(adj, order, parent, h, target);
    between
  }

  /** With root alone marked, labelled 0 and queued, the search starts. */
  lemma SearchStart(adj: seq<seq<int>>, used: seq<bool>, dist: seq<int>, before: seq<int>, root: int)
    requires WellFormed(adj) && 0 <= root < |adj| && |used| == |adj| && |dist| == |adj| && |before| == |adj|
    requires forall v :: 0 <= v < |adj| ==> (used[v] <==> v == root)
    requires forall v :: 0 <= v < |adj| && v != root ==> dist[v] == before[v]
    requires dist[root] == 0 && forall v :: 0 <= v < |adj| ==> dist[v] >= 0
    ensures Searching(adj, used, dist, before, root, [root], [root], [0], 0, -1, -1, 0, Bfs(adj, root))
  {
    assert forall v :: 0 <= v < |adj| ==> (used[v] <==> v in [root]);
    QueuedStart(adj, root);
  }

  /** When the queue runs empty, every discovered vertex has been expanded: the
      labelling is complete, its record is the reference one, and the returned
      vertex is -1 exactly when root is isolated and the farthest vertex otherwise. */
  lemma SearchDone(adj: seq<seq<int>>, used: seq<bool>, dist: seq<int>, before: seq<int>,
                   root: int, order: seq<int>, parent: seq<int>, h: int,
                   farthest: int, farthestDistance: int, fk: int)
    requires WellFormed(adj) && 0 <= root < |adj|
    requires Searching(adj, used, dist, before, root, [], order, parent, h, farthest, farthestDistance, fk, Bfs(adj, root))
    ensures IsLabelling(adj, used, dist, root, order, parent) && Stale(used, dist, before)
    ensures (order, parent) == Bfs(adj, root)
    ensures farthest == -1 <==> |order| == 1
    ensures farthest == -1 <==> Isolated(adj, root)
    ensures farthest != -1 ==>
              IsFarthest(dist, order, farthest) &&
              0 <= farthest < |adj| && farthest != root && used[farthest] && dist[farthest] >= 1 &&
              forall v :: 0 <= v < |adj| && used[v] ==> dist[v] <= dist[farthest]
  {
    assert h == |order|;
    LabellingResult(adj, used, dist, before, root, order, parent, farthest, farthestDistance, fk);
    QueuedDone(adj, order, parent, Bfs(adj, root));
  }

  /** The discovered set is closed under the edge lists. */
  lemma ClosedUnderEdges(adj: seq<seq<int>>, used: seq<bool>, dist: seq<int>,
                         root: int, order: seq<int>, parent: seq<int>, v: int, u: int)
    requires IsLabelling(adj, used, dist, root, order, parent)
    requires 0 <= v < |adj| && used[v] && u in adj[v]
    ensures used[u]
  {
    var i :| 0 <= i < |order| && order[i] == v;
    var k :| 0 <= k < |adj[v]| && adj[v][k] == u;
  }

  /** Nothing is discovered beyond root exactly when root is isolated; this is
      when createAuxiliaryGraph returns -1. */
  lemma NothingDiscoveredIffIsolated(adj: seq<seq<int>>, used: seq<bool>, dist: seq<int>,
                                     root: int, order: seq<int>, parent: seq<int>)
    requires IsLabelling(adj, used, dist, root, order, parent)
    ensures |order| == 1 <==> Isolated(adj, root)
  {
    if |order| > 1 {
      assert parent[1] == 0;
      assert order[1] in adj[root] && order[1] != order[0];
    } else {
      forall u | u in adj[root] ensures u == root {
        ClosedUnderEdges(adj, used, dist, root, order, parent, root, u);
      }
    }
  }

  /** What a finished run returns: -1 exactly when only root is discovered,
      which is exactly when root is isolated, and otherwise the farthest vertex. */
  lemma LabellingResult(adj: seq<seq<int>>, used: seq<bool>, dist: seq<int>, before: seq<int>,
                        root: int, order: seq<int>, parent: seq<int>,
                        farthest: int, farthestDistance: int, fk: int)
    requires Progress(adj, used, dist, before, root, order, parent, |order|, farthest, farthestDistance, fk)
    ensures IsLabelling(adj, used, dist, root, order, parent) && Stale(used, dist, before)
    ensures farthest == -1 <==> |order| == 1
    ensures farthest == -1 <==> Isolated(adj, root)
    ensures farthest != -1 ==>
              IsFarthest(dist, order, farthest) &&
              0 <= farthest < |adj| && farthest != root && used[farthest] && dist[farthest] >= 1 &&
              forall v :: 0 <= v < |adj| && used[v] ==> dist[v] <= dist[farthest]
  {
    NothingDiscoveredIffIsolated(adj, used, dist, root, order, parent);
    if farthest != -1 {
      FarthestIsMaximal(adj, used, dist, root, order, parent, farthest, farthestDistance, fk);
    }
  }

  /** Every vertex reachable from root is discovered: walking the edge lists from
      root never leaves the used set. */
  lemma {:induction false} ReachableDiscovered(adj: seq<seq<int>>, used: seq<bool>, dist: seq<int>,
                                               root: int, order: seq<int>, parent: seq<int>, w: seq<int>)
    requires IsLabelling(adj, used, dist, root, order, parent)
    requires |w| > 0 && w[0] == root && Linked(adj, w)
    ensures forall i :: 0 <= i < |w| ==> used[w[i]]
  {
    if |w| > 1 {
      var init := w[..|w| - 1];
      assert Linked(adj, init);
      ReachableDiscovered(adj, used, dist, root, order, parent, init);
      assert used[init[|w| - 2]];
      ClosedUnderEdges(adj, used, dist, root, order, parent, w[|w| - 2], w[|w| - 1]);
    } else {
      assert root in order;
    }
  }

  /** The walk from root to the vertex at position k along the recorded
      discoverers. */
  ghost function TreePath(order: seq<int>, parent: seq<int>, k: nat): seq<int>
    requires |parent| == |order| && k < |order|
    requires forall i :: 1 <= i < |order| ==> 0 <= parent[i] < i
    decreases k
  {
    if k == 0 then [order[0]] else TreePath(order, parent, parent[k]) + [order[k]]
  }

  /** Every discovered vertex is reachable from root, by a walk with exactly
      label + 1 vertices: each label is the length of a walk from root. */
  lemma {:induction false} DiscoveredReachable(adj: seq<seq<int>>, used: seq<bool>, dist: seq<int>,
                                               root: int, order: seq<int>, parent: seq<int>, k: nat)
    requires Labelled(adj, used, dist, root, order, parent) && k < |order|
    ensures var w := TreePath(order, parent, k);
            |w| == dist[order[k]] + 1 && w[0] == root && w[|w| - 1] == order[k] && Linked(adj, w)
  {
    if k > 0 {
      DiscoveredReachable(adj, used, dist, root, order, parent, parent[k]);
      var w0 := TreePath(order, parent, parent[k]);
      var w := w0 + [order[k]];
      assert w[|w| - 2] == order[parent[k]];
      assert w[..|w| - 1] == w0;
    }
  }
}
