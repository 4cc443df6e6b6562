/** The greedy longest-path heuristic of L. L. Pongracz as the source runs it: a
    graph of Vertex records (edge list, used flag, distance label), a
    breadth-first labelling from a root, a farthest-first walk over the labels,
    and the driver that keeps the longest walk found over a range of roots. */
module LongestPath {
  import opened Adjacency
  import opened Paths
  import opened Labelling
  import Partition
  import PathOutput

  /** The neighbour lists the source builds from n and the edge list. */
  function AdjacencyLists(n: nat, edges: seq<Edge>): (adj: seq<seq<int>>)
    ensures |adj| == n
  {
    seq(n, x => Neighbours(edges, x))
  }

  /** A graph: the Vertex records of the source as three arrays indexed by vertex
      id. The edge lists are filled once; the used flags and the distance labels
      are transient state that each traversal overwrites. */
  class Graph {
    const adj: array<seq<int>>
    const used: array<bool>
    const distance: array<int>

    /** The arrays describe the same vertices, every edge list entry is a vertex
        id, and every label is a non-negative distance. */
    ghost predicate Valid()
      reads this, adj, distance
    {
      adj.Length == used.Length == distance.Length &&
      WellFormed(adj[..]) &&
      forall v :: 0 <= v < distance.Length ==> distance[v] >= 0
    }

    /** graph.size(). */
    function Size(): nat
      reads this
    {
      adj.Length
    }

    /** readUnweightedUndirectedGraph: n vertices with empty lists, then each edge
        (v, u) appends u to the list of v and v to the list of u. Flags and labels
        start value-initialised (false and 0). */
    constructor (n: nat, edges: seq<Edge>)
      requires EdgesInRange(n, edges)
      ensures Valid() && Size() == n
      ensures adj[..] == AdjacencyLists(n, edges)
      ensures forall v :: 0 <= v < n ==> !used[v] && distance[v] == 0
      ensures fresh(adj) && fresh(used) && fresh(distance)
    {
      var lists := new seq<int>[n](_ => []);
      for i := 0 to |edges|
        invariant forall x :: 0 <= x < n ==> lists[x] == Neighbours(edges[..i], x)
      {
        var v, u := edges[i].0, edges[i].1;
        lists[v] := lists[v] + [u];
        lists[u] := lists[u] + [v];
        assert edges[..i + 1][..i] == edges[..i];
      }
      assert edges[..|edges|] == edges;
      forall x, k | 0 <= x < n && 0 <= k < |lists[x]|
        ensures 0 <= lists[x][k] < n
      {
        NeighboursInRange(n, edges, x);
        assert lists[x][k] in Neighbours(edges, x);
      }
      assert WellFormed(lists[..]);
      adj := lists;
      used := new bool[n](_ => false);
      distance := new int[n](_ => 0);
    }

    /** The copy a worker receives: the graph is passed by value. */
    constructor Copy(g: Graph)
      requires g.Valid()
      ensures Valid()
      ensures adj[..] == g.adj[..] && used[..] == g.used[..] && distance[..] == g.distance[..]
      ensures fresh(adj) && fresh(used) && fresh(distance)
    {
      adj := new seq<int>[g.adj.Length](i requires 0 <= i < g.adj.Length reads g.adj => g.adj[i]);
      used := new bool[g.used.Length](i requires 0 <= i < g.used.Length reads g.used => g.used[i]);
      distance := new int[g.distance.Length](i requires 0 <= i < g.distance.Length reads g.distance => g.distance[i]);
    }

    /** The loop that clears every used flag before a traversal. */
    method ResetUsed()
      modifies used
      ensures forall v :: 0 <= v < used.Length ==> !used[v]
    {
      for i := 0 to used.Length
        invariant forall v :: 0 <= v < i ==> !used[v]
      {
        used[i] := false;
      }
    }

    /** One neighbour `next` of `current` (taken off the queue, at position pos
        of the discovery order) in createAuxiliaryGraph: when it is not used yet it is marked,
        pushed, labelled one more than current, and becomes the farthest vertex
        when its label is strictly larger than the farthest distance so far. */
    method Discover(root: int, current: int, next: int, q: seq<int>, farthest: int, farthestDistance: int,
                    ghost pos: int, ghost order: seq<int>, ghost parent: seq<int>, ghost fk: int,
                    ghost before: seq<int>)
      returns (q1: seq<int>, farthest1: int, farthestDistance1: int,
               ghost order1: seq<int>, ghost parent1: seq<int>, ghost fk1: int)
      requires 0 <= pos < |order| <= Size() && q == order[pos + 1..] && current == order[pos]
      requires Progress(adj[..], used[..], distance[..], before, root, order, parent, pos, farthest, farthestDistance, fk)
      requires next in adj[current]
      modifies used, distance
      ensures old(used[next]) ==> order1 == order && parent1 == parent && q1 == q && used[..] == old(used[..])
      ensures !old(used[next]) ==>
                order1 == order + [next] && parent1 == parent + [pos] && used[..] == old(used[..])[next := true]
      ensures order <= order1 && |order1| <= Size() && q1 == order1[pos + 1..]
      ensures used[next]
      ensures Progress(adj[..], used[..], distance[..], before, root, order1, parent1, pos, farthest1, farthestDistance1, fk1)
    {
      q1, farthest1, farthestDistance1, order1, parent1, fk1 := q, farthest, farthestDistance, order, parent, fk;
      if used[next] {
        return;
      }
      ghost var used0, distance0 := used[..], distance[..];
      used[next] := true;
      q1 := q + [next];
      distance[next] := distance[current] + 1;
      if farthestDistance < distance[next] {
        farthestDistance1 := distance[next];
        farthest1 := next;
        fk1 := |order|;
      }
      assert next in adj[..][order[pos]];
      assert used[..] == used0[next := true];
      assert distance[..] == distance0[next := distance0[order[pos]] + 1];
      DiscoverLabelled(adj[..], used0, distance0, before, root, order, parent, pos, next, used[..], distance[..]);
      DiscoverExpanded(adj[..], used0, order, pos, next);
      DiscoverFarthest(distance0, order, next, farthest, farthestDistance, fk,
                       distance[..], farthest1, farthestDistance1, fk1);
      order1, parent1 := order + [next], parent + [pos];
      assert order1[pos + 1..] == order[pos + 1..] + [next];
    }

    /** The inner loop of createAuxiliaryGraph: the vertex at position pos of the
        discovery order has just been taken off the queue; each of its neighbours that is not used
        yet is marked, labelled, pushed and compared with the running farthest. */
    method ScanNeighbours(root: int, current: int, q: seq<int>, farthest: int, farthestDistance: int,
                          ghost pos: int, ghost order: seq<int>, ghost parent: seq<int>, ghost fk: int,
                          ghost before: seq<int>)
      returns (q1: seq<int>, farthest1: int, farthestDistance1: int,
               ghost order1: seq<int>, ghost parent1: seq<int>, ghost fk1: int)
      requires 0 <= pos < |order| <= Size() && q == order[pos + 1..] && current == order[pos]
      requires Progress(adj[..], used[..], distance[..], before, root, order, parent, pos, farthest, farthestDistance, fk)
      modifies used, distance
      ensures pos < |order1| <= Size() && q1 == order1[pos + 1..]
      ensures order1 == order + Fresh(adj[current], old(used[..]))
      ensures parent1 == parent + Repeat(pos, |order1| - |order|)
      ensures Progress(adj[..], used[..], distance[..], before, root, order1, parent1, pos + 1, farthest1, farthestDistance1, fk1)
    {
      q1, farthest1, farthestDistance1, order1, parent1, fk1 := q, farthest, farthestDistance, order, parent, fk;
      var edges := adj[current];
      assert InRange(Size(), edges) by {
        assert edges == adj[..][order[pos]];
      }
      assert edges[0..] == edges;
      ghost var used0, distance0 := used[..], distance[..];
      for j := 0 to |edges|
        invariant InRange(Size(), edges)
        invariant pos < |order1| <= Size() && q1 == order1[pos + 1..]
        invariant |order| <= |order1| && order1 + Fresh(edges[j..], used[..]) == order + Fresh(edges, used0)
        invariant parent1 == parent + Repeat(pos, |order1| - |order|)
        invariant current == order1[pos]
        invariant Progress(adj[..], used[..], distance[..], before, root, order1, parent1, pos, farthest1, farthestDistance1, fk1)
      {
        ghost var seen, seenParent, usedBefore := order1, parent1, used[..];
        q1, farthest1, farthestDistance1, order1, parent1, fk1 :=
          Discover(root, current, edges[j], q1, farthest1, farthestDistance1, pos, order1, parent1, fk1, before);
        ScanStep(edges, j, usedBefore, used[..], pos, order, parent, seen, seenParent, order1, parent1,
                 order + Fresh(edges, used0));
      }
      assert edges[|edges|..] == [];
      ScanComplete(adj[..], used0, distance0, used[..], distance[..], root, order, parent, order1, parent1, pos);
      Expand(adj[..], used[..], order1, pos);
    }

    /** createAuxiliaryGraph: breadth-first labelling from root. The ghost results
        record the discovery order (the order of the pushes onto the queue) and,
        for each discovered vertex, the position of the vertex that discovered it. */
    method CreateAuxiliaryGraph(root: int) returns (farthest: int, ghost order: seq<int>, ghost parent: seq<int>)
      requires Valid() && 0 <= root < Size()
      modifies used, distance
      ensures Valid()
      ensures IsLabelling(adj[..], used[..], distance[..], root, order, parent)
      ensures (order, parent) == Bfs(adj[..], root)
      ensures Stale(used[..], distance[..], old(distance[..]))
      ensures farthest == -1 <==> |order| == 1
      ensures farthest == -1 <==> Isolated(adj[..], root)
      ensures farthest != -1 ==>
                IsFarthest(distance[..], order, farthest) &&
                0 <= farthest < Size() && farthest != root && used[farthest] && distance[farthest] >= 1 &&
                forall v :: 0 <= v < Size() && used[v] ==> distance[v] <= distance[farthest]
    {
      ghost var before := distance[..];
      ResetUsed();
      var q := [root];
      used[root] := true;
      distance[root] := 0;
      farthest := -1;
      var farthestDistance := -1;
      SearchStart(adj[..], used[..], distance[..], before, root);
      ghost var h, fk;
      farthest, farthestDistance, order, parent, h, fk :=
        Traverse(root, q, farthest, farthestDistance, 0, [root], [0], 0, before, Bfs(adj[..], root));
      SearchDone(adj[..], used[..], distance[..], before, root, order, parent, h, farthest, farthestDistance, fk);
    }

    /** One round of the outer loop of createAuxiliaryGraph: take the vertex at
        the front of the queue (position head of the discovery order) off it and
        scan its neighbours. */
    method PopAndScan(root: int, q: seq<int>, farthest: int, farthestDistance: int, ghost head: int,
                      ghost order: seq<int>, ghost parent: seq<int>, ghost fk: int, ghost before: seq<int>,
                      ghost target: (seq<int>, seq<int>))
      returns (q1: seq<int>, farthest1: int, farthestDistance1: int,
               ghost order1: seq<int>, ghost parent1: seq<int>, ghost fk1: int)
      requires q != []
      requires Searching(adj[..], used[..], distance[..], before, root, q, order, parent, head, farthest, farthestDistance, fk, target)
      modifies used, distance
      ensures Searching(adj[..], used[..], distance[..], before, root, q1, order1, parent1, head + 1,
                        farthest1, farthestDistance1, fk1, target)
    {
      var current := q[0];
      ghost var used0, distance0 := used[..], distance[..];
      q1, farthest1, farthestDistance1, order1, parent1, fk1 :=
        ScanNeighbours(root, current, q[1..], farthest, farthestDistance, head, order, parent, fk, before);
      BfsExpand(adj[..], root, order, parent, head, used0, distance0, order1, parent1, target);
    }

    /** The outer loop of createAuxiliaryGraph: pop and scan until the queue is
        empty. */
    method Traverse(root: int, q: seq<int>, farthest: int, farthestDistance: int, ghost head: int,
                    ghost order: seq<int>, ghost parent: seq<int>, ghost fk: int, ghost before: seq<int>,
                    ghost target: (seq<int>, seq<int>))
      returns (farthest1: int, farthestDistance1: int, ghost order1: seq<int>, ghost parent1: seq<int>,
               ghost h: int, ghost fk1: int)
      requires Searching(adj[..], used[..], distance[..], before, root, q, order, parent, head, farthest, farthestDistance, fk, target)
      modifies used, distance
      ensures Searching(adj[..], used[..], distance[..], before, root, [], order1, parent1, h,
                        farthest1, farthestDistance1, fk1, target)
    {
      var queue := q;
      farthest1, farthestDistance1, order1, parent1, h, fk1 := farthest, farthestDistance, order, parent, head, fk;
      while queue != []
        invariant Searching(adj[..], used[..], distance[..], before, root, queue, order1, parent1, h,
                            farthest1, farthestDistance1, fk1, target)
        decreases Size() - h
      {
        queue, farthest1, farthestDistance1, order1, parent1, fk1 :=
          PopAndScan(root, queue, farthest1, farthestDistance1, h, order1, parent1, fk1, before, target);
        h := h + 1;
      }
    }

    /** The inner loop of findLongPathFromRoot: scan the neighbours of v in list
        order and keep the unused one with the strictly largest label; -1 when
        every neighbour is used. `visited` names the used vertices. */
    method FarthestUnusedNeighbour(v: int, ghost visited: seq<int>) returns (farthestNode: int)
      requires Valid() && 0 <= v < Size()
      requires forall x :: 0 <= x < Size() ==> (used[x] <==> x in visited)
      ensures farthestNode == -1 <==> forall u :: u in adj[v] ==> u in visited
      ensures farthestNode != -1 ==> IsChoice(adj[v], visited, distance[..], farthestNode)
    {
      farthestNode := -1;
      var farthestNodeDistance := -1;
      ghost var fk := -1;
      var edges := adj[v];
      assert forall k :: 0 <= k < |edges| ==> 0 <= edges[k] < Size();
      for j := 0 to |edges|
        invariant farthestNode == -1 ==> farthestNodeDistance == -1 && forall k :: 0 <= k < j ==> edges[k] in visited
        invariant farthestNode != -1 ==>
                    0 <= fk < j && edges[fk] == farthestNode && farthestNode !in visited &&
                    farthestNodeDistance == distance[farthestNode] &&
                    (forall k :: 0 <= k < fk && edges[k] !in visited ==> distance[edges[k]] < farthestNodeDistance) &&
                    (forall k :: fk < k < j && edges[k] !in visited ==> distance[edges[k]] <= farthestNodeDistance)
      {
        var next := edges[j];
        if !used[next] && distance[next] > farthestNodeDistance {
          farthestNodeDistance := distance[next];
          farthestNode := next;
          fk := j;
        }
      }
      if farthestNode != -1 {
        assert IsFirstFarthest(edges, visited, distance[..], fk);
      }
    }

    /** findLongPathFromRoot: clear the used flags, push the start, then pop a
        vertex, use it, append it to the result and push the greedy choice among
        its neighbours until nothing is pushed. The stack never holds more than one
        vertex, so a popped vertex is never already used. */
    method FindLongPathFromRoot(root: int) returns (result: seq<int>)
      requires Valid() && 0 <= root < Size()
      modifies used
      ensures IsGreedyWalk(adj[..], distance[..], root, result)
      ensures IsSimplePath(adj[..], result) && result[0] == root && |result| <= Size()
      ensures forall v :: 0 <= v < Size() ==> (used[v] <==> v in result)
    {
      ResetUsed();
      var s := [root];
      result := [];
      while s != []
        invariant |result| + |s| <= Size()
        invariant forall x :: 0 <= x < Size() ==> (used[x] <==> x in result)
        invariant WalkSoFar(adj[..], distance[..], root, result, s)
        decreases Size() - |result|
      {
        var v := s[|s| - 1];
        s := s[..|s| - 1];
        ghost var before := result;
        used[v] := true;
        result := result + [v];
        var farthestNode := FarthestUnusedNeighbour(v, result);
        if farthestNode != -1 {
          s := s + [farthestNode];
        }
        WalkAdvance(adj[..], distance[..], root, before, v, farthestNode, s);
      }
      WalkFinished(adj[..], distance[..], root, result);
      GreedyWalkIsSimplePath(adj[..], distance[..], root, result);
    }
  
    /** One round of findLongPathInRange's loop: label from root; when that
        discovers nothing the root is skipped ([]), otherwise the result is the
        greedy walk from the farthest vertex over the fresh labels. */
    method CandidateFor(root: int) returns (path: seq<int>)
      requires Valid() && 0 <= root < Size()
      modifies used, distance
      ensures Valid()
      ensures path == [] <==> Isolated(adj[..], root)
      ensures path != [] ==> IsSimplePath(adj[..], path) && |path| <= Size() && IsCandidate(adj[..], root, path)
    {
      var farthestNode, order, parent := CreateAuxiliaryGraph(root);
      ghost var labelled, labels := used[..], distance[..];
      path := [];
      if farthestNode != -1 {
        path := FindLongPathFromRoot(farthestNode);
        assert distance[..] == labels;
        CandidateFound(adj[..], root, labelled, labels, order, parent, farthestNode, path);
      }
    }

    /** findLongPathInRange on its own copy of the graph: for each root in
        [from, to), label from the root, skip it when it discovers nothing, and
        otherwise walk from the farthest vertex and keep the walk when it is
        strictly longer than the longest so far. The ghost candidates record,
        per root, the walk found ([] for a skipped root). */
    method FindLongPathInRange(from: int, to: int, longestIn: seq<int>)
      returns (longest: seq<int>, ghost candidates: seq<seq<int>>)
      requires Valid() && 0 <= from && to <= Size()
      modifies used, distance
      ensures Valid()
      ensures |candidates| == if from < to then to - from else 0
      ensures Recorded(adj[..], from, candidates)
      ensures longest == Accumulate(longestIn, candidates)
    {
      longest := longestIn;
      candidates := [];
      var i := from;
      while i < to
        invariant from <= i && (i == from || i <= to)
        invariant Valid()
        invariant |candidates| == i - from
        invariant Recorded(adj[..], from, candidates)
        invariant longest == Accumulate(longestIn, candidates)
      {
        var path := CandidateFor(i);
        RecordedAppend(adj[..], from, candidates, path);
        assert (candidates + [path])[..|candidates|] == candidates;
        if |longest| < |path| {
          longest := path;
        }
        candidates := candidates + [path];
        i := i + 1;
      }
    }
  }

  /** The walk findLongPathInRange records for root: a finished breadth-first
      labelling from root whose record is the queue order, its farthest vertex,
      and the greedy walk from that vertex over the same labels. The labels of
      the vertices the labelling did not discover are left free (they are stale
      in a run), yet they do not matter: the discovered set is closed under the
      edge lists, so the walk only moves among, and only compares the labels of,
      discovered vertices, whose labels the record fixes. */
  ghost predicate IsCandidate(adj: seq<seq<int>>, root: int, c: seq<int>)
  {
    WellFormed(adj) && 0 <= root < |adj| &&
    exists used, dist, order, parent ::
      IsLabelling(adj, used, dist, root, order, parent) && (order, parent) == Bfs(adj, root) &&
      exists f :: IsFarthest(dist, order, f) && IsGreedyWalk(adj, dist, f, c)
  }

  /** Candidates recorded for the roots from, from + 1, ...: a root gets the
      empty walk exactly when it is isolated, and otherwise its candidate walk,
      which is a simple path of at most |adj| vertices. */
  ghost predicate Recorded(adj: seq<seq<int>>, from: int, candidates: seq<seq<int>>)
  {
    WellFormed(adj) && 0 <= from &&
    forall k :: 0 <= k < |candidates| ==>
      from + k < |adj| &&
      (candidates[k] == [] <==> Isolated(adj, from + k)) &&
      (candidates[k] != [] ==>
         IsSimplePath(adj, candidates[k]) && |candidates[k]| <= |adj| && IsCandidate(adj, from + k, candidates[k]))
  }

  /** Recording the walk of the next root. */
  lemma RecordedAppend(adj: seq<seq<int>>, from: int, candidates: seq<seq<int>>, c: seq<int>)
    requires Recorded(adj, from, candidates) && from + |candidates| < |adj|
    requires c == [] <==> Isolated(adj, from + |candidates|)
    requires c != [] ==> IsSimplePath(adj, c) && |c| <= |adj| && IsCandidate(adj, from + |candidates|, c)
    ensures Recorded(adj, from, candidates + [c])
  {
    assert forall k :: 0 <= k < |candidates| ==> (candidates + [c])[k] == candidates[k];
  }

  /** The records of two consecutive ranges of roots form the record of both. */
  lemma RecordedConcat(adj: seq<seq<int>>, first: seq<seq<int>>, second: seq<seq<int>>)
    requires Recorded(adj, 0, first) && Recorded(adj, |first|, second)
    ensures Recorded(adj, 0, first + second)
  {
    forall k | 0 <= k < |first + second|
      ensures k < |adj|
      ensures (first + second)[k] == [] <==> Isolated(adj, k)
      ensures (first + second)[k] != [] ==>
                IsSimplePath(adj, (first + second)[k]) && |(first + second)[k]| <= |adj| &&
                IsCandidate(adj, k, (first + second)[k])
    {
      if k < |first| {
        assert (first + second)[k] == first[k];
      } else {
        assert (first + second)[k] == second[k - |first|];
      }
    }
  }

  lemma CandidateFound(adj: seq<seq<int>>, root: int, used: seq<bool>, dist: seq<int>,
                       order: seq<int>, parent: seq<int>, f: int, c: seq<int>)
    requires IsLabelling(adj, used, dist, root, order, parent) && (order, parent) == Bfs(adj, root)
    requires IsFarthest(dist, order, f) && IsGreedyWalk(adj, dist, f, c)
    ensures IsCandidate(adj, root, c)
  {
  }

  /** The longest path after offering each candidate in turn: a candidate
      replaces the current one only when it is strictly longer, and an empty
      candidate (a skipped root) never does. */
  function Accumulate(acc: seq<int>, candidates: seq<seq<int>>): seq<int>
  {
    if candidates == [] then acc
    else
      var previous := Accumulate(acc, candidates[..|candidates| - 1]);
      var last := candidates[|candidates| - 1];
      if |previous| < |last| then last else previous
  }

  /** The result of Accumulate is at least as long as the start and every
      candidate, and it is either the start, when no candidate is longer, or the
      first candidate of the greatest length, which is then longer than the start. */
  lemma {:induction false} AccumulateFirstLongest(acc: seq<int>, candidates: seq<seq<int>>)
    ensures |acc| <= |Accumulate(acc, candidates)|
    ensures forall k :: 0 <= k < |candidates| ==> |candidates[k]| <= |Accumulate(acc, candidates)|
    ensures (Accumulate(acc, candidates) == acc && forall k :: 0 <= k < |candidates| ==> |candidates[k]| <= |acc|) ||
            exists k :: 0 <= k < |candidates| && Accumulate(acc, candidates) == candidates[k] &&
                        |acc| < |candidates[k]| && forall j :: 0 <= j < k ==> |candidates[j]| < |candidates[k]|
  {
    if candidates != [] {
      var init := candidates[..|candidates| - 1];
      AccumulateFirstLongest(acc, init);
      var previous := Accumulate(acc, init);
      var n := |candidates| - 1;
      assert forall k :: 0 <= k < n ==> candidates[k] == init[k];
      if |previous| < |candidates[n]| {
        assert forall j :: 0 <= j < n ==> |candidates[j]| < |candidates[n]|;
      } else if previous != acc || exists k :: 0 <= k < n && |init[k]| > |acc| {
        var k :| 0 <= k < |init| && previous == init[k] &&
                 |acc| < |init[k]| && forall j :: 0 <= j < k ==> |init[j]| < |init[k]|;
        assert candidates[k] == init[k];
      }
    }
  }

  /** Offering two runs of candidates one after the other is offering their
      concatenation: the ranges of main can be taken in turn. */
  lemma {:induction false} AccumulateAppend(acc: seq<int>, first: seq<seq<int>>, second: seq<seq<int>>)
    ensures Accumulate(Accumulate(acc, first), second) == Accumulate(acc, first + second)
  {
    if second != [] {
      var init := second[..|second| - 1];
      AccumulateAppend(acc, first, init);
      assert (first + second)[..|first + second| - 1] == first + init;
    } else {
      assert first + second == first;
    }
  }

  /** A graph of one vertex: every edge line joins 0 to itself, so root 0 is
      isolated and skipped, and main writes only the count 0 and a line end. */
  lemma OneVertexWritesZero(edges: seq<Edge>, candidates: seq<seq<int>>)
    requires EdgesInRange(1, edges)
    requires |candidates| == Partition.CoveredUpTo(1) && Recorded(AdjacencyLists(1, edges), 0, candidates)
    ensures Accumulate([], candidates) == []
    ensures PathOutput.Format(Accumulate([], candidates)) == "0\n"
  {
    var adj := AdjacencyLists(1, edges);
    NeighboursInRange(1, edges, 0);
    assert adj[0] == Neighbours(edges, 0);
    assert Isolated(adj, 0);
    assert candidates == [[]];
    assert Accumulate([], candidates[..0]) == [];
  }

  /** One worker of main: findLongPathInRange over [lo, hi) on a fresh copy of
      the graph, continuing from the candidates of the ranges before it. */
  method RunRange(graph: Graph, ghost adjacency: seq<seq<int>>, lo: int, hi: int,
                  longest: seq<int>, ghost candidates: seq<seq<int>>)
    returns (longest1: seq<int>, ghost candidates1: seq<seq<int>>)
    requires graph.Valid() && graph.adj[..] == adjacency
    requires 0 <= lo == |candidates| <= hi <= graph.Size()
    requires Recorded(adjacency, 0, candidates)
    requires longest == Accumulate([], candidates)
    ensures candidates <= candidates1 && |candidates1| == hi
    ensures Recorded(adjacency, 0, candidates1)
    ensures longest1 == Accumulate([], candidates1)
  {
    var copy := new Graph.Copy(graph);
    ghost var section;
    longest1, section := copy.FindLongPathInRange(lo, hi, longest);
    AccumulateAppend([], candidates, section);
    candidates1 := candidates + section;
    RecordedConcat(adjacency, candidates, section);
  }

  /** main: build the graph, hand out the ranges of root ids, run
      findLongPathInRange over each range on a fresh copy of the graph (one
      after the other), and write the longest path found. The ghost candidates
      hold, per covered root id, the walk found from it. */
  method Run(n: nat, edges: seq<Edge>) returns (longest: seq<int>, out: seq<char>, ghost candidates: seq<seq<int>>)
    requires EdgesInRange(n, edges)
    ensures |candidates| == Partition.CoveredUpTo(n)
    ensures Recorded(AdjacencyLists(n, edges), 0, candidates)
    ensures longest == Accumulate([], candidates)
    ensures longest == [] || IsSimplePath(AdjacencyLists(n, edges), longest)
    ensures out == PathOutput.Format(longest)
  {
    var graph := new Graph(n, edges);
    ghost var adjacency := AdjacencyLists(n, edges);
    var ranges;
    ghost var peak;
    ranges, peak := Partition.PartitionRanges(n);
    Partition.SectionsContiguous(n);
    longest := [];
    candidates := [];
    for k := 0 to |ranges|
      invariant graph.Valid() && graph.adj[..] == adjacency
      invariant |candidates| == if k == 0 then 0 else ranges[k - 1].1
      invariant Recorded(adjacency, 0, candidates)
      invariant longest == Accumulate([], candidates)
    {
      longest, candidates := RunRange(graph, adjacency, ranges[k].0, ranges[k].1, longest, candidates);
    }
    AccumulateFirstLongest([], candidates);
    out := PathOutput.WriteGraphPath(longest);
  }
}
