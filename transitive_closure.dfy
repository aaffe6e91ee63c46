/** Reachability in a graph given as adjacency lists: a breadth-first search
    from one vertex to another, and the transitive-closure matrix built by
    running that search for every ordered pair of vertices.

    Vertices are the integers the lists hold. Looking up the neighbours of a
    vertex is Python list indexing, so a negative vertex counts from the end
    and a vertex outside `-len(graph) .. len(graph) - 1` raises IndexError. */
module TransitiveClosure {

  import opened Wrappers
  import opened Seqs

  type Graph = seq<seq<int>>

  datatype GraphError = IndexError

  // ---------------------------------------------------------------------
  // Reachability, the specification of the search.

  /** `w` is in the list `graph[u]`. */
  predicate Edge(graph: Graph, u: int, w: int) {
    match PyIndex(u, |graph|)
    case None => false
    case Some(i) => w in graph[i]
  }

  /** A walk: each vertex but the last has the next one among its neighbours. */
  predicate Path(graph: Graph, p: seq<int>) {
    |p| >= 1 && forall k :: 0 <= k < |p| - 1 ==> Edge(graph, p[k], p[k + 1])
  }

  /** There is a walk from `u` to `v`; the walk `[u]` makes `u` reach itself. */
  ghost predicate Reachable(graph: Graph, u: int, v: int) {
    exists p :: Path(graph, p) && p[0] == u && p[|p| - 1] == v
  }

  /** Every vertex reaches itself. */
  lemma ReachableSelf(graph: Graph, u: int)
    ensures Reachable(graph, u, u)
  {
    assert Path(graph, [u]);
  }

  /** A walk extends by one edge. */
  lemma ReachableStep(graph: Graph, u: int, v: int, w: int)
    requires Reachable(graph, u, v) && Edge(graph, v, w)
    ensures Reachable(graph, u, w)
  {
    var p :| Path(graph, p) && p[0] == u && p[|p| - 1] == v;
    var q := p + [w];
    forall k | 0 <= k < |q| - 1
      ensures Edge(graph, q[k], q[k + 1])
    {
      if k < |p| - 1 {
        assert q[k] == p[k] && q[k + 1] == p[k + 1];
      }
    }
    assert Path(graph, q);
  }

  /** Reachability is transitive: two walks join into one. */
  lemma ReachableTrans(graph: Graph, u: int, v: int, w: int)
    requires Reachable(graph, u, v) && Reachable(graph, v, w)
    ensures Reachable(graph, u, w)
  {
    var p :| Path(graph, p) && p[0] == u && p[|p| - 1] == v;
    var q :| Path(graph, q) && q[0] == v && q[|q| - 1] == w;
    var r := p + q[1..];
    forall k | 0 <= k < |r| - 1
      ensures Edge(graph, r[k], r[k + 1])
    {
      if k < |p| - 1 {
        assert r[k] == p[k] && r[k + 1] == p[k + 1];
      } else {
        assert r[k] == q[k - |p| + 1] && r[k + 1] == q[k - |p| + 2];
      }
    }
    assert Path(graph, r);
  }

  /** Dropping the last vertex of a longer walk leaves a walk. */
  lemma PathInit(graph: Graph, p: seq<int>)
    requires Path(graph, p) && |p| > 1
    ensures Path(graph, p[..|p| - 1])
  {
    var init := p[..|p| - 1];
    forall k | 0 <= k < |init| - 1
      ensures Edge(graph, init[k], init[k + 1])
    {
      assert init[k] == p[k] && init[k + 1] == p[k + 1];
    }
  }

  /** Every vertex of `s` is a valid index and has all its neighbours in `s`. */
  ghost predicate Closed(graph: Graph, s: set<int>) {
    forall x :: x in s ==> PyIndex(x, |graph|).Some? && forall w :: Edge(graph, x, w) ==> w in s
  }

  /** A walk that starts in a closed set never leaves it. */
  lemma {:induction false} PathStaysInside(graph: Graph, s: set<int>, p: seq<int>)
    requires Closed(graph, s) && Path(graph, p) && p[0] in s
    ensures p[|p| - 1] in s
    decreases |p|
  {
    if |p| > 1 {
      var init := p[..|p| - 1];
      PathInit(graph, p);
      PathStaysInside(graph, s, init);
      assert Edge(graph, p[|p| - 2], p[|p| - 1]);
    }
  }

  /** So a vertex outside a closed set containing `u` is unreachable from `u`. */
  lemma ClosedBlocks(graph: Graph, s: set<int>, u: int, v: int)
    requires Closed(graph, s) && u in s && v !in s
    ensures !Reachable(graph, u, v)
  {
    if Reachable(graph, u, v) {
      var p :| Path(graph, p) && p[0] == u && p[|p| - 1] == v;
      PathStaysInside(graph, s, p);
    }
  }

  /** Every vertex number the graph mentions, with the start vertex. */
  function Vertices(graph: Graph, node: int): set<int> {
    {node} + set i, j | 0 <= i < |graph| && 0 <= j < |graph[i]| :: graph[i][j]
  }

  /** In a graph whose lists hold only valid indices, everything reachable
      from a valid vertex is a valid vertex. */
  predicate WellFormed(graph: Graph) {
    forall i, j :: 0 <= i < |graph| && 0 <= j < |graph[i]| ==> 0 <= graph[i][j] < |graph|
  }

  lemma {:induction false} WellFormedPath(graph: Graph, p: seq<int>)
    requires WellFormed(graph) && Path(graph, p) && 0 <= p[0] < |graph|
    ensures 0 <= p[|p| - 1] < |graph|
    decreases |p|
  {
    if |p| > 1 {
      var init := p[..|p| - 1];
      PathInit(graph, p);
      WellFormedPath(graph, init);
      var u := p[|p| - 2];
      assert Edge(graph, u, p[|p| - 1]);
      var j :| 0 <= j < |graph[u]| && graph[u][j] == p[|p| - 1];
    }
  }

  lemma WellFormedStaysValid(graph: Graph, u: int, v: int)
    requires WellFormed(graph) && 0 <= u < |graph| && Reachable(graph, u, v)
    ensures 0 <= v < |graph|
  {
    var p :| Path(graph, p) && p[0] == u && p[|p| - 1] == v;
    WellFormedPath(graph, p);
  }

  // ---------------------------------------------------------------------
  // The search.

  /** A sequence without repeats, every element in `u`, is no longer than `u`. */
  lemma {:induction false} DistinctBound(s: seq<int>, u: set<int>)
    requires Distinct(s) && forall k :: 0 <= k < |s| ==> s[k] in u
    ensures |s| <= |u|
    decreases |s|
  {
    if s != [] {
      var x := s[|s| - 1];
      var init := s[..|s| - 1];
      assert forall k :: 0 <= k < |init| ==> init[k] == s[k] && s[k] != x;
      DistinctBound(init, u - {x});
    }
  }

  /** A vertex of the search whose neighbours are all marked visited. */
  ghost predicate Expanded(graph: Graph, v: int, visited: seq<int>) {
    PyIndex(v, |graph|).Some? && forall w :: Edge(graph, v, w) ==> w in visited
  }

  /** The neighbours of a valid vertex are the elements of its list. */
  lemma EdgeOfList(graph: Graph, v: int, i: nat)
    requires PyIndex(v, |graph|) == Some(i)
    ensures forall w :: Edge(graph, v, w) <==> w in graph[i]
  {
  }

  /** When the search stops with nothing left in the queue, the visited
      vertices form a closed set without the target. */
  lemma ExhaustedSearch(graph: Graph, node: int, target: int, visited: seq<int>)
    requires |visited| >= 1 && visited[0] == node
    requires forall k :: 0 <= k < |visited| ==> visited[k] != target && Expanded(graph, visited[k], visited)
    ensures !Reachable(graph, node, target)
  {
    var s := set k | 0 <= k < |visited| :: visited[k];
    forall x | x in s
      ensures PyIndex(x, |graph|).Some? && forall w :: Edge(graph, x, w) ==> w in s
    {
      var k :| 0 <= k < |visited| && visited[k] == x;
      assert Expanded(graph, visited[k], visited);
      forall w | Edge(graph, x, w) ensures w in s {
        var m :| 0 <= m < |visited| && visited[m] == w;
      }
    }
    assert Closed(graph, s);
    assert node in s;
    ClosedBlocks(graph, s, node, target);
  }

  /** `bfs(graph, node, target_node)`: breadth-first search from `node`,
      `True` as soon as `target_node` leaves the queue, `False` once the queue
      is empty, IndexError when a vertex that is not a valid index leaves
      the queue before the target is found. */
  method Bfs(graph: Graph, node: int, targetNode: int) returns (r: Result<bool, GraphError>)
    ensures r.Ok? ==> (r.value <==> Reachable(graph, node, targetNode))
    ensures r.Err? ==> exists v :: Reachable(graph, node, v) && v != targetNode && PyIndex(v, |graph|).None?
    ensures WellFormed(graph) && 0 <= node < |graph| ==> r.Ok?
    ensures node == targetNode ==> r == Ok(true)
  {
    ghost var vertices := Vertices(graph, node);
    var visited := [node];
    var queue := [node];
    ghost var head := 0;
    ReachableSelf(graph, node);
    while |queue| > 0
      invariant 0 <= head <= |visited| && queue == visited[head..]
      invariant |visited| >= 1 && visited[0] == node && Distinct(visited)
      invariant forall k :: 0 <= k < |visited| ==> visited[k] in vertices
      invariant forall k :: 0 <= k < |visited| ==> Reachable(graph, node, visited[k])
      invariant forall k :: 0 <= k < head ==> visited[k] != targetNode && Expanded(graph, visited[k], visited)
      invariant head == 0 || node != targetNode
      decreases |vertices| - head
    {
      DistinctBound(visited, vertices);
      var actualNode := queue[0];
      queue := queue[1..];
      head := head + 1;
      if actualNode == targetNode {
        return Ok(true);
      }
      var index := PyIndex(actualNode, |graph|);
      if index.None? {
        if WellFormed(graph) && 0 <= node < |graph| {
          WellFormedStaysValid(graph, node, actualNode);
        }
        return Err(IndexError);
      }
      var neighbors := graph[index.value];
      EdgeOfList(graph, actualNode, index.value);
      for j := 0 to |neighbors|
        invariant 1 <= head <= |visited| && queue == visited[head..]
        invariant visited[0] == node && Distinct(visited)
        invariant forall k :: 0 <= k < |visited| ==> visited[k] in vertices
        invariant forall k :: 0 <= k < |visited| ==> Reachable(graph, node, visited[k])
        invariant forall k :: 0 <= k < head - 1 ==> visited[k] != targetNode && Expanded(graph, visited[k], visited)
        invariant visited[head - 1] == actualNode
        invariant forall m :: 0 <= m < j ==> neighbors[m] in visited
      {
        var neighbor := neighbors[j];
        if neighbor !in visited {
          ReachableStep(graph, node, actualNode, neighbor);
          visited := visited + [neighbor];
          queue := queue + [neighbor];
        }
      }
    }
    ExhaustedSearch(graph, node, targetNode, visited);
    return Ok(false);
  }

  // ---------------------------------------------------------------------
  // The closure matrix.

  /** `transitive_closure(graph)`: a `len(graph)` square matrix of zeros with
      a 1 written at `[i][j]` whenever `bfs(graph, i, j)` holds; an IndexError
      of any of the searches is passed on. */
  method Closure(graph: Graph) returns (r: Result<array2<int>, GraphError>)
    ensures r.Ok? ==> fresh(r.value) && r.value.Length0 == |graph| && r.value.Length1 == |graph|
    ensures r.Ok? ==> forall i, j :: 0 <= i < |graph| && 0 <= j < |graph| ==>
      r.value[i, j] == if Reachable(graph, i, j) then 1 else 0
    ensures r.Err? ==> exists i, v :: 0 <= i < |graph| && Reachable(graph, i, v) && PyIndex(v, |graph|).None?
    ensures WellFormed(graph) ==> r.Ok?
  {
    var n := |graph|;
    var closure := new int[n, n]((i, j) => 0);
    for i := 0 to n
      invariant forall a, b :: 0 <= a < i && 0 <= b < n ==> closure[a, b] == if Reachable(graph, a, b) then 1 else 0
      invariant forall a, b :: i <= a < n && 0 <= b < n ==> closure[a, b] == 0
    {
      for j := 0 to n
        invariant forall a, b :: 0 <= a < i && 0 <= b < n ==> closure[a, b] == if Reachable(graph, a, b) then 1 else 0
        invariant forall b :: 0 <= b < j ==> closure[i, b] == if Reachable(graph, i, b) then 1 else 0
        invariant forall a, b :: i <= a < n && 0 <= b < n && (a > i || b >= j) ==> closure[a, b] == 0
      {
        var found := Bfs(graph, i, j);
        if found.Err? {
          ghost var v :| Reachable(graph, i, v) && v != j && PyIndex(v, |graph|).None?;
          if WellFormed(graph) {
            WellFormedStaysValid(graph, i, v);
          }
          return Err(found.error);
        }
        if found.value {
          closure[i, j] := 1;
        }
      }
    }
    return Ok(closure);
  }

  /** The closure matrix is reflexive and transitive, as reachability is. */
  lemma ClosureOrder(graph: Graph, m: array2<int>)
    requires m.Length0 == |graph| && m.Length1 == |graph|
    requires forall i, j :: 0 <= i < |graph| && 0 <= j < |graph| ==> m[i, j] == if Reachable(graph, i, j) then 1 else 0
    ensures forall i :: 0 <= i < |graph| ==> m[i, i] == 1
    ensures forall i, j, k :: 0 <= i < |graph| && 0 <= j < |graph| && 0 <= k < |graph| && m[i, j] == 1 && m[j, k] == 1 ==>
      m[i, k] == 1
  {
    forall i | 0 <= i < |graph| ensures m[i, i] == 1 {
      ReachableSelf(graph, i);
    }
    forall i, j, k | 0 <= i < |graph| && 0 <= j < |graph| && 0 <= k < |graph| && m[i, j] == 1 && m[j, k] == 1
      ensures m[i, k] == 1
    {
      ReachableTrans(graph, i, j, k);
    }
  }

  // ---------------------------------------------------------------------
  // The example graph.

  function ExampleGraph(): Graph {
    [[0, 1, 3], [1, 2], [2], [3]]
  }

  function ExampleClosure(): seq<seq<int>> {
    [[1, 1, 1, 1], [0, 1, 1, 0], [0, 0, 1, 0], [0, 0, 0, 1]]
  }

  lemma ExampleFromZero()
    ensures Reachable(ExampleGraph(), 0, 0) && Reachable(ExampleGraph(), 0, 1)
    ensures Reachable(ExampleGraph(), 0, 2) && Reachable(ExampleGraph(), 0, 3)
  {
    var g := ExampleGraph();
    assert Path(g, [0]) && Path(g, [0, 1]) && Path(g, [0, 1, 2]) && Path(g, [0, 3]);
  }

  lemma ExampleFromOne()
    ensures !Reachable(ExampleGraph(), 1, 0) && Reachable(ExampleGraph(), 1, 1)
    ensures Reachable(ExampleGraph(), 1, 2) && !Reachable(ExampleGraph(), 1, 3)
  {
    var g := ExampleGraph();
    assert Path(g, [1]) && Path(g, [1, 2]);
    EdgeOfList(g, 1, 1);
    EdgeOfList(g, 2, 2);
    assert Closed(g, {1, 2});
    ClosedBlocks(g, {1, 2}, 1, 0);
    ClosedBlocks(g, {1, 2}, 1, 3);
  }

  /** A vertex whose only neighbour is itself reaches nothing else. */
  lemma ExampleLoop(v: int, w: int)
    requires v == 2 || v == 3
    requires w != v
    ensures Reachable(ExampleGraph(), v, v) && !Reachable(ExampleGraph(), v, w)
  {
    var g := ExampleGraph();
    ReachableSelf(g, v);
    EdgeOfList(g, v, v);
    assert Closed(g, {v});
    ClosedBlocks(g, {v}, v, w);
  }

  /** Every list of the example names a vertex of it. */
  lemma ExampleWellFormed()
    ensures WellFormed(ExampleGraph())
  {
  }

  /** One row of the expected closure: the vertices `i` reaches. */
  lemma ExampleRow(i: int, j: int)
    requires 0 <= i < 4 && 0 <= j < 4
    ensures ExampleClosure()[i][j] == if Reachable(ExampleGraph(), i, j) then 1 else 0
  {
    var row := ExampleClosure()[i];
    if i == 0 {
      ExampleFromZero();
      assert row == [1, 1, 1, 1];
    } else if i == 1 {
      ExampleFromOne();
      assert row == [0, 1, 1, 0];
    } else if i == j {
      ExampleLoop(i, i + 1);
      assert row[i] == 1;
    } else {
      ExampleLoop(i, j);
      assert row[j] == 0;
    }
  }

  /** Vertex 0 reaches every vertex; 1 reaches 1 and 2; 2 and 3 only themselves. */
  lemma ExampleReach()
    ensures forall i, j :: 0 <= i < 4 && 0 <= j < 4 ==> ExampleClosure()[i][j] == if Reachable(ExampleGraph(), i, j) then 1 else 0
  {
    forall i, j | 0 <= i < 4 && 0 <= j < 4
      ensures ExampleClosure()[i][j] == if Reachable(ExampleGraph(), i, j) then 1 else 0
    {
      ExampleRow(i, j);
    }
  }

  /** The searches and the closure of the example graph. */
  method Example() returns (zeroTwo: Result<bool, GraphError>, zeroZero: Result<bool, GraphError>,
                            oneThree: Result<bool, GraphError>, closure: Result<array2<int>, GraphError>)
    ensures zeroTwo == Ok(true) && zeroZero == Ok(true) && oneThree == Ok(false)
    ensures closure.Ok? && closure.value.Length0 == 4 && closure.value.Length1 == 4
    ensures forall i, j :: 0 <= i < 4 && 0 <= j < 4 ==> closure.value[i, j] == ExampleClosure()[i][j]
  {
    var g := ExampleGraph();
    ExampleWellFormed();
    ExampleReach();
    zeroTwo := Bfs(g, 0, 2);
    zeroZero := Bfs(g, 0, 0);
    oneThree := Bfs(g, 1, 3);
    closure := Closure(g);
  }
}
