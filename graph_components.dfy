/** `countComponents` (claude.c): a depth-first search with an explicit
    stack from every vertex that no earlier search visited, counting the
    searches. On a directed graph this counts the vertices that no vertex
    numbered below them reaches. */
module Components {
  import opened Graphs
  import opened ComponentFacts

  /** The inner walk of one adjacency list: every head not yet visited is
      pushed, in list order. */
  method PushEdges(g: Graph, cur: int, visited: array<bool>, stack: seq<int>) returns (stack': seq<int>)
    requires g.Valid() && 0 <= cur < |g.adjList| && visited.Length == g.numVertices + 1
    ensures stack' == stack + Unvisited(g.adjList[cur], visited[..])
  {
    var neighbors := g.adjList[cur];
    stack' := stack;
    var k := 0;
    while k < |neighbors|
      invariant k <= |neighbors|
      invariant stack' == stack + Unvisited(neighbors[..k], visited[..])
    {
      var w := neighbors[k];
      assert neighbors[..k + 1][..k] == neighbors[..k];
      if !visited[w] {
        stack' := stack' + [w];
      }
      k := k + 1;
    }
    assert neighbors[..k] == neighbors;
  }

  /** One search of `countComponents`, from `r`: pops a vertex, and when it
      is not visited yet marks it and pushes its unvisited heads, until the
      stack is empty. It marks exactly the vertices `r` reaches. */
  method Search(g: Graph, r: int, visited: array<bool>, ghost marked: set<int>) returns (ghost marked': set<int>)
    requires g.Valid() && 1 <= r <= g.numVertices
    requires Covered(g.adjList, g.numVertices, visited[..], marked, r)
    modifies visited
    ensures Mirrors(g.numVertices, visited[..], marked') && Closed(g.adjList, marked')
    ensures forall v :: v in marked' <==> v in marked || (1 <= v <= g.numVertices && Reachable(g.adjList, r, v))
  {
    ghost var adj, n := g.adjList, g.numVertices;
    SearchStart(adj, n, visited[..], marked, r);
    var stack := [r];
    marked' := marked;
    SeenSize(marked', n);
    while stack != []
      invariant Sound(adj, n, r, marked, visited[..], marked', stack) && Owed(adj, marked', stack)
      invariant |marked'| <= n
      decreases n - |marked'|, |stack|
    {
      ghost var whole := stack;
      var current := stack[|stack| - 1];
      stack := stack[..|stack| - 1];
      assert whole == stack + [current] && current in whole;
      if !visited[current] {
        FewerThan(marked', n, current);
        visited[current] := true;
        ghost var rest := stack;
        stack := PushEdges(g, current, visited, stack);
        PopFresh(adj, n, r, marked, visited[..][current := false], marked', rest, current, visited[..], stack);
        marked' := marked' + {current};
        SeenSize(marked', n);
      } else {
        PopMarked(adj, n, r, marked, visited[..], marked', stack, current);
      }
    }
    SearchDone(adj, n, r, marked, visited[..], marked');
  }

  /** The first loop of `countComponents`: nothing visited. */
  method ClearVisited(n: nat) returns (visited: array<bool>)
    ensures fresh(visited) && visited.Length == n + 1
    ensures forall v :: 1 <= v <= n ==> !visited[v]
  {
    visited := new bool[n + 1];
    var i := 1;
    while i <= n
      invariant 1 <= i <= n + 1
      invariant forall v :: 1 <= v < i ==> !visited[v]
    {
      visited[i] := false;
      i := i + 1;
    }
  }

  /** One pass of the outer loop of `countComponents`: a vertex that no
      earlier search visited starts a new search and is counted. */
  method Pass(g: Graph, i: int, visited: array<bool>, components: int, ghost marked: set<int>)
    returns (components': int, ghost marked': set<int>)
    requires g.Valid() && 1 <= i <= g.numVertices
    requires Covered(g.adjList, g.numVertices, visited[..], marked, i)
    requires components == |Roots(g.adjList, i - 1)|
    modifies visited
    ensures Covered(g.adjList, g.numVertices, visited[..], marked', i + 1)
    ensures components' == |Roots(g.adjList, i)|
  {
    ghost var adj, n := g.adjList, g.numVertices;
    components' := components;
    if !visited[i] {
      StartMarked(adj, n, visited[..], marked, i);
      components' := components' + 1;
      ghost var before := visited[..];
      marked' := Search(g, i, visited, marked);
      Searched(adj, n, before, marked, i, visited[..], marked');
    } else {
      marked' := marked;
      SkipMarked(adj, n, visited[..], marked, i);
    }
    RootsStep(adj, i);
  }

  /** `countComponents` */
  method CountComponents(g: Graph) returns (components: int)
    requires g.Valid()
    ensures components == |Roots(g.adjList, g.numVertices)|
  {
    var n := g.numVertices;
    var visited := ClearVisited(n);
    components := 0;
    ghost var marked: set<int> := {};
    CoveredStart(g.adjList, n, visited[..]);
    var i := 1;
    while i <= n
      invariant 1 <= i <= n + 1
      invariant Covered(g.adjList, g.numVertices, visited[..], marked, i)
      invariant components == |Roots(g.adjList, i - 1)|
    {
      components, marked := Pass(g, i, visited, components, marked);
      i := i + 1;
    }
  }
}
