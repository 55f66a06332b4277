/** Breadth-first search (claude.c `bfs`) and the two queries built on it,
    `getDistance` and `countReachable`. `bfs` writes into `dist[v]` the length
    of a shortest directed path from the start to `v`, or `INF`. */
module Bfs {
  import opened Graphs
  import opened GraphQueue
  import opened BfsFacts

  /** The values of the arrays and the queue of `bfs`, with its ghost sets. */
  ghost function Snapshot(dist: array<int>, visited: array<bool>, q: Queue, seen: set<int>, done: set<int>): Frontier
    reads dist, visited, q, q.items
    requires q.Valid()
  {
    Frontier(dist[..], visited[..], seen, done, q.Contents())
  }

  /** The two initial loops of `bfs`: every distance `INF`, nothing
      visited. */
  method Fresh(n: nat) returns (dist: array<int>, visited: array<bool>)
    ensures fresh(dist) && fresh(visited)
    ensures dist.Length == n + 1 && visited.Length == n + 1
    ensures forall v :: 1 <= v <= n ==> dist[v] == Inf && !visited[v]
  {
    dist := new int[n + 1];
    visited := new bool[n + 1];
    var i := 1;
    while i <= n
      invariant 1 <= i <= n + 1
      invariant forall v :: 1 <= v < i ==> dist[v] == Inf && !visited[v]
    {
      dist[i] := Inf;
      visited[i] := false;
      i := i + 1;
    }
  }

  /** The updates of a first visit: `visited[w] = 1`, `dist[w] = dist[cur] + 1`,
      `enqueue(q, w)`. */
  method Mark(w: nat, cur: nat, dist: array<int>, visited: array<bool>, q: Queue)
    requires w < dist.Length && cur < dist.Length && w < visited.Length
    requires q.Valid() && q.items != dist && q.rear < MaxN - 1
    modifies dist, visited, q, q.items
    ensures q.Valid() && q.rear == old(q.rear) + 1
    ensures dist[..] == old(dist[..])[w := old(dist[cur]) + 1]
    ensures visited[..] == old(visited[..])[w := true]
    ensures q.Contents() == old(q.Contents()) + [w]
  {
    ghost var qs := q.Contents();
    visited[w] := true;
    dist[w] := dist[cur] + 1;
    assert q.Contents() == qs;
    q.Enqueue(w);
  }

  /** The `j`-th edge of `cur` leads to a vertex not seen before: it gets
      the distance of `cur` plus one and a place at the back of the queue. */
  method Visit(g: Graph, ghost start: int, cur: int, j: nat, dist: array<int>, visited: array<bool>, q: Queue,
               ghost seen: set<int>, ghost done: set<int>) returns (ghost seen': set<int>)
    requires g.Valid() && g.numVertices <= MaxN
    requires q.Valid() && q.items != dist
    requires Inner(g.adjList, start, g.numVertices, Snapshot(dist, visited, q, seen, done), cur, j)
    requires 0 <= cur < |g.adjList| && j < |g.adjList[cur]|
    requires 0 <= g.adjList[cur][j] < visited.Length && 0 <= cur < dist.Length && !visited[g.adjList[cur][j]]
    requires q.rear + 1 <= |seen|
    modifies dist, visited, q, q.items
    ensures q.Valid()
    ensures Inner(g.adjList, start, g.numVertices, Snapshot(dist, visited, q, seen', done), cur, j + 1)
    ensures q.rear + 1 <= |seen'|
    ensures |q.Contents()| + g.numVertices - |seen'| == old(|q.Contents()|) + g.numVertices - |seen|
  {
    var w := g.adjList[cur][j];
    ghost var before := Snapshot(dist, visited, q, seen, done);
    assert w !in seen;
    FewerThan(seen, g.numVertices, w);
    ghost var after := Frontier(before.dist[w := before.dist[cur] + 1], before.vis[w := true],
                                seen + {w}, done, before.queue + [w]);
    Mark(w, cur, dist, visited, q);
    seen' := seen + {w};
    assert |seen'| == |seen| + 1;
    assert Snapshot(dist, visited, q, seen', done) == after;
    Discover(g.adjList, start, g.numVertices, before, cur, j, after);
  }

  /** The inner loop of `bfs`: walks the edges of `cur`. */
  method Expand(g: Graph, ghost start: int, cur: int, dist: array<int>, visited: array<bool>, q: Queue,
                ghost seen: set<int>, ghost done: set<int>) returns (ghost seen': set<int>)
    requires g.Valid() && g.numVertices <= MaxN
    requires q.Valid() && q.items != dist
    requires Inner(g.adjList, start, g.numVertices, Snapshot(dist, visited, q, seen, done), cur, 0)
    requires 0 <= cur < |g.adjList| && cur < dist.Length
    requires q.rear + 1 <= |seen|
    modifies dist, visited, q, q.items
    ensures q.Valid()
    ensures Inner(g.adjList, start, g.numVertices, Snapshot(dist, visited, q, seen', done), cur, |g.adjList[cur]|)
    ensures q.rear + 1 <= |seen'|
    ensures |q.Contents()| + g.numVertices - |seen'| == old(|q.Contents()|) + g.numVertices - |seen|
  {
    seen' := seen;
    var neighbors := g.adjList[cur];
    var j := 0;
    while j < |neighbors|
      invariant q.Valid() && q.items != dist
      invariant Inner(g.adjList, start, g.numVertices, Snapshot(dist, visited, q, seen', done), cur, j)
      invariant q.rear + 1 <= |seen'|
      invariant |q.Contents()| + g.numVertices - |seen'| == old(|q.Contents()|) + g.numVertices - |seen|
    {
      if !visited[neighbors[j]] {
        seen' := Visit(g, start, cur, j, dist, visited, q, seen', done);
      } else {
        PassSeen(g.adjList, start, g.numVertices, Snapshot(dist, visited, q, seen', done), cur, j);
      }
      j := j + 1;
    }
  }

  /** One pass of the outer loop of `bfs`: the front of the queue is taken
      off and its edges are walked. */
  method Round(g: Graph, ghost start: int, dist: array<int>, visited: array<bool>, q: Queue,
               ghost seen: set<int>, ghost done: set<int>) returns (ghost seen': set<int>, ghost done': set<int>)
    requires g.Valid() && g.numVertices <= MaxN
    requires q.Valid() && q.items != dist
    requires Outer(g.adjList, start, g.numVertices, Snapshot(dist, visited, q, seen, done))
    requires q.Contents() != [] && q.rear + 1 <= |seen| <= g.numVertices
    modifies dist, visited, q, q.items
    ensures q.Valid()
    ensures Outer(g.adjList, start, g.numVertices, Snapshot(dist, visited, q, seen', done'))
    ensures q.rear + 1 <= |seen'| <= g.numVertices
    ensures |q.Contents()| + g.numVertices - |seen'| < old(|q.Contents()|) + g.numVertices - |seen|
  {
    ghost var adj, n := g.adjList, g.numVertices;
    ghost var before := Snapshot(dist, visited, q, seen, done);
    TakeFront(adj, start, n, before);
    var cur := q.Dequeue();
    assert Snapshot(dist, visited, q, seen, done) == before.(queue := before.queue[1..]);
    seen' := Expand(g, start, cur, dist, visited, q, seen, done);
    Finish(adj, start, n, Snapshot(dist, visited, q, seen', done), cur);
    done' := done + {cur};
    SeenSize(seen', n);
  }

  /** The start of `bfs`: the arrays cleared, then `start` at distance 0,
      visited and queued. */
  method Start(g: Graph, start: int) returns (dist: array<int>, visited: array<bool>, q: Queue)
    requires g.Valid() && 1 <= start <= g.numVertices <= MaxN
    ensures fresh(dist) && fresh(visited) && fresh(q) && fresh(q.items)
    ensures dist.Length == g.numVertices + 1 && q.Valid() && q.items != dist
    ensures Outer(g.adjList, start, g.numVertices, Snapshot(dist, visited, q, {start}, {}))
    ensures q.rear + 1 <= |{start}| <= g.numVertices
  {
    dist, visited := Fresh(g.numVertices);
    q := new Queue();
    dist[start] := 0;
    visited[start] := true;
    q.Enqueue(start);
    StartOuter(g.adjList, start, g.numVertices, dist[..], visited[..]);
  }

  /** `bfs` */
  method Bfs(g: Graph, start: int) returns (dist: array<int>)
    requires g.Valid() && 1 <= start <= g.numVertices <= MaxN
    ensures fresh(dist) && dist.Length == g.numVertices + 1
    ensures forall v :: 1 <= v <= g.numVertices ==> ShortestDist(g.adjList, start, v, dist[v])
  {
    var n := g.numVertices;
    ghost var adj := g.adjList;
    var visited, q;
    dist, visited, q := Start(g, start);
    ghost var seen: set<int> := {start};
    ghost var done: set<int> := {};
    while !q.IsEmpty()
      invariant q.Valid() && fresh(q.items) && q.items != dist
      invariant Outer(g.adjList, start, g.numVertices, Snapshot(dist, visited, q, seen, done))
      invariant q.rear + 1 <= |seen| <= n
      decreases |q.Contents()| + n - |seen|
    {
      seen, done := Round(g, start, dist, visited, q, seen, done);
    }
    Drained(adj, start, n, Snapshot(dist, visited, q, seen, done));
  }
  /** `getDistance`: the length of a shortest path from `src` to `dest`, or
      -1 when there is none. */
  method GetDistance(g: Graph, src: int, dest: int) returns (r: int)
    requires g.Valid() && 1 <= src <= g.numVertices <= MaxN && 1 <= dest <= g.numVertices
    ensures r == -1 <==> !Reachable(g.adjList, src, dest)
    ensures r != -1 ==> r >= 0 && IsDistance(g.adjList, src, dest, r)
  {
    var dist := Bfs(g, src);
    var result := dist[dest];
    r := if result == Inf then -1 else result;
  }

  /** `countReachable`: how many of the vertices lie within `maxDist` edges
      of `start`. */
  method CountReachable(g: Graph, start: int, maxDist: int) returns (count: int)
    requires g.Valid() && 1 <= start <= g.numVertices <= MaxN
    ensures count == |Within(g.adjList, start, maxDist, g.numVertices)|
  {
    var dist := Bfs(g, start);
    count := 0;
    var i := 1;
    while i <= g.numVertices
      invariant 1 <= i <= g.numVertices + 1
      invariant count == |Within(g.adjList, start, maxDist, i - 1)|
      invariant forall v :: 1 <= v <= g.numVertices ==> ShortestDist(g.adjList, start, v, dist[v])
    {
      NearIffDist(g.adjList, start, i, dist[i], maxDist);
      if dist[i] <= maxDist {
        count := count + 1;
      }
      i := i + 1;
    }
  }
}
