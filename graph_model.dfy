/** The directed graph of the graph analyses (claude.c): people numbered 1 to
    `numVertices`, each with the list of people it points to, newest edge
    first. What the analyses compute is stated with `Reach`, the vertices
    within `k` edges of a start. */
module Graphs {
  /** `MAX_N`, the capacity of the queue. */
  const MaxN: nat := 1000
  /** `INF`, the distance written for a vertex that cannot be reached. */
  const Inf: int := 999999

  class Graph {
    const numVertices: nat
    /** `adjList[u]`: the heads of the edges leaving `u`, in list order. */
    var adjList: seq<seq<int>>

    /** One list per index 0..numVertices, and every edge ends at a vertex. */
    ghost predicate Valid()
      reads this
    {
      |adjList| == numVertices + 1 && Edges(adjList, numVertices)
    }

    /** `createGraph`: `vertices + 1` empty lists. */
    constructor (vertices: nat)
      ensures numVertices == vertices
      ensures |adjList| == vertices + 1 && forall u :: 0 <= u <= vertices ==> adjList[u] == []
      ensures Valid()
    {
      numVertices := vertices;
      adjList := seq(vertices + 1, _ => []);
    }

    /** `addEdge`: puts `dest` at the head of the list of `src`; no reverse
        edge and no check for an edge already there. */
    method AddEdge(src: nat, dest: int)
      requires src < |adjList|
      modifies this
      ensures adjList == old(adjList)[src := [dest] + old(adjList)[src]]
      ensures old(Valid()) && 1 <= dest <= numVertices ==> Valid()
    {
      adjList := adjList[src := [dest] + adjList[src]];
    }
  }

  /** A subset is no larger than the set. */
  lemma SubsetSize(a: set<int>, b: set<int>)
    requires a <= b
    ensures |a| <= |b|
  {
    assert b == a + (b - a);
    assert a * (b - a) == {};
  }

  /** The vertices 1..n. */
  function Range(n: nat): (r: set<int>)
    ensures |r| == n
    ensures forall v :: v in r <==> 1 <= v <= n
    decreases n
  {
    if n == 0 then {} else Range(n - 1) + {n}
  }

  /** A set of vertices 1..n that misses `w` has fewer than n elements. */
  lemma FewerThan(seen: set<int>, n: nat, w: int)
    requires forall v :: v in seen ==> 1 <= v <= n
    requires 1 <= w <= n && w !in seen
    ensures |seen| < n
  {
    var others := Range(n) - {w};
    assert Range(n) == others + {w};
    SubsetSize(seen, others);
  }

  lemma SeenSize(seen: set<int>, n: nat)
    requires forall v :: v in seen ==> 1 <= v <= n
    ensures |seen| <= n
  {
    SubsetSize(seen, Range(n));
  }

  /** Every edge ends at one of the vertices 1..n. */
  predicate Edges(adj: seq<seq<int>>, n: nat) {
    forall u, i :: 0 <= u < |adj| && 0 <= i < |adj[u]| ==> 1 <= adj[u][i] <= n
  }

  /** The heads of the edges leaving the vertices of `s`. */
  function Next(adj: seq<seq<int>>, s: set<int>): set<int>
  {
    set u, w | u in s && 0 <= u < |adj| && w in adj[u] :: w
  }

  /** The vertices at most `k` edges away from `s`. */
  function Reach(adj: seq<seq<int>>, s: int, k: nat): set<int>
    decreases k
  {
    if k == 0 then {s}
    else
      var r := Reach(adj, s, k - 1);
      r + Next(adj, r)
  }

  ghost predicate Reachable(adj: seq<seq<int>>, s: int, v: int) {
    exists k: nat :: v in Reach(adj, s, k)
  }

  /** An edge out of a vertex within `k` edges leads within `k + 1`. */
  lemma ReachStep(adj: seq<seq<int>>, s: int, k: nat, u: int, w: int)
    requires u in Reach(adj, s, k) && 0 <= u < |adj| && w in adj[u]
    ensures w in Reach(adj, s, k + 1)
  {
    assert w in Next(adj, Reach(adj, s, k));
  }

  /** An edge into `Next(adj, r)`, chosen. */
  lemma NextFrom(adj: seq<seq<int>>, r: set<int>, w: int) returns (u: int)
    requires w in Next(adj, r)
    ensures u in r && 0 <= u < |adj| && w in adj[u]
  {
    u :| u in r && 0 <= u < |adj| && w in adj[u];
  }

  lemma ReachableStep(adj: seq<seq<int>>, s: int, u: int, w: int)
    requires Reachable(adj, s, u) && 0 <= u < |adj| && w in adj[u]
    ensures Reachable(adj, s, w)
  {
    var k: nat :| u in Reach(adj, s, k);
    ReachStep(adj, s, k, u, w);
  }

  /** Allowing more edges never loses a vertex. */
  lemma {:induction false} ReachMono(adj: seq<seq<int>>, s: int, j: nat, k: nat)
    requires j <= k
    ensures Reach(adj, s, j) <= Reach(adj, s, k)
    decreases k
  {
    if j < k {
      ReachMono(adj, s, j, k - 1);
    }
  }

  /** Within any number of edges of a valid start, only vertices 1..n. */
  lemma {:induction false} ReachInRange(adj: seq<seq<int>>, n: nat, s: int, k: nat)
    requires Edges(adj, n) && 1 <= s <= n
    ensures forall v :: v in Reach(adj, s, k) ==> 1 <= v <= n
    decreases k
  {
    if k > 0 {
      ReachInRange(adj, n, s, k - 1);
    }
  }

  /** A set of vertices that holds `s` and every head of an edge leaving one
      of its vertices holds everything reachable from `s`. */
  lemma {:induction false} ClosedHoldsReach(adj: seq<seq<int>>, s: int, c: set<int>, k: nat)
    requires s in c
    requires forall u, w :: u in c && 0 <= u < |adj| && w in adj[u] ==> w in c
    ensures Reach(adj, s, k) <= c
    decreases k
  {
    if k > 0 {
      ClosedHoldsReach(adj, s, c, k - 1);
    }
  }

  /** Adding an edge keeps every vertex that was within `k` edges. */
  lemma {:induction false} EdgeKeepsReach(adj: seq<seq<int>>, src: nat, dest: int, s: int, k: nat)
    requires src < |adj|
    ensures Reach(adj, s, k) <= Reach(adj[src := [dest] + adj[src]], s, k)
    decreases k
  {
    if k > 0 {
      EdgeKeepsReach(adj, src, dest, s, k - 1);
      var adj' := adj[src := [dest] + adj[src]];
      var before, after := Reach(adj, s, k - 1), Reach(adj', s, k - 1);
      forall w | w in Next(adj, before)
        ensures w in Next(adj', after)
      {
        var u :| u in before && 0 <= u < |adj| && w in adj[u];
        assert w in adj'[u];
      }
    }
  }
}
