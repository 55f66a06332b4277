/** What breadth-first search (claude.c `bfs`) computes, and the invariants
    of its two loops, stated on the values of its arrays and its queue. */
module BfsFacts {
  import opened Graphs

  /** `d` is the least number of edges that leads from `s` to `v`. */
  ghost predicate IsDistance(adj: seq<seq<int>>, s: int, v: int, d: nat) {
    v in Reach(adj, s, d) && forall k: nat :: k < d ==> v !in Reach(adj, s, k)
  }

  /** What `bfs` leaves in `dist[v]`. */
  ghost predicate ShortestDist(adj: seq<seq<int>>, s: int, v: int, d: int) {
    if Reachable(adj, s, v) then 0 <= d < Inf && IsDistance(adj, s, v, d) else d == Inf
  }

  /** A shortest distance is unique. */
  lemma DistanceUnique(adj: seq<seq<int>>, s: int, v: int, d: nat, d': nat)
    requires IsDistance(adj, s, v, d) && IsDistance(adj, s, v, d')
    ensures d == d'
  {
  }

  /** Every vertex seen has its distance below the number seen, and lies
      that many edges from the start; the others are at `INF`. */
  ghost predicate Found(adj: seq<seq<int>>, s: int, n: nat, dist: seq<int>, vis: seq<bool>, seen: set<int>) {
    |dist| == n + 1 && |vis| == n + 1 &&
    (forall v :: v in seen <==> 1 <= v <= n && vis[v]) &&
    (forall v :: 1 <= v <= n && !vis[v] ==> dist[v] == Inf) &&
    (forall v :: 1 <= v <= n && vis[v] ==> 0 <= dist[v] < |seen| && v in Reach(adj, s, dist[v]))
  }

  /** Every edge out of a finished vertex leads to a seen vertex at most one
      further. */
  ghost predicate Expanded(adj: seq<seq<int>>, dist: seq<int>, vis: seq<bool>, done: set<int>) {
    forall u, w :: u in done && 0 <= u < |adj| && w in adj[u] ==>
      0 <= u < |dist| && 0 <= w < |dist| && w < |vis| && vis[w] && dist[w] <= dist[u] + 1
  }

  /** The queue holds seen vertices in order of distance. */
  ghost predicate Queued(n: nat, dist: seq<int>, vis: seq<bool>, qs: seq<int>) {
    |dist| == n + 1 && |vis| == n + 1 &&
    (forall x :: x in qs ==> 1 <= x <= n && vis[x]) &&
    (forall a, b :: 0 <= a < b < |qs| && 0 <= qs[a] <= n && 0 <= qs[b] <= n ==> dist[qs[a]] <= dist[qs[b]])
  }

  /** Every seen vertex is finished or waiting in the queue. */
  ghost predicate Pending(n: nat, vis: seq<bool>, done: set<int>, qs: seq<int>, cur: int) {
    |vis| == n + 1 &&
    forall v :: 1 <= v <= n && vis[v] ==> v in done || v in qs || v == cur
  }

  /** What holds throughout `bfs`: the graph, what has been seen and what
      has been finished. */
  ghost predicate Searched(adj: seq<seq<int>>, s: int, n: nat, dist: seq<int>, vis: seq<bool>, seen: set<int>, done: set<int>) {
    |adj| == n + 1 && Edges(adj, n) && 1 <= s <= n &&
    Found(adj, s, n, dist, vis, seen) && vis[s] && dist[s] == 0 &&
    Expanded(adj, dist, vis, done)
  }

  /** The queue at the head of the outer loop: every seen vertex is at most
      one further than the front. */
  ghost predicate FrontBound(n: nat, dist: seq<int>, vis: seq<bool>, done: set<int>, qs: seq<int>) {
    Pending(n, vis, done, qs, 0) &&
    Queued(n, dist, vis, qs) &&
    (qs != [] && 0 <= qs[0] <= n ==> forall v :: 1 <= v <= n && vis[v] ==> dist[v] <= dist[qs[0]] + 1)
  }

  /** The queue while the edges of `cur` are walked, the first `j` done. */
  ghost predicate Walking(adj: seq<seq<int>>, n: nat, dist: seq<int>, vis: seq<bool>, done: set<int>, qs: seq<int>, cur: int, j: nat) {
    |adj| == n + 1 &&
    1 <= cur <= n && |vis| == n + 1 && vis[cur] && j <= |adj[cur]| &&
    Pending(n, vis, done, qs, cur) &&
    Queued(n, dist, vis, qs) &&
    (forall x :: x in qs ==> dist[cur] <= dist[x]) &&
    (forall v :: 1 <= v <= n && vis[v] ==> dist[v] <= dist[cur] + 1) &&
    (forall k :: 0 <= k < j ==> 0 <= adj[cur][k] <= n && vis[adj[cur][k]] && dist[adj[cur][k]] <= dist[cur] + 1)
  }

  /** The values `bfs` works on: its two arrays and the contents of its
      queue, with the ghost sets of the vertices seen so far and of those
      whose edges have all been walked. */
  datatype Frontier = Frontier(dist: seq<int>, vis: seq<bool>, seen: set<int>, done: set<int>, queue: seq<int>)

  /** The state at the head of the outer loop of `bfs`. */
  ghost predicate Outer(adj: seq<seq<int>>, s: int, n: nat, f: Frontier) {
    match f
    case Frontier(dist, vis, seen, done, qs) =>
      Searched(adj, s, n, dist, vis, seen, done) && FrontBound(n, dist, vis, done, qs)
  }

  /** The state while the edges of `cur` are walked. */
  ghost predicate Inner(adj: seq<seq<int>>, s: int, n: nat, f: Frontier, cur: int, j: nat) {
    match f
    case Frontier(dist, vis, seen, done, qs) =>
      Searched(adj, s, n, dist, vis, seen, done) && Walking(adj, n, dist, vis, done, qs, cur, j)
  }

  lemma StartOuter(adj: seq<seq<int>>, s: int, n: nat, dist: seq<int>, vis: seq<bool>)
    requires |adj| == n + 1 && Edges(adj, n) && 1 <= s <= n
    requires |dist| == n + 1 && |vis| == n + 1
    requires forall v :: 1 <= v <= n ==> vis[v] == (v == s) && dist[v] == if v == s then 0 else Inf
    ensures Outer(adj, s, n, Frontier(dist, vis, {s}, {}, [s]))
  {
    assert s in Reach(adj, s, 0);
    assert Searched(adj, s, n, dist, vis, {s}, {});
    assert FrontBound(n, dist, vis, {}, [s]);
  }

  lemma TakeFront(adj: seq<seq<int>>, s: int, n: nat, f: Frontier)
    requires Outer(adj, s, n, f) && f.queue != []
    ensures Inner(adj, s, n, f.(queue := f.queue[1..]), f.queue[0], 0)
  {
    var Frontier(dist, vis, seen, done, qs) := f;
    assert Searched(adj, s, n, dist, vis, seen, done) && FrontBound(n, dist, vis, done, qs);
    FrontWalking(adj, n, dist, vis, done, qs);
  }

  /** The front of the queue becomes the vertex whose edges are walked. */
  lemma FrontWalking(adj: seq<seq<int>>, n: nat, dist: seq<int>, vis: seq<bool>, done: set<int>, qs: seq<int>)
    requires |adj| == n + 1 && FrontBound(n, dist, vis, done, qs) && qs != []
    ensures Walking(adj, n, dist, vis, done, qs[1..], qs[0], 0)
  {
    assert qs[0] in qs;
    forall x | x in qs[1..]
      ensures 0 <= x <= n && dist[qs[0]] <= dist[x]
    {
      var b :| 0 <= b < |qs[1..]| && qs[1..][b] == x;
      assert qs[b + 1] == x && x in qs;
    }
    forall v | 1 <= v <= n && vis[v]
      ensures v in done || v in qs[1..] || v == qs[0]
    {
      if v in qs && v != qs[0] {
        var b :| 0 <= b < |qs| && qs[b] == v;
        assert qs[1..][b - 1] == v;
      }
    }
    QueuedTail(n, dist, vis, qs);
  }

  /** A queue in order of distance stays so once its front is taken off. */
  lemma QueuedTail(n: nat, dist: seq<int>, vis: seq<bool>, qs: seq<int>)
    requires Queued(n, dist, vis, qs) && qs != []
    ensures Queued(n, dist, vis, qs[1..])
  {
    forall x | x in qs[1..]
      ensures x in qs
    {
      var b :| 0 <= b < |qs[1..]| && qs[1..][b] == x;
      assert qs[b + 1] == x;
    }
  }

  lemma PassSeen(adj: seq<seq<int>>, s: int, n: nat, f: Frontier, cur: int, j: nat)
    requires Inner(adj, s, n, f, cur, j)
    requires 0 <= cur < |adj| && j < |adj[cur]| && 0 <= adj[cur][j] < |f.vis| && f.vis[adj[cur][j]]
    ensures Inner(adj, s, n, f, cur, j + 1)
  {
    var Frontier(dist, vis, seen, done, qs) := f;
    assert Searched(adj, s, n, dist, vis, seen, done) && Walking(adj, n, dist, vis, done, qs, cur, j);
    assert Walking(adj, n, dist, vis, done, qs, cur, j + 1);
  }

  /** A first visit: `w` gets one more than `cur` and joins the queue. */
  lemma Discover(adj: seq<seq<int>>, s: int, n: nat, f: Frontier, cur: int, j: nat, f': Frontier)
    requires Inner(adj, s, n, f, cur, j)
    requires 0 <= cur < |adj| && j < |adj[cur]| && 0 <= adj[cur][j] < |f.vis| && 0 <= cur < |f.dist| && !f.vis[adj[cur][j]]
    requires f'.dist == f.dist[adj[cur][j] := f.dist[cur] + 1] && f'.vis == f.vis[adj[cur][j] := true]
    requires f'.seen == f.seen + {adj[cur][j]} && f'.done == f.done && f'.queue == f.queue + [adj[cur][j]]
    ensures Inner(adj, s, n, f', cur, j + 1)
  {
    var w := adj[cur][j];
    var Frontier(dist, vis, seen, done, qs) := f;
    assert f' == Frontier(dist[w := dist[cur] + 1], vis[w := true], seen + {w}, done, qs + [w]);
    assert Searched(adj, s, n, dist, vis, seen, done) && Walking(adj, n, dist, vis, done, qs, cur, j);
    DiscoverSearched(adj, s, n, dist, vis, seen, done, qs, cur, j, w);
    DiscoverWalking(adj, s, n, dist, vis, seen, done, qs, cur, j, w);
  }

  lemma DiscoverSearched(adj: seq<seq<int>>, s: int, n: nat, dist: seq<int>, vis: seq<bool>, seen: set<int>, done: set<int>, qs: seq<int>, cur: int, j: nat, w: int)
    requires Searched(adj, s, n, dist, vis, seen, done) && Walking(adj, n, dist, vis, done, qs, cur, j)
    requires j < |adj[cur]| && w == adj[cur][j] && !vis[w]
    ensures Searched(adj, s, n, dist[w := dist[cur] + 1], vis[w := true], seen + {w}, done)
  {
    assert 1 <= w <= n;
    DiscoverFound(adj, s, n, dist, vis, seen, cur, w);
    assert Expanded(adj, dist[w := dist[cur] + 1], vis[w := true], done);
  }

  /** The distance given to `w` is within the number seen and leads from `s`. */
  lemma DiscoverFound(adj: seq<seq<int>>, s: int, n: nat, dist: seq<int>, vis: seq<bool>, seen: set<int>, cur: int, w: int)
    requires |adj| == n + 1 && Found(adj, s, n, dist, vis, seen)
    requires 1 <= cur <= n && vis[cur] && 1 <= w <= n && !vis[w] && w in adj[cur]
    ensures Found(adj, s, n, dist[w := dist[cur] + 1], vis[w := true], seen + {w})
  {
    assert w !in seen;
    var dist', vis', seen' := dist[w := dist[cur] + 1], vis[w := true], seen + {w};
    ReachStep(adj, s, dist[cur], cur, w);
    assert |seen'| == |seen| + 1;
  }

  lemma DiscoverWalking(adj: seq<seq<int>>, s: int, n: nat, dist: seq<int>, vis: seq<bool>, seen: set<int>, done: set<int>, qs: seq<int>, cur: int, j: nat, w: int)
    requires Searched(adj, s, n, dist, vis, seen, done) && Walking(adj, n, dist, vis, done, qs, cur, j)
    requires j < |adj[cur]| && w == adj[cur][j] && !vis[w]
    ensures Walking(adj, n, dist[w := dist[cur] + 1], vis[w := true], done, qs + [w], cur, j + 1)
  {
    assert 1 <= w <= n;
    var dist', vis' := dist[w := dist[cur] + 1], vis[w := true];
    assert Queued(n, dist', vis', qs + [w]) by {
      forall a, b | 0 <= a < b < |qs + [w]| && 0 <= (qs + [w])[a] <= n && 0 <= (qs + [w])[b] <= n
        ensures dist'[(qs + [w])[a]] <= dist'[(qs + [w])[b]]
      {
        if b == |qs| {
          assert (qs + [w])[a] == qs[a] && qs[a] in qs;
        } else {
          assert (qs + [w])[a] == qs[a] && (qs + [w])[b] == qs[b];
        }
      }
    }
  }

  /** Every edge of `cur` walked: `cur` is finished. */
  lemma Finish(adj: seq<seq<int>>, s: int, n: nat, f: Frontier, cur: int)
    requires 0 <= cur < |adj| && Inner(adj, s, n, f, cur, |adj[cur]|)
    ensures Outer(adj, s, n, f.(done := f.done + {cur}))
  {
    var Frontier(dist, vis, seen, done, qs) := f;
    assert Searched(adj, s, n, dist, vis, seen, done) && Walking(adj, n, dist, vis, done, qs, cur, |adj[cur]|);
    forall u, w | u in done + {cur} && 0 <= u < |adj| && w in adj[u]
      ensures 0 <= u < |dist| && 0 <= w < |dist| && w < |vis| && vis[w] && dist[w] <= dist[u] + 1
    {
      if u == cur {
        var k :| 0 <= k < |adj[cur]| && adj[cur][k] == w;
      }
    }
    if qs != [] {
      assert qs[0] in qs;
    }
    assert Searched(adj, s, n, dist, vis, seen, done + {cur}) && FrontBound(n, dist, vis, done + {cur}, qs);
  }

  /** Once every seen vertex is finished, each vertex within `k` edges is seen
      at distance at most `k`. */
  lemma {:induction false} WithinSeen(adj: seq<seq<int>>, s: int, n: nat, dist: seq<int>, vis: seq<bool>, done: set<int>, k: nat)
    requires |dist| == n + 1 && |vis| == n + 1 && |adj| == n + 1 && Edges(adj, n) && 1 <= s <= n
    requires vis[s] && dist[s] == 0
    requires Expanded(adj, dist, vis, done)
    requires forall v :: 1 <= v <= n && vis[v] ==> v in done
    ensures forall v :: v in Reach(adj, s, k) ==> 1 <= v <= n && vis[v] && dist[v] <= k
    decreases k
  {
    if k > 0 {
      WithinSeen(adj, s, n, dist, vis, done, k - 1);
      var r := Reach(adj, s, k - 1);
      forall w | w in Next(adj, r)
        ensures 1 <= w <= n && vis[w] && dist[w] <= k
      {
        var u := NextFrom(adj, r, w);
        assert u in done;
        EdgeOut(adj, n, dist, vis, done, u, w);
      }
      assert Reach(adj, s, k) == r + Next(adj, r);
    }
  }

  /** An edge out of a finished vertex. */
  lemma EdgeOut(adj: seq<seq<int>>, n: nat, dist: seq<int>, vis: seq<bool>, done: set<int>, u: int, w: int)
    requires Edges(adj, n) && Expanded(adj, dist, vis, done)
    requires u in done && 0 <= u < |adj| && w in adj[u]
    ensures 1 <= w <= n && 0 <= w < |dist| && w < |vis| && vis[w] && 0 <= u < |dist| && dist[w] <= dist[u] + 1
  {
    var i :| 0 <= i < |adj[u]| && adj[u][i] == w;
    assert 0 <= u < |dist| && 0 <= w < |dist| && w < |vis| && vis[w] && dist[w] <= dist[u] + 1;
  }

  /** When the queue runs dry the distances are the shortest ones. */
  lemma BfsDone(adj: seq<seq<int>>, s: int, n: nat, dist: seq<int>, vis: seq<bool>, seen: set<int>, done: set<int>)
    requires |adj| == n + 1 && Edges(adj, n) && 1 <= s <= n <= MaxN
    requires Found(adj, s, n, dist, vis, seen) && |seen| <= n
    requires vis[s] && dist[s] == 0
    requires Expanded(adj, dist, vis, done)
    requires forall v :: 1 <= v <= n && vis[v] ==> v in done
    ensures forall v :: 1 <= v <= n ==> ShortestDist(adj, s, v, dist[v])
  {
    forall v | 1 <= v <= n
      ensures ShortestDist(adj, s, v, dist[v])
    {
      if vis[v] {
        forall k: nat | k < dist[v]
          ensures v !in Reach(adj, s, k)
        {
          WithinSeen(adj, s, n, dist, vis, done, k);
        }
      } else if Reachable(adj, s, v) {
        var k: nat :| v in Reach(adj, s, k);
        WithinSeen(adj, s, n, dist, vis, done, k);
      }
    }
  }

  /** `v` lies within `m` edges of `s`. A bound of `INF` or more also admits
      the vertices that cannot be reached, since their distance is `INF`. */
  predicate Near(adj: seq<seq<int>>, s: int, v: int, m: int) {
    m >= Inf || (m >= 0 && v in Reach(adj, s, m))
  }

  /** A distance that `bfs` leaves is at most `m` exactly when the vertex is
      near in the sense above. */
  lemma NearIffDist(adj: seq<seq<int>>, s: int, v: int, d: int, m: int)
    requires ShortestDist(adj, s, v, d)
    ensures d <= m <==> Near(adj, s, v, m)
  {
    if m < Inf && m >= 0 {
      if Reachable(adj, s, v) {
        if d <= m {
          ReachMono(adj, s, d, m);
        }
      } else {
        assert v !in Reach(adj, s, m);
      }
    }
  }

  /** The vertices 1..i near `s`. */
  function Within(adj: seq<seq<int>>, s: int, m: int, i: nat): (r: set<int>)
    ensures forall v :: v in r <==> 1 <= v <= i && Near(adj, s, v, m)
    decreases i
  {
    if i == 0 then {}
    else if Near(adj, s, i, m) then Within(adj, s, m, i - 1) + {i}
    else Within(adj, s, m, i - 1)
  }

  /** `countReachable` counts the start itself whenever `maxDist` is not
      negative, and never more than all `n` vertices. */
  lemma WithinBounds(adj: seq<seq<int>>, s: int, m: int, n: nat)
    requires 1 <= s <= n
    ensures |Within(adj, s, m, n)| <= n
    ensures m >= 0 ==> |Within(adj, s, m, n)| >= 1
  {
    SubsetSize(Within(adj, s, m, n), Range(n));
    if m >= 0 {
      assert s in Reach(adj, s, m) by {
        ReachMono(adj, s, 0, m);
      }
      assert s in Within(adj, s, m, n);
      SubsetSize({s}, Within(adj, s, m, n));
    }
  }

  /** The outer loop ends with an empty queue: the distances are the
      shortest ones. */
  lemma Drained(adj: seq<seq<int>>, s: int, n: nat, f: Frontier)
    requires Outer(adj, s, n, f) && f.queue == [] && |f.seen| <= n <= MaxN
    ensures forall v :: 1 <= v <= n ==> ShortestDist(adj, s, v, f.dist[v])
  {
    var Frontier(dist, vis, seen, done, qs) := f;
    assert Searched(adj, s, n, dist, vis, seen, done) && FrontBound(n, dist, vis, done, qs);
    BfsDone(adj, s, n, dist, vis, seen, done);
  }
}
