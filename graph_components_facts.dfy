/** What `countComponents` (claude.c) counts, and the invariants of its
    depth-first searches, stated on the values of its `visited` array and its
    stack. The outer loop starts a search at every vertex that no earlier
    search reached; the count is the number of such starts. */
module ComponentFacts {
  import opened Graphs

  /** No vertex numbered below `r` reaches `r`: the outer loop of
      `countComponents` finds `r` unvisited. */
  ghost predicate NewRoot(adj: seq<seq<int>>, r: int) {
    forall j :: 1 <= j < r ==> !Reachable(adj, j, r)
  }

  /** The vertices 1..i at which a search starts. */
  ghost function Roots(adj: seq<seq<int>>, i: nat): (r: set<int>)
    ensures forall v :: v in r <==> 1 <= v <= i && NewRoot(adj, v)
    decreases i
  {
    if i == 0 then {}
    else if NewRoot(adj, i) then Roots(adj, i - 1) + {i}
    else Roots(adj, i - 1)
  }

  /** `v` is reached from one of the vertices numbered below `i`. */
  ghost predicate Reached(adj: seq<seq<int>>, i: int, v: int) {
    exists j :: 1 <= j < i && Reachable(adj, j, v)
  }

  lemma ReachableSelf(adj: seq<seq<int>>, s: int)
    ensures Reachable(adj, s, s)
  {
    assert s in Reach(adj, s, 0);
  }

  /** The count grows by one exactly at a new root. */
  lemma RootsStep(adj: seq<seq<int>>, i: nat)
    requires i >= 1
    ensures |Roots(adj, i)| == |Roots(adj, i - 1)| + (if NewRoot(adj, i) then 1 else 0)
  {
    if NewRoot(adj, i) {
      assert i !in Roots(adj, i - 1);
    }
  }

  /** Vertex 1 always starts a search, and there are never more searches
      than vertices. */
  lemma RootsBounds(adj: seq<seq<int>>, n: nat)
    ensures |Roots(adj, n)| <= n
    ensures n >= 1 ==> 1 in Roots(adj, n) && |Roots(adj, n)| >= 1
  {
    SubsetSize(Roots(adj, n), Range(n));
    if n >= 1 {
      SubsetSize({1}, Roots(adj, n));
    }
  }

  /** Without edges, a vertex reaches only itself. */
  lemma {:induction false} NoEdgesReach(adj: seq<seq<int>>, s: int, k: nat)
    requires forall u :: 0 <= u < |adj| ==> adj[u] == []
    ensures Reach(adj, s, k) == {s}
    decreases k
  {
    if k > 0 {
      NoEdgesReach(adj, s, k - 1);
      assert Next(adj, {s}) == {};
    }
  }

  /** Without edges every vertex is a component of its own. */
  lemma NoEdgesAllRoots(adj: seq<seq<int>>, n: nat)
    requires forall u :: 0 <= u < |adj| ==> adj[u] == []
    ensures Roots(adj, n) == Range(n) && |Roots(adj, n)| == n
  {
    forall r | 1 <= r <= n
      ensures NewRoot(adj, r)
    {
      forall j | 1 <= j < r
        ensures !Reachable(adj, j, r)
      {
        forall k: nat
          ensures r !in Reach(adj, j, k)
        {
          NoEdgesReach(adj, j, k);
        }
      }
    }
  }

  /** When vertex 1 reaches every vertex, one search covers them all. */
  lemma OneSourceOneRoot(adj: seq<seq<int>>, n: nat)
    requires n >= 1
    requires forall v :: 1 <= v <= n ==> Reachable(adj, 1, v)
    ensures Roots(adj, n) == {1}
  {
    RootsBounds(adj, n);
    forall r | 1 < r <= n
      ensures r !in Roots(adj, n)
    {
      assert Reachable(adj, 1, r);
    }
  }

  /** No edge leaves `c`. */
  ghost predicate Closed(adj: seq<seq<int>>, c: set<int>) {
    forall u, w :: u in c && 0 <= u < |adj| && w in adj[u] ==> w in c
  }

  /** `marked` is the set of vertices that `vis` marks. */
  ghost predicate Mirrors(n: nat, vis: seq<bool>, marked: set<int>) {
    |vis| == n + 1 && forall v :: v in marked <==> 1 <= v <= n && vis[v]
  }

  /** The state at the head of the outer loop of `countComponents`: the
      marked vertices are those reached from the vertices before `i`, and no
      edge leaves them. */
  ghost predicate Covered(adj: seq<seq<int>>, n: nat, vis: seq<bool>, marked: set<int>, i: int) {
    Mirrors(n, vis, marked) && Closed(adj, marked) &&
    forall v :: 1 <= v <= n ==> (vis[v] <==> Reached(adj, i, v))
  }

  /** Before the first search nothing is marked. */
  lemma CoveredStart(adj: seq<seq<int>>, n: nat, vis: seq<bool>)
    requires |vis| == n + 1 && forall v :: 1 <= v <= n ==> !vis[v]
    ensures Covered(adj, n, vis, {}, 1)
  {
  }

  /** A closed set that holds `s` holds every vertex `s` reaches. */
  lemma ClosedHoldsReachable(adj: seq<seq<int>>, s: int, c: set<int>, v: int)
    requires Closed(adj, c) && s in c && Reachable(adj, s, v)
    ensures v in c
  {
    var k: nat :| v in Reach(adj, s, k);
    ClosedHoldsReach(adj, s, c, k);
  }

  /** The outer loop meets a vertex that an earlier search marked: it is not
      a new root, and nothing changes. */
  lemma SkipMarked(adj: seq<seq<int>>, n: nat, vis: seq<bool>, marked: set<int>, i: int)
    requires Covered(adj, n, vis, marked, i) && 1 <= i <= n && vis[i]
    ensures !NewRoot(adj, i)
    ensures Covered(adj, n, vis, marked, i + 1)
  {
    forall v | 1 <= v <= n
      ensures vis[v] <==> Reached(adj, i + 1, v)
    {
      if Reached(adj, i + 1, v) && !Reached(adj, i, v) {
        assert Reachable(adj, i, v);
        ClosedHoldsReachable(adj, i, marked, v);
      }
    }
  }

  /** The outer loop meets an unmarked vertex: it is a new root. */
  lemma StartMarked(adj: seq<seq<int>>, n: nat, vis: seq<bool>, marked: set<int>, i: int)
    requires Covered(adj, n, vis, marked, i) && 1 <= i <= n && !vis[i]
    ensures NewRoot(adj, i)
  {
    forall j | 1 <= j < i
      ensures !Reachable(adj, j, i)
    {
      assert !Reached(adj, i, i);
    }
  }

  /** A finished search from the new root `i` adds exactly what `i` reaches. */
  lemma Searched(adj: seq<seq<int>>, n: nat, vis: seq<bool>, marked: set<int>, i: int, vis': seq<bool>, marked': set<int>)
    requires Covered(adj, n, vis, marked, i) && 1 <= i <= n
    requires Mirrors(n, vis', marked') && Closed(adj, marked')
    requires forall v :: v in marked' <==> v in marked || (1 <= v <= n && Reachable(adj, i, v))
    ensures Covered(adj, n, vis', marked', i + 1)
  {
    forall v | 1 <= v <= n
      ensures vis'[v] <==> Reached(adj, i + 1, v)
    {
      if Reachable(adj, i, v) {
        assert Reached(adj, i + 1, v);
      }
      if Reached(adj, i, v) {
        var j :| 1 <= j < i && Reachable(adj, j, v);
        assert Reached(adj, i + 1, v);
      }
    }
  }

  /** The unvisited heads among `ws`, in order: what `countComponents` pushes
      for one list. */
  function Unvisited(ws: seq<int>, vis: seq<bool>): (r: seq<int>)
    ensures forall x :: x in r ==> x in ws
    ensures forall x :: x in ws && 0 <= x < |vis| && !vis[x] ==> x in r
    decreases |ws|
  {
    if ws == [] then []
    else
      var rest := Unvisited(ws[..|ws| - 1], vis);
      var w := ws[|ws| - 1];
      assert ws == ws[..|ws| - 1] + [w];
      if 0 <= w < |vis| && !vis[w] then rest + [w] else rest
  }

  /** During the search from `r` that began with the marked set `before`:
      everything marked since and everything on the stack is reached from
      `r`, and `r` is marked or still on the stack. */
  ghost predicate Sound(adj: seq<seq<int>>, n: nat, r: int, before: set<int>, vis: seq<bool>, marked: set<int>, stack: seq<int>) {
    |adj| == n + 1 && Edges(adj, n) && 1 <= r <= n &&
    Mirrors(n, vis, marked) && Closed(adj, before) && before <= marked &&
    (forall v :: v in marked && v !in before ==> Reachable(adj, r, v)) &&
    (forall x :: x in stack ==> 1 <= x <= n && Reachable(adj, r, x)) &&
    (r in marked || r in stack)
  }

  /** Every edge out of a marked vertex leads to a marked vertex or to one
      on the stack. */
  ghost predicate Owed(adj: seq<seq<int>>, marked: set<int>, stack: seq<int>) {
    forall u, w :: u in marked && 0 <= u < |adj| && w in adj[u] ==> w in marked || w in stack
  }

  lemma SearchStart(adj: seq<seq<int>>, n: nat, vis: seq<bool>, marked: set<int>, r: int)
    requires |adj| == n + 1 && Edges(adj, n) && 1 <= r <= n
    requires Covered(adj, n, vis, marked, r)
    ensures Sound(adj, n, r, marked, vis, marked, [r]) && Owed(adj, marked, [r])
  {
    ReachableSelf(adj, r);
  }

  /** The popped vertex was marked already: it is dropped. */
  lemma PopMarked(adj: seq<seq<int>>, n: nat, r: int, before: set<int>, vis: seq<bool>, marked: set<int>, stack: seq<int>, x: int)
    requires Sound(adj, n, r, before, vis, marked, stack + [x]) && Owed(adj, marked, stack + [x])
    requires x in marked
    ensures Sound(adj, n, r, before, vis, marked, stack) && Owed(adj, marked, stack)
  {
    forall y | y in stack
      ensures 1 <= y <= n && Reachable(adj, r, y)
    {
      assert y in stack + [x];
    }
    forall u, w | u in marked && 0 <= u < |adj| && w in adj[u]
      ensures w in marked || w in stack
    {
      assert w in marked || w in stack + [x];
    }
  }

  /** The popped vertex was not marked: it is marked and its unvisited heads
      are pushed. */
  lemma PopFresh(adj: seq<seq<int>>, n: nat, r: int, before: set<int>, vis: seq<bool>, marked: set<int>, stack: seq<int>, x: int,
                 vis': seq<bool>, stack': seq<int>)
    requires Sound(adj, n, r, before, vis, marked, stack + [x]) && Owed(adj, marked, stack + [x])
    requires x !in marked && 1 <= x <= n
    requires vis' == vis[x := true] && stack' == stack + Unvisited(adj[x], vis')
    ensures Sound(adj, n, r, before, vis', marked + {x}, stack') && Owed(adj, marked + {x}, stack')
  {
    assert x in stack + [x];
    var marked' := marked + {x};
    forall y | y in stack'
      ensures 1 <= y <= n && Reachable(adj, r, y)
    {
      if y in stack {
        assert y in stack + [x];
      } else {
        assert y in adj[x];
        var k :| 0 <= k < |adj[x]| && adj[x][k] == y;
        ReachableStep(adj, r, x, y);
      }
    }
    forall u, w | u in marked' && 0 <= u < |adj| && w in adj[u]
      ensures w in marked' || w in stack'
    {
      if u != x {
        assert w in marked || w in stack + [x];
        if w in stack {
          assert w in stack';
        }
      } else if !(w in marked') {
        var k :| 0 <= k < |adj[x]| && adj[x][k] == w;
        assert 1 <= w <= n && !vis'[w];
      }
    }
    if r !in marked' {
      assert r in stack + [x];
      assert r in stack';
    }
  }

  /** The stack ran empty: the marked set is closed, so it holds all that
      `r` reaches. */
  lemma SearchDone(adj: seq<seq<int>>, n: nat, r: int, before: set<int>, vis: seq<bool>, marked: set<int>)
    requires Sound(adj, n, r, before, vis, marked, []) && Owed(adj, marked, [])
    ensures Closed(adj, marked)
    ensures forall v :: v in marked <==> v in before || (1 <= v <= n && Reachable(adj, r, v))
  {
    forall v | 1 <= v <= n && Reachable(adj, r, v)
      ensures v in marked
    {
      ClosedHoldsReachable(adj, r, marked, v);
    }
  }
}
