/** The selections of `question3` and `question4` (claude.c): the person who
    reaches the most people within three edges, and a greedy choice of
    people that together reach everyone within three edges. */
module Select {
  import opened Graphs
  import opened BfsFacts
  import opened Bfs

  /** The bound of both questions: three edges. */
  const Steps: int := 3

  /** The indices 1..n that a flag array marks. */
  function Marked(a: seq<bool>, n: nat): set<int> {
    set u | 1 <= u <= n && u < |a| && a[u]
  }

  /** The vertices among 1..i within three edges of `s` that `covered` does
      not mark yet: what choosing `s` would add. */
  function Gain(adj: seq<seq<int>>, s: int, covered: seq<bool>, i: nat): set<int>
    decreases i
  {
    if i == 0 then {}
    else if Uncovered(adj, s, covered, i) then Gain(adj, s, covered, i - 1) + {i}
    else Gain(adj, s, covered, i - 1)
  }

  /** `v` is not covered yet and lies within three edges of `s`. */
  predicate Uncovered(adj: seq<seq<int>>, s: int, covered: seq<bool>, v: int) {
    0 <= v < |covered| && !covered[v] && Near(adj, s, v, Steps)
  }

  /** What `Gain` holds. */
  lemma {:induction false} GainMembers(adj: seq<seq<int>>, s: int, covered: seq<bool>, i: nat)
    ensures forall v :: v in Gain(adj, s, covered, i) <==> 1 <= v <= i && Uncovered(adj, s, covered, v)
    decreases i
  {
    if i > 0 {
      GainMembers(adj, s, covered, i - 1);
    }
  }

  /** A `Gain` that is not empty names a vertex that is not covered yet. */
  lemma {:induction false} GainWitness(adj: seq<seq<int>>, s: int, covered: seq<bool>, i: nat) returns (w: int)
    requires |Gain(adj, s, covered, i)| > 0
    ensures 1 <= w <= i && Uncovered(adj, s, covered, w)
    decreases i
  {
    if Uncovered(adj, s, covered, i) {
      w := i;
    } else {
      w := GainWitness(adj, s, covered, i - 1);
    }
  }

  /** Counting `Gain` one vertex at a time, as the loop of `question4` does. */
  lemma GainStep(adj: seq<seq<int>>, s: int, covered: seq<bool>, i: nat)
    requires i >= 1
    ensures |Gain(adj, s, covered, i)| == |Gain(adj, s, covered, i - 1)| + (if Uncovered(adj, s, covered, i) then 1 else 0)
  {
    if Uncovered(adj, s, covered, i) {
      GainMembers(adj, s, covered, i - 1);
      assert i !in Gain(adj, s, covered, i - 1);
    }
  }

  /** Some chosen vertex lies within three edges of `v`. */
  ghost predicate Reaches(adj: seq<seq<int>>, n: nat, selected: seq<bool>, v: int) {
    exists u :: 1 <= u <= n && u < |selected| && selected[u] && Near(adj, u, v, Steps)
  }

  /** `covered` marks exactly the vertices some chosen vertex reaches. */
  ghost predicate CoveredBy(adj: seq<seq<int>>, n: nat, covered: seq<bool>, selected: seq<bool>) {
    |covered| == n + 1 && |selected| == n + 1 &&
    forall v :: 1 <= v <= n ==> (covered[v] <==> Reaches(adj, n, selected, v))
  }

  /** Every vertex lies within three edges of itself. */
  lemma NearSelf(adj: seq<seq<int>>, v: int)
    ensures Near(adj, v, v, Steps)
  {
    ReachMono(adj, v, 0, Steps);
  }

  /** `question3`: the first person with the largest `countReachable(i, 3)`,
      or person 1 with a count of 0 when there is nobody. */
  method BestPerson(g: Graph) returns (bestPerson: int, maxReachable: int)
    requires g.Valid() && g.numVertices <= MaxN
    ensures g.numVertices == 0 ==> bestPerson == 1 && maxReachable == 0
    ensures g.numVertices >= 1 ==>
      1 <= bestPerson <= g.numVertices && maxReachable == |Within(g.adjList, bestPerson, Steps, g.numVertices)|
    ensures forall i :: 1 <= i <= g.numVertices ==> |Within(g.adjList, i, Steps, g.numVertices)| <= maxReachable
    ensures forall i :: 1 <= i < bestPerson ==> |Within(g.adjList, i, Steps, g.numVertices)| < maxReachable
  {
    var n := g.numVertices;
    ghost var adj := g.adjList;
    bestPerson, maxReachable := 1, 0;
    var i := 1;
    while i <= n
      invariant 1 <= i <= n + 1
      invariant i == 1 ==> bestPerson == 1 && maxReachable == 0
      invariant i > 1 ==> 1 <= bestPerson < i && maxReachable == |Within(adj, bestPerson, Steps, n)|
      invariant forall k :: 1 <= k < i ==> |Within(adj, k, Steps, n)| <= maxReachable
      invariant forall k :: 1 <= k < bestPerson ==> |Within(adj, k, Steps, n)| < maxReachable
    {
      var reachable := CountReachable(g, i, Steps);
      WithinBounds(adj, i, Steps, n);
      if reachable > maxReachable {
        maxReachable := reachable;
        bestPerson := i;
      }
      i := i + 1;
    }
  }

  /** The first loop of `question4`: nothing covered, nobody chosen. */
  method Clear(n: nat) returns (covered: array<bool>, selected: array<bool>)
    ensures fresh(covered) && fresh(selected) && covered != selected
    ensures covered.Length == n + 1 && selected.Length == n + 1
    ensures forall v :: 1 <= v <= n ==> !covered[v] && !selected[v]
  {
    covered := new bool[n + 1];
    selected := new bool[n + 1];
    var i := 1;
    while i <= n
      invariant 1 <= i <= n + 1
      invariant forall v :: 1 <= v < i ==> !covered[v] && !selected[v]
    {
      covered[i] := false;
      selected[i] := false;
      i := i + 1;
    }
  }

  /** The count of `question4` for one candidate: the uncovered vertices
      within three edges of `s`. */
  method NewCovered(g: Graph, s: int, covered: array<bool>) returns (newCovered: int)
    requires g.Valid() && 1 <= s <= g.numVertices <= MaxN && covered.Length == g.numVertices + 1
    ensures newCovered == |Gain(g.adjList, s, covered[..], g.numVertices)|
  {
    var dist := Bfs.Bfs(g, s);
    ghost var cov := covered[..];
    newCovered := 0;
    var j := 1;
    while j <= g.numVertices
      invariant 1 <= j <= g.numVertices + 1
      invariant newCovered == |Gain(g.adjList, s, cov, j - 1)|
      invariant forall v :: 1 <= v <= g.numVertices ==> ShortestDist(g.adjList, s, v, dist[v])
    {
      NearIffDist(g.adjList, s, j, dist[j], Steps);
      GainStep(g.adjList, s, cov, j);
      if !covered[j] && dist[j] <= Steps {
        newCovered := newCovered + 1;
      }
      j := j + 1;
    }
  }

  /** The inner loop of one round of `question4`: among the vertices not
      chosen yet, the first one that adds the most, or -1 when none adds
      anything. */
  method Candidate(g: Graph, covered: array<bool>, selected: array<bool>) returns (bestNode: int, bestNewCovered: int)
    requires g.Valid() && g.numVertices <= MaxN
    requires covered.Length == g.numVertices + 1 && selected.Length == g.numVertices + 1
    ensures bestNode == -1 <==> bestNewCovered == 0
    ensures bestNode != -1 ==>
      1 <= bestNode <= g.numVertices && !selected[bestNode] &&
      bestNewCovered == |Gain(g.adjList, bestNode, covered[..], g.numVertices)|
    ensures forall i :: 1 <= i <= g.numVertices && !selected[i] ==>
      |Gain(g.adjList, i, covered[..], g.numVertices)| <= bestNewCovered
    ensures forall i :: 1 <= i < bestNode && !selected[i] ==>
      |Gain(g.adjList, i, covered[..], g.numVertices)| < bestNewCovered
  {
    var n := g.numVertices;
    bestNode, bestNewCovered := -1, 0;
    var i := 1;
    while i <= n
      invariant 1 <= i <= n + 1
      invariant bestNode == -1 <==> bestNewCovered == 0
      invariant bestNode != -1 ==>
        1 <= bestNode < i && !selected[bestNode] && bestNewCovered == |Gain(g.adjList, bestNode, covered[..], n)|
      invariant forall k :: 1 <= k < i && !selected[k] ==> |Gain(g.adjList, k, covered[..], n)| <= bestNewCovered
      invariant forall k :: 1 <= k < bestNode && !selected[k] ==> |Gain(g.adjList, k, covered[..], n)| < bestNewCovered
    {
      if !selected[i] {
        var newCovered := NewCovered(g, i, covered);
        if newCovered > bestNewCovered {
          bestNewCovered := newCovered;
          bestNode := i;
        }
      }
      i := i + 1;
    }
  }

  /** The update of one round of `question4`: everything within three edges
      of `s` becomes covered. */
  method CoverFrom(g: Graph, s: int, covered: array<bool>)
    requires g.Valid() && 1 <= s <= g.numVertices <= MaxN && covered.Length == g.numVertices + 1
    modifies covered
    ensures covered[0] == old(covered[0])
    ensures forall v :: 1 <= v <= g.numVertices ==> covered[v] == (old(covered[v]) || Near(g.adjList, s, v, Steps))
  {
    var dist := Bfs.Bfs(g, s);
    ghost var adj, before := g.adjList, covered[..];
    var j := 1;
    while j <= g.numVertices
      invariant 1 <= j <= g.numVertices + 1 && covered.Length == |before|
      invariant covered[0] == before[0]
      invariant forall v :: 1 <= v < j ==> covered[v] == (before[v] || Near(adj, s, v, Steps))
      invariant forall v :: j <= v <= g.numVertices ==> covered[v] == before[v]
      invariant forall v :: 1 <= v <= g.numVertices ==> ShortestDist(adj, s, v, dist[v])
    {
      NearIffDist(adj, s, j, dist[j], Steps);
      if dist[j] <= Steps {
        covered[j] := true;
      }
      j := j + 1;
    }
  }

  /** At the start nobody is chosen and nothing is covered. */
  lemma CoveredByStart(adj: seq<seq<int>>, n: nat, covered: seq<bool>, selected: seq<bool>)
    requires |covered| == n + 1 && |selected| == n + 1
    requires forall v :: 1 <= v <= n ==> !covered[v] && !selected[v]
    ensures CoveredBy(adj, n, covered, selected) && Marked(selected, n) == {} && Marked(covered, n) == {}
  {
  }

  /** Choosing `b` keeps `covered` exact. */
  lemma ChooseCovers(adj: seq<seq<int>>, n: nat, covered: seq<bool>, selected: seq<bool>,
                     b: int, covered': seq<bool>, selected': seq<bool>)
    requires CoveredBy(adj, n, covered, selected)
    requires 1 <= b <= n && |covered'| == n + 1 && selected' == selected[b := true]
    requires forall v :: 1 <= v <= n ==> covered'[v] == (covered[v] || Near(adj, b, v, Steps))
    ensures CoveredBy(adj, n, covered', selected')
  {
    forall v | 1 <= v <= n
      ensures covered'[v] <==> Reaches(adj, n, selected', v)
    {
      if Near(adj, b, v, Steps) {
        assert Reaches(adj, n, selected', v);
      } else if covered[v] {
        var u :| 1 <= u <= n && u < |selected| && selected[u] && Near(adj, u, v, Steps);
        assert Reaches(adj, n, selected', v);
      }
    }
  }

  /** Choosing `b`, which adds something, covers at least one more vertex. */
  lemma ChooseGrows(adj: seq<seq<int>>, n: nat, covered: seq<bool>, b: int, covered': seq<bool>)
    requires |covered| == n + 1 && |covered'| == n + 1 && |Gain(adj, b, covered, n)| > 0
    requires forall v :: 1 <= v <= n ==> covered'[v] == (covered[v] || Near(adj, b, v, Steps))
    ensures |Marked(covered, n)| < |Marked(covered', n)| <= n
  {
    var w := GainWitness(adj, b, covered, n);
    assert Marked(covered, n) + {w} <= Marked(covered', n);
    SubsetSize(Marked(covered, n) + {w}, Marked(covered', n));
    SeenSize(Marked(covered', n), n);
  }

  /** Choosing a vertex not chosen before counts one more. */
  lemma ChooseCounts(n: nat, selected: seq<bool>, b: int)
    requires 1 <= b <= n && b < |selected| && !selected[b]
    ensures |Marked(selected[b := true], n)| == |Marked(selected, n)| + 1
  {
    assert Marked(selected[b := true], n) == Marked(selected, n) + {b};
  }

  /** When no vertex not chosen yet adds anything, every vertex is within
      three edges of a chosen one: a vertex not chosen would add itself. */
  lemma Saturated(adj: seq<seq<int>>, n: nat, covered: seq<bool>, selected: seq<bool>)
    requires CoveredBy(adj, n, covered, selected)
    requires forall i :: 1 <= i <= n && !selected[i] ==> |Gain(adj, i, covered, n)| <= 0
    ensures forall v :: 1 <= v <= n ==> Reaches(adj, n, selected, v)
  {
    forall v | 1 <= v <= n
      ensures Reaches(adj, n, selected, v)
    {
      NearSelf(adj, v);
      if !selected[v] {
        GainMembers(adj, v, covered, n);
        assert !covered[v] ==> v in Gain(adj, v, covered, n);
      }
    }
  }

  /** `question4`: rounds of choosing the vertex that covers the most
      uncovered vertices within three edges, until no vertex adds anything.
      Every vertex ends within three edges of a chosen one. */
  method GreedyCover(g: Graph) returns (selected: array<bool>, selectedCount: int)
    requires g.Valid() && g.numVertices <= MaxN
    ensures selected.Length == g.numVertices + 1
    ensures forall v :: 1 <= v <= g.numVertices ==> Reaches(g.adjList, g.numVertices, selected[..], v)
    ensures selectedCount == |Marked(selected[..], g.numVertices)| <= g.numVertices
  {
    var n := g.numVertices;
    ghost var adj := g.adjList;
    var covered;
    covered, selected := Clear(n);
    selectedCount := 0;
    CoveredByStart(adj, n, covered[..], selected[..]);
    while true
      invariant CoveredBy(adj, n, covered[..], selected[..])
      invariant selectedCount == |Marked(selected[..], n)|
      invariant |Marked(covered[..], n)| <= n
      decreases n - |Marked(covered[..], n)|
    {
      var bestNode, bestNewCovered := Candidate(g, covered, selected);
      if bestNode == -1 || bestNewCovered == 0 {
        Saturated(adj, n, covered[..], selected[..]);
        SeenSize(Marked(selected[..], n), n);
        break;
      }
      ghost var before, chosen := covered[..], selected[..];
      selected[bestNode] := true;
      selectedCount := selectedCount + 1;
      CoverFrom(g, bestNode, covered);
      ChooseCovers(adj, n, before, chosen, bestNode, covered[..], selected[..]);
      ChooseGrows(adj, n, before, bestNode, covered[..]);
      ChooseCounts(n, chosen, bestNode);
    }
  }
}
