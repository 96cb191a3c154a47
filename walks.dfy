// Directed, weighted graphs as the simulator stores them (source name ->
// neighbour name -> integer link cost), walks over them and their costs.

module Walks {

  /** The adjacency structure: each router's outgoing links and their costs. */
  type Graph = map<string, map<string, int>>

  predicate HasEdge(g: Graph, u: string, v: string) {
    u in g && v in g[u]
  }

  /** Every link endpoint is itself a node of the graph. */
  ghost predicate EndpointsKnown(g: Graph) {
    forall u, v | HasEdge(g, u, v) :: v in g
  }

  /** A non-empty sequence of nodes that follows stored links. */
  predicate IsWalk(g: Graph, p: seq<string>) {
    |p| >= 1 && p[|p| - 1] in g &&
      forall i, j {:trigger HasEdge(g, p[i], p[j])} | 0 <= i < |p| - 1 && j == i + 1 :: HasEdge(g, p[i], p[j])
  }

  predicate WalkFrom(g: Graph, s: string, v: string, p: seq<string>) {
    IsWalk(g, p) && p[0] == s && p[|p| - 1] == v
  }

  ghost predicate Reachable(g: Graph, s: string, v: string) {
    exists p :: WalkFrom(g, s, v, p)
  }

  /** Sum of the link costs along a walk. */
  function PathCost(g: Graph, p: seq<string>): int
    requires IsWalk(g, p)
    decreases |p|
  {
    if |p| == 1 then 0
    else
      WalkPrefix(g, p, |p| - 1);
      assert HasEdge(g, p[|p| - 2], p[|p| - 1]);
      PathCost(g, p[..|p| - 1]) + g[p[|p| - 2]][p[|p| - 1]]
  }

  /** Some link anywhere in the graph has a negative cost. */
  ghost predicate NegativeEdgeIn(g: Graph) {
    exists u, v | HasEdge(g, u, v) :: g[u][v] < 0
  }

  /** `c` is a closed walk of negative cost that `p` (a walk from `s`) leads to. */
  ghost predicate NegativeCycleVia(g: Graph, s: string, p: seq<string>, c: seq<string>) {
    IsWalk(g, p) && p[0] == s && IsWalk(g, c) && c[0] == p[|p| - 1] && c[|c| - 1] == c[0]
    && PathCost(g, c) < 0
  }

  ghost predicate NegativeCycleReachable(g: Graph, s: string) {
    exists p, c :: NegativeCycleVia(g, s, p, c)
  }

  predicate Distinct(p: seq<string>) {
    forall i, j | 0 <= i < j < |p| :: p[i] != p[j]
  }

  lemma WalkPrefix(g: Graph, p: seq<string>, k: int)
    requires IsWalk(g, p) && 1 <= k <= |p|
    ensures IsWalk(g, p[..k])
  {
    if k < |p| {
      assert HasEdge(g, p[k - 1], p[k]);
    }
  }

  lemma WalkSuffix(g: Graph, p: seq<string>, k: int)
    requires IsWalk(g, p) && 0 <= k < |p|
    ensures IsWalk(g, p[k..])
  {
    var q := p[k..];
    forall i | 0 <= i < |q| - 1 ensures HasEdge(g, q[i], q[i + 1]) {
      assert q[i] == p[k + i] && q[i + 1] == p[k + i + 1];
    }
  }

  /** Extending a walk by one stored link adds that link's cost. */
  lemma WalkExtend(g: Graph, p: seq<string>, v: string)
    requires IsWalk(g, p) && HasEdge(g, p[|p| - 1], v) && v in g
    ensures IsWalk(g, p + [v])
    ensures PathCost(g, p + [v]) == PathCost(g, p) + g[p[|p| - 1]][v]
  {
    var q := p + [v];
    assert forall i | 0 <= i < |p| :: q[i] == p[i];
    assert IsWalk(g, q);
    assert q[..|q| - 1] == p;
  }

  /** Cutting a walk at node k splits its cost into the two parts. */
  lemma {:induction false} CostSplit(g: Graph, p: seq<string>, k: int)
    requires IsWalk(g, p) && 0 <= k < |p|
    ensures IsWalk(g, p[..k + 1]) && IsWalk(g, p[k..])
    ensures PathCost(g, p) == PathCost(g, p[..k + 1]) + PathCost(g, p[k..])
    decreases |p|
  {
    WalkPrefix(g, p, k + 1);
    WalkSuffix(g, p, k);
    if k == |p| - 1 {
      assert p[..k + 1] == p;
      assert p[k..] == [p[k]];
    } else {
      var n := |p|;
      var init := p[..n - 1];
      WalkPrefix(g, p, n - 1);
      CostSplit(g, init, k);
      assert init[..k + 1] == p[..k + 1];
      assert init[k..] == p[k..n - 1];
      var tail := p[k..];
      assert tail[..|tail| - 1] == p[k..n - 1];
      assert tail[|tail| - 2] == p[n - 2] && tail[|tail| - 1] == p[n - 1];
    }
  }

  /** Joining a walk ending at x with a walk starting at x. */
  lemma CostJoin(g: Graph, a: seq<string>, b: seq<string>)
    requires IsWalk(g, a) && IsWalk(g, b) && a[|a| - 1] == b[0]
    ensures IsWalk(g, a + b[1..])
    ensures PathCost(g, a + b[1..]) == PathCost(g, a) + PathCost(g, b)
  {
    var q := a + b[1..];
    forall i | 0 <= i < |q| - 1 ensures HasEdge(g, q[i], q[i + 1]) {
      if i < |a| - 1 {
        assert q[i] == a[i] && q[i + 1] == a[i + 1];
      } else {
        var j := i - |a| + 1;
        assert q[i] == b[j] && q[i + 1] == b[j + 1];
      }
    }
    assert q[|q| - 1] == if |b| == 1 then a[|a| - 1] else b[|b| - 1];
    CostSplit(g, q, |a| - 1);
    assert q[..|a|] == a;
    assert q[|a| - 1..] == b;
  }

  /** A sequence longer than the set its elements come from repeats an element. */
  lemma {:induction false} Pigeonhole(p: seq<string>, s: set<string>) returns (i: int, j: int)
    requires forall k | 0 <= k < |p| :: p[k] in s
    requires |p| > |s|
    ensures 0 <= i < j < |p| && p[i] == p[j]
    decreases |p|
  {
    if k :| 1 <= k < |p| && p[k] == p[0] {
      i, j := 0, k;
    } else {
      var rest := p[1..];
      forall k | 0 <= k < |rest| ensures rest[k] in s - {p[0]} {
        assert rest[k] == p[k + 1];
      }
      var i', j' := Pigeonhole(rest, s - {p[0]});
      i, j := i' + 1, j' + 1;
    }
  }

  lemma DistinctBound(p: seq<string>, s: set<string>)
    requires Distinct(p) && forall k | 0 <= k < |p| :: p[k] in s
    ensures |p| <= |s|
  {
    if |p| > |s| {
      var i, j := Pigeonhole(p, s);
    }
  }

  /**
   * With no negative closed walk reachable from s, every walk from s can be
   * replaced by one through at most |g| nodes that costs no more.
   */
  lemma {:induction false} Shorten(g: Graph, s: string, v: string, p: seq<string>) returns (q: seq<string>)
    requires !NegativeCycleReachable(g, s)
    requires WalkFrom(g, s, v, p)
    ensures WalkFrom(g, s, v, q) && |q| <= |g.Keys| && PathCost(g, q) <= PathCost(g, p)
    decreases |p|
  {
    if |p| <= |g.Keys| {
      return p;
    }
    forall k | 0 <= k < |p| ensures p[k] in g.Keys {
      if k < |p| - 1 { assert HasEdge(g, p[k], p[k + 1]); }
    }
    var i, j := Pigeonhole(p, g.Keys);
    CostSplit(g, p, i);
    var head, rest := p[..i + 1], p[i..];
    CostSplit(g, rest, j - i);
    var loop, tail := rest[..j - i + 1], rest[j - i..];
    assert loop[0] == p[i] && loop[|loop| - 1] == p[j];
    assert !NegativeCycleVia(g, s, head, loop);
    CostJoin(g, head, tail);
    var shorter := head + tail[1..];
    assert shorter[|shorter| - 1] == v by {
      if |tail| == 1 { assert tail == [p[j]] && j == |p| - 1; }
    }
    q := Shorten(g, s, v, shorter);
  }

  /**
   * Potential argument shared by both shortest-path algorithms: when `dist`
   * is finite on a set closed under links and no link can lower it, the
   * value at the end of any walk leaving that set is bounded by the value at
   * its start plus the walk's cost.
   */
  ghost predicate Relaxed(g: Graph, dist: map<string, int>) {
    forall u, v | HasEdge(g, u, v) && u in dist :: v in dist && dist[v] <= dist[u] + g[u][v]
  }

  lemma {:induction false} PotentialBound(g: Graph, dist: map<string, int>, p: seq<string>)
    requires Relaxed(g, dist) && IsWalk(g, p) && p[0] in dist
    ensures p[|p| - 1] in dist && dist[p[|p| - 1]] <= dist[p[0]] + PathCost(g, p)
    decreases |p|
  {
    if |p| > 1 {
      var init := p[..|p| - 1];
      WalkPrefix(g, p, |p| - 1);
      PotentialBound(g, dist, init);
      assert HasEdge(g, p[|p| - 2], p[|p| - 1]);
    }
  }

  /** A closed walk of negative cost uses at least one negative link. */
  lemma {:induction false} NegativeCostHasNegativeEdge(g: Graph, p: seq<string>)
    requires IsWalk(g, p) && PathCost(g, p) < 0
    ensures NegativeEdgeIn(g)
    decreases |p|
  {
    var init := p[..|p| - 1];
    WalkPrefix(g, p, |p| - 1);
    var u, v := p[|p| - 2], p[|p| - 1];
    assert HasEdge(g, u, v);
    if g[u][v] >= 0 {
      NegativeCostHasNegativeEdge(g, init);
    }
  }

  /** Bellman-Ford can only refuse where Dijkstra refuses too. */
  lemma NegativeCycleNeedsNegativeEdge(g: Graph, s: string)
    ensures NegativeCycleReachable(g, s) ==> NegativeEdgeIn(g)
  {
    if NegativeCycleReachable(g, s) {
      var p, c :| NegativeCycleVia(g, s, p, c);
      NegativeCostHasNegativeEdge(g, c);
    }
  }
}
