// The invariants of `Network.bellman_ford`: its relaxation passes, its
// negative-cycle check and its walk back along the recorded predecessors.

module BellmanFordProof {
  import opened Walks
  import opened Routing

  /** One item `(u, v, weight)` of the edge list built before the passes. */
  datatype Link = Link(src: string, dst: string, cost: int)

  type Preds = map<string, Option<string>>

  /** `edges` lists every stored link of g, with its cost, and nothing else. */
  ghost predicate EdgesOf(g: Graph, edges: seq<Link>) {
    && (forall i | 0 <= i < |edges| :: HasEdge(g, edges[i].src, edges[i].dst) && g[edges[i].src][edges[i].dst] == edges[i].cost)
    && (forall u, v | HasEdge(g, u, v) :: Link(u, v, g[u][v]) in edges)
  }

  /** The relaxation test `min_costs[u] != inf and min_costs[u] + weight < min_costs[v]`. */
  predicate CanRelax(dist: map<string, Cost>, e: Link)
    requires e.src in dist && e.dst in dist
  {
    dist[e.src].Fin? && Lt(Fin(dist[e.src].n + e.cost), dist[e.dst])
  }

  /** u is the recorded predecessor of v. */
  predicate PredIs(pred: Preds, u: string, v: string) {
    v in pred && pred[v] == Some(u)
  }

  /** Each node after the first has the node before it as recorded predecessor. */
  ghost predicate PredWalk(pred: Preds, p: seq<string>) {
    |p| >= 1 &&
      forall i, j {:trigger PredIs(pred, p[i], p[j])} | 0 <= i < |p| - 1 && j == i + 1 :: PredIs(pred, p[i], p[j])
  }

  /** Following predecessors never leads back to where it started. */
  ghost predicate NoPredCycle(pred: Preds) {
    forall p | PredWalk(pred, p) && |p| >= 2 :: p[0] != p[|p| - 1]
  }

  /** A predecessor link is a stored link along which both ends are finite and tight enough. */
  ghost predicate LinkOk(g: Graph, dist: map<string, Cost>, u: string, v: string) {
    && HasEdge(g, u, v) && u in dist && v in dist && dist[u].Fin? && dist[v].Fin?
    && dist[u].n + g[u][v] <= dist[v].n
  }

  /**
   * What the relaxation passes keep true: every finite cost is the cost of
   * some walk from s (`wit`), every finite router but s has a predecessor,
   * every predecessor link is a LinkOk, and predecessors form no cycle unless
   * a negative closed walk is reachable from s.
   */
  ghost predicate RelaxInv(g: Graph, s: string, dist: map<string, Cost>, pred: Preds, wit: map<string, seq<string>>) {
    && s in g && EndpointsKnown(g) && dist.Keys == g.Keys && pred.Keys == g.Keys
    && dist[s].Fin? && dist[s].n <= 0 && (pred[s].Some? ==> dist[s].n < 0)
    && (forall v | v in g && dist[v].Fin? :: v in wit && WalkFrom(g, s, v, wit[v]) && PathCost(g, wit[v]) == dist[v].n)
    && (forall v | v in g && v != s && dist[v].Fin? :: pred[v].Some?)
    && (forall u, v | PredIs(pred, u, v) :: LinkOk(g, dist, u, v))
    && (!NegativeCycleReachable(g, s) ==> NoPredCycle(pred))
  }

  /** `d2` is nowhere worse than `d1`: finite stays finite and never grows. */
  ghost predicate NoWorse(d2: map<string, Cost>, d1: map<string, Cost>) {
    d2.Keys == d1.Keys && forall v | v in d1 && d1[v].Fin? :: d2[v].Fin? && d2[v].n <= d1[v].n
  }

  /** The cost recorded for the end of walk p is finite and at most the walk's cost. */
  ghost predicate WithinBound(g: Graph, dist: map<string, Cost>, p: seq<string>)
    requires IsWalk(g, p)
  {
    p[|p| - 1] in dist && dist[p[|p| - 1]].Fin? && dist[p[|p| - 1]].n <= PathCost(g, p)
  }

  /** After k passes: every walk from s with at most k links is bounded. */
  ghost predicate BoundedBy(g: Graph, s: string, dist: map<string, Cost>, k: int) {
    forall p | IsWalk(g, p) && p[0] == s && |p| <= k + 1 :: WithinBound(g, dist, p)
  }

  /** Within pass k + 1, after the first j edges of the list. */
  ghost predicate PassProgress(g: Graph, s: string, dist: map<string, Cost>, k: int, edges: seq<Link>, j: int)
    requires 0 <= k && 0 <= j <= |edges|
  {
    && BoundedBy(g, s, dist, k)
    && forall p, i | IsWalk(g, p) && p[0] == s && |p| == k + 2 && 0 <= i < j
                     && edges[i].src == p[k] && edges[i].dst == p[k + 1] :: WithinBound(g, dist, p)
  }

  /** Some listed edge still passes the relaxation test. */
  ghost predicate SomeRelaxable(dist: map<string, Cost>, edges: seq<Link>)
    requires forall i | 0 <= i < |edges| :: edges[i].src in dist && edges[i].dst in dist
  {
    exists i | 0 <= i < |edges| :: CanRelax(dist, edges[i])
  }

  // ---------------------------------------------------------------- start

  lemma InitialRelaxInv(g: Graph, s: string, dist: map<string, Cost>, pred: Preds)
    requires s in g && EndpointsKnown(g)
    requires dist == (map r | r in g :: Inf)[s := Fin(0)]
    requires pred == map r | r in g :: None
    ensures RelaxInv(g, s, dist, pred, map[s := [s]])
    ensures BoundedBy(g, s, dist, 0)
  {
    SingletonWalk(g, s);
    forall p | |p| >= 2 ensures !PredWalk(pred, p) {
      assert !PredIs(pred, p[0], p[1]);
    }
  }

  // ----------------------------------------------------------- relaxation

  /** One successful relaxation of link e keeps RelaxInv. */
  lemma RelaxStep(g: Graph, s: string, dist: map<string, Cost>, pred: Preds, wit: map<string, seq<string>>,
                  e: Link, dist': map<string, Cost>, pred': Preds, wit': map<string, seq<string>>)
    requires RelaxInv(g, s, dist, pred, wit)
    requires HasEdge(g, e.src, e.dst) && g[e.src][e.dst] == e.cost
    requires CanRelax(dist, e)
    requires dist' == dist[e.dst := Fin(dist[e.src].n + e.cost)]
    requires pred' == pred[e.dst := Some(e.src)]
    requires wit' == wit[e.dst := wit[e.src] + [e.dst]]
    ensures RelaxInv(g, s, dist', pred', wit')
    ensures NoWorse(dist', dist)
  {
    var u, v := e.src, e.dst;
    assert v in g;
    RelaxWitness(g, s, dist, wit, e, dist', wit');
    RelaxLinks(g, dist, pred, e, dist', pred');
    if !NegativeCycleReachable(g, s) {
      forall p | PredWalk(pred', p) && |p| >= 2 ensures p[0] != p[|p| - 1] {
        CycleIsNegative(g, s, dist, pred, wit, e, pred', p);
      }
    }
  }

  lemma RelaxWitness(g: Graph, s: string, dist: map<string, Cost>, wit: map<string, seq<string>>,
                     e: Link, dist': map<string, Cost>, wit': map<string, seq<string>>)
    requires s in g && EndpointsKnown(g) && dist.Keys == g.Keys
    requires forall v | v in g && dist[v].Fin? :: v in wit && WalkFrom(g, s, v, wit[v]) && PathCost(g, wit[v]) == dist[v].n
    requires HasEdge(g, e.src, e.dst) && g[e.src][e.dst] == e.cost && CanRelax(dist, e)
    requires dist' == dist[e.dst := Fin(dist[e.src].n + e.cost)]
    requires wit' == wit[e.dst := wit[e.src] + [e.dst]]
    ensures forall v | v in g && dist'[v].Fin? :: v in wit' && WalkFrom(g, s, v, wit'[v]) && PathCost(g, wit'[v]) == dist'[v].n
  {
    assert e.dst in g;
    assert WalkFrom(g, s, e.src, wit[e.src]);
    WalkExtend(g, wit[e.src], e.dst);
  }

  lemma RelaxLinks(g: Graph, dist: map<string, Cost>, pred: Preds, e: Link, dist': map<string, Cost>, pred': Preds)
    requires EndpointsKnown(g) && dist.Keys == g.Keys
    requires forall u, v | PredIs(pred, u, v) :: LinkOk(g, dist, u, v)
    requires HasEdge(g, e.src, e.dst) && g[e.src][e.dst] == e.cost && CanRelax(dist, e)
    requires dist' == dist[e.dst := Fin(dist[e.src].n + e.cost)]
    requires pred' == pred[e.dst := Some(e.src)]
    ensures forall u, v | PredIs(pred', u, v) :: LinkOk(g, dist', u, v)
    ensures NoWorse(dist', dist)
  {
    forall u, v | PredIs(pred', u, v) ensures LinkOk(g, dist', u, v) {
      if v != e.dst {
        assert PredIs(pred, u, v);
        assert LinkOk(g, dist, u, v);
      }
    }
  }

  /** A predecessor cycle created by relaxing e is a negative closed walk reachable from s. */
  lemma CycleIsNegative(g: Graph, s: string, dist: map<string, Cost>, pred: Preds, wit: map<string, seq<string>>,
                        e: Link, pred': Preds, p: seq<string>)
    requires RelaxInv(g, s, dist, pred, wit) && NoPredCycle(pred)
    requires HasEdge(g, e.src, e.dst) && g[e.src][e.dst] == e.cost && CanRelax(dist, e)
    requires pred' == pred[e.dst := Some(e.src)]
    requires PredWalk(pred', p) && |p| >= 2
    ensures p[0] == p[|p| - 1] ==> NegativeCycleReachable(g, s)
  {
    var v := e.dst;
    if j :| 1 <= j < |p| && p[j] == v {
      if p[0] == p[|p| - 1] {
        var q := Rotate(pred', p, j);
        var m := FirstReturn(q, v);
        var r := q[..m + 1];
        var pre, c := NegativeCycleFromReturn(g, s, dist, pred, wit, e, pred', q, m);
      }
    } else {
      OldPredWalk(pred, pred', v, p);
    }
  }

  /** Without the relaxed router inside it, a walk along new predecessors is one along old ones. */
  lemma OldPredWalk(pred: Preds, pred': Preds, v: string, p: seq<string>)
    requires PredWalk(pred', p) && forall k | 1 <= k < |p| :: p[k] != v
    requires v in pred' && pred' == pred[v := pred'[v]]
    ensures PredWalk(pred, p)
  {
    forall i, j | 0 <= i < |p| - 1 && j == i + 1 ensures PredIs(pred, p[i], p[j]) {
      assert PredIs(pred', p[i], p[j]);
    }
  }

  lemma PredJoin(pred: Preds, a: seq<string>, b: seq<string>)
    requires PredWalk(pred, a) && PredWalk(pred, b) && a[|a| - 1] == b[0]
    ensures PredWalk(pred, a + b[1..])
  {
    var q := a + b[1..];
    forall i, j | 0 <= i < |q| - 1 && j == i + 1 ensures PredIs(pred, q[i], q[j]) {
      if i < |a| - 1 {
        assert q[i] == a[i] && q[j] == a[i + 1];
        assert PredIs(pred, a[i], a[i + 1]);
      } else {
        var k := i - |a| + 1;
        assert q[i] == b[k] && q[j] == b[k + 1];
        assert PredIs(pred, b[k], b[k + 1]);
      }
    }
  }

  lemma PredSlice(pred: Preds, p: seq<string>, a: int, b: int)
    requires PredWalk(pred, p) && 0 <= a < b <= |p|
    ensures PredWalk(pred, p[a..b])
  {
    var q := p[a..b];
    forall i, j | 0 <= i < |q| - 1 && j == i + 1 ensures PredIs(pred, q[i], q[j]) {
      assert q[i] == p[a + i] && q[j] == p[a + i + 1];
      assert PredIs(pred, p[a + i], p[a + i + 1]);
    }
  }

  /** A predecessor walk extended at its front by the predecessor of its first node. */
  lemma PredPrepend(pred: Preds, c: string, p: seq<string>)
    requires PredWalk(pred, p) && PredIs(pred, c, p[0])
    ensures PredWalk(pred, [c] + p)
  {
    var q := [c] + p;
    forall i, j | 0 <= i < |q| - 1 && j == i + 1 ensures PredIs(pred, q[i], q[j]) {
      if i > 0 {
        assert q[i] == p[i - 1] && q[j] == p[i];
        assert PredIs(pred, p[i - 1], p[i]);
      }
    }
  }

  /** A closed predecessor walk restarted at its j-th node. */
  lemma Rotate(pred: Preds, p: seq<string>, j: int) returns (q: seq<string>)
    requires PredWalk(pred, p) && |p| >= 2 && p[0] == p[|p| - 1] && 1 <= j < |p|
    ensures PredWalk(pred, q) && |q| >= 2 && q[0] == p[j] && q[|q| - 1] == p[j]
  {
    PredSlice(pred, p, j, |p|);
    PredSlice(pred, p, 0, j + 1);
    var a, b := p[j..], p[..j + 1];
    PredJoin(pred, a, b);
    q := a + b[1..];
    assert |b| >= 2;
    assert q[|q| - 1] == b[|b| - 1];
  }

  /** The first position after 0 at which a walk ending at v is back at v. */
  lemma FirstReturn(q: seq<string>, v: string) returns (m: int)
    requires |q| >= 2 && q[|q| - 1] == v
    ensures 1 <= m < |q| && q[m] == v && forall k | 1 <= k < m :: q[k] != v
  {
    m := 1;
    while q[m] != v
      invariant 1 <= m < |q| && forall k | 1 <= k < m :: q[k] != v
      decreases |q| - m
    {
      m := m + 1;
    }
  }

  /** Costs never drop along old predecessor links faster than the links cost. */
  lemma {:induction false} Telescope(g: Graph, dist: map<string, Cost>, pred: Preds, p: seq<string>)
    requires EndpointsKnown(g) && dist.Keys == g.Keys
    requires forall u, v | PredIs(pred, u, v) :: LinkOk(g, dist, u, v)
    requires PredWalk(pred, p) && p[0] in g && dist[p[0]].Fin?
    ensures IsWalk(g, p) && dist[p[|p| - 1]].Fin?
    ensures dist[p[0]].n + PathCost(g, p) <= dist[p[|p| - 1]].n
    decreases |p|
  {
    if |p| > 1 {
      var n := |p|;
      var init := p[..n - 1];
      PredSlice(pred, p, 0, n - 1);
      assert init == p[0..n - 1];
      Telescope(g, dist, pred, init);
      assert PredIs(pred, p[n - 2], p[n - 1]);
      assert LinkOk(g, dist, p[n - 2], p[n - 1]);
      assert init[|init| - 1] == p[n - 2];
      WalkExtend(g, init, p[n - 1]);
      assert init + [p[n - 1]] == p;
    }
  }

  /** The closed walk q[..m + 1] through the relaxed router is negative and reachable from s. */
  lemma NegativeCycleFromReturn(g: Graph, s: string, dist: map<string, Cost>, pred: Preds,
                                wit: map<string, seq<string>>, e: Link, pred': Preds, q: seq<string>, m: int)
    returns (pre: seq<string>, c: seq<string>)
    requires RelaxInv(g, s, dist, pred, wit)
    requires HasEdge(g, e.src, e.dst) && g[e.src][e.dst] == e.cost && CanRelax(dist, e)
    requires pred' == pred[e.dst := Some(e.src)]
    requires PredWalk(pred', q) && q[0] == e.dst
    requires 1 <= m < |q| && q[m] == e.dst && forall k | 1 <= k < m :: q[k] != e.dst
    ensures NegativeCycleVia(g, s, pre, c)
  {
    var u, v := e.src, e.dst;
    assert v in g;
    var head := q[..m];
    PredSlice(pred', q, 0, m);
    assert head == q[0..m];
    forall k | 1 <= k < |head| ensures head[k] != v {
      assert head[k] == q[k];
    }
    OldPredWalk(pred, pred', v, head);
    assert PredIs(pred', q[m - 1], q[m]);
    assert head[|head| - 1] == u;
    if m == 1 {
      assert head == [v];
    } else {
      assert PredIs(pred, head[0], head[1]);
      assert LinkOk(g, dist, head[0], head[1]);
    }
    Telescope(g, dist, pred, head);
    WalkExtend(g, head, v);
    c := head + [v];
    assert WalkFrom(g, s, u, wit[u]);
    WalkExtend(g, wit[u], v);
    pre := wit[u] + [v];
  }

  // --------------------------------------------------------------- passes

  lemma NoWorseBounded(g: Graph, s: string, dist: map<string, Cost>, dist': map<string, Cost>, k: int)
    requires BoundedBy(g, s, dist, k) && NoWorse(dist', dist)
    ensures BoundedBy(g, s, dist', k)
  {
    forall p | IsWalk(g, p) && p[0] == s && |p| <= k + 1 ensures WithinBound(g, dist', p) {
      assert WithinBound(g, dist, p);
    }
  }

  /** Processing edge j of pass k + 1 extends the progress to j + 1. */
  lemma PassStep(g: Graph, s: string, dist: map<string, Cost>, dist': map<string, Cost>, k: int,
                 edges: seq<Link>, j: int, e: Link)
    requires dist.Keys == g.Keys && EdgesOf(g, edges) && k >= 0
    requires 0 <= j < |edges| && e == edges[j] && PassProgress(g, s, dist, k, edges, j)
    requires e.src in dist && e.dst in dist
    requires if CanRelax(dist, e) then dist' == dist[e.dst := Fin(dist[e.src].n + e.cost)] else dist' == dist
    ensures NoWorse(dist', dist)
    ensures PassProgress(g, s, dist', k, edges, j + 1)
  {
    assert HasEdge(g, e.src, e.dst);
    NoWorseBounded(g, s, dist, dist', k);
    forall p, i | IsWalk(g, p) && p[0] == s && |p| == k + 2 && 0 <= i < j + 1
                  && edges[i].src == p[k] && edges[i].dst == p[k + 1]
      ensures WithinBound(g, dist', p)
    {
      if i < j {
        assert WithinBound(g, dist, p);
      } else {
        LastLinkBound(g, s, dist, dist', k, e, p);
      }
    }
  }

  /** A walk of k + 1 links ending with the link just processed is now bounded. */
  lemma LastLinkBound(g: Graph, s: string, dist: map<string, Cost>, dist': map<string, Cost>, k: int,
                      e: Link, p: seq<string>)
    requires dist.Keys == g.Keys && k >= 0 && BoundedBy(g, s, dist, k)
    requires HasEdge(g, e.src, e.dst) && g[e.src][e.dst] == e.cost
    requires IsWalk(g, p) && p[0] == s && |p| == k + 2 && e.src == p[k] && e.dst == p[k + 1]
    requires e.dst in dist
    requires if CanRelax(dist, e) then dist' == dist[e.dst := Fin(dist[e.src].n + e.cost)] else dist' == dist
    ensures WithinBound(g, dist', p)
  {
    var init := p[..k + 1];
    WalkPrefix(g, p, k + 1);
    assert WithinBound(g, dist, init);
    WalkExtend(g, init, p[k + 1]);
    assert init + [p[k + 1]] == p;
  }

  /** Edge j of pass k + 1 passes the relaxation test and is used. */
  lemma LinkRelaxed(g: Graph, s: string, edges: seq<Link>, k: int, j: int, e: Link,
                    dist: map<string, Cost>, pred: Preds, wit: map<string, seq<string>>,
                    dist': map<string, Cost>, pred': Preds, wit': map<string, seq<string>>)
    requires EdgesOf(g, edges) && k >= 0 && 0 <= j < |edges| && e == edges[j]
    requires RelaxInv(g, s, dist, pred, wit) && PassProgress(g, s, dist, k, edges, j)
    requires e.src in dist && e.dst in dist && CanRelax(dist, e)
    requires dist' == dist[e.dst := Fin(dist[e.src].n + e.cost)]
    requires pred' == pred[e.dst := Some(e.src)]
    requires wit' == wit[e.dst := wit[e.src] + [e.dst]]
    ensures RelaxInv(g, s, dist', pred', wit') && PassProgress(g, s, dist', k, edges, j + 1)
  {
    assert HasEdge(g, e.src, e.dst) && g[e.src][e.dst] == e.cost;
    RelaxStep(g, s, dist, pred, wit, e, dist', pred', wit');
    PassStep(g, s, dist, dist', k, edges, j, e);
  }

  /** Edge j of pass k + 1 fails the relaxation test and changes nothing. */
  lemma LinkKept(g: Graph, s: string, edges: seq<Link>, k: int, j: int, dist: map<string, Cost>)
    requires dist.Keys == g.Keys && EdgesOf(g, edges) && k >= 0 && 0 <= j < |edges|
    requires PassProgress(g, s, dist, k, edges, j)
    requires edges[j].src in dist && edges[j].dst in dist && !CanRelax(dist, edges[j])
    ensures PassProgress(g, s, dist, k, edges, j + 1)
  {
    PassStep(g, s, dist, dist, k, edges, j, edges[j]);
  }

  /** A full pass over a complete edge list bounds walks one link longer. */
  lemma PassDone(g: Graph, s: string, dist: map<string, Cost>, k: int, edges: seq<Link>)
    requires EdgesOf(g, edges) && k >= 0 && PassProgress(g, s, dist, k, edges, |edges|)
    ensures BoundedBy(g, s, dist, k + 1)
  {
    forall p | IsWalk(g, p) && p[0] == s && |p| <= k + 2 ensures WithinBound(g, dist, p) {
      if |p| == k + 2 {
        assert HasEdge(g, p[k], p[k + 1]);
        var i :| 0 <= i < |edges| && edges[i] == Link(p[k], p[k + 1], g[p[k]][p[k + 1]]);
      }
    }
  }

  lemma StartPass(g: Graph, s: string, dist: map<string, Cost>, k: int, edges: seq<Link>)
    requires k >= 0 && BoundedBy(g, s, dist, k)
    ensures PassProgress(g, s, dist, k, edges, 0)
  {
  }

  // -------------------------------------------------------- after passes

  /** With no negative closed walk reachable, |V| - 1 passes bound every walk from s. */
  lemma BoundsAllWalks(g: Graph, s: string, dist: map<string, Cost>, v: string, p: seq<string>)
    requires !NegativeCycleReachable(g, s) && BoundedBy(g, s, dist, |g.Keys| - 1)
    requires WalkFrom(g, s, v, p)
    ensures WithinBound(g, dist, p)
  {
    var q := Shorten(g, s, v, p);
    assert WithinBound(g, dist, q);
  }

  /** Check pass: with no negative closed walk reachable, no listed edge can be relaxed. */
  lemma NoNegativeCycleNoRelax(g: Graph, s: string, dist: map<string, Cost>, pred: Preds,
                               wit: map<string, seq<string>>, edges: seq<Link>)
    requires RelaxInv(g, s, dist, pred, wit) && EdgesOf(g, edges)
    requires BoundedBy(g, s, dist, |g.Keys| - 1) && !NegativeCycleReachable(g, s)
    ensures forall i | 0 <= i < |edges| :: !CanRelax(dist, edges[i])
  {
    forall i | 0 <= i < |edges| ensures !CanRelax(dist, edges[i]) {
      var u, v := edges[i].src, edges[i].dst;
      assert HasEdge(g, u, v) && v in g;
      if dist[u].Fin? {
        assert WalkFrom(g, s, u, wit[u]);
        WalkExtend(g, wit[u], v);
        BoundsAllWalks(g, s, dist, v, wit[u] + [v]);
      }
    }
  }

  /** Check pass: when no listed edge can be relaxed, no negative closed walk is reachable. */
  lemma NoRelaxNoNegativeCycle(g: Graph, s: string, dist: map<string, Cost>, pred: Preds,
                               wit: map<string, seq<string>>, edges: seq<Link>)
    requires RelaxInv(g, s, dist, pred, wit) && EdgesOf(g, edges)
    requires forall i | 0 <= i < |edges| :: !CanRelax(dist, edges[i])
    ensures !NegativeCycleReachable(g, s)
  {
    var d := map v | v in g && dist[v].Fin? :: dist[v].n;
    forall u, v | HasEdge(g, u, v) && u in d ensures v in d && d[v] <= d[u] + g[u][v] {
      assert v in g;
      var i :| 0 <= i < |edges| && edges[i] == Link(u, v, g[u][v]);
      assert !CanRelax(dist, edges[i]);
    }
    assert Relaxed(g, d);
    forall p, c ensures !NegativeCycleVia(g, s, p, c) {
      if IsWalk(g, p) && p[0] == s && IsWalk(g, c) && c[0] == p[|p| - 1] && c[|c| - 1] == c[0] {
        PotentialBound(g, d, p);
        PotentialBound(g, d, c);
      }
    }
  }

  /** The check pass finds a relaxable edge exactly when a negative closed walk is reachable. */
  lemma CheckPassCorrect(g: Graph, s: string, dist: map<string, Cost>, pred: Preds,
                         wit: map<string, seq<string>>, edges: seq<Link>)
    requires RelaxInv(g, s, dist, pred, wit) && EdgesOf(g, edges)
    requires BoundedBy(g, s, dist, |g.Keys| - 1)
    ensures SomeRelaxable(dist, edges) <==> NegativeCycleReachable(g, s)
  {
    if NegativeCycleReachable(g, s) {
      if !SomeRelaxable(dist, edges) {
        NoRelaxNoNegativeCycle(g, s, dist, pred, wit, edges);
      }
    } else {
      NoNegativeCycleNoRelax(g, s, dist, pred, wit, edges);
    }
  }

  // ------------------------------------------------------ reconstruction

  /** With no negative closed walk reachable the source keeps cost 0 and no predecessor. */
  lemma SourceSettled(g: Graph, s: string, dist: map<string, Cost>, pred: Preds, wit: map<string, seq<string>>)
    requires RelaxInv(g, s, dist, pred, wit) && !NegativeCycleReachable(g, s)
    ensures dist[s] == Fin(0) && pred[s] == None
  {
    assert WalkFrom(g, s, s, wit[s]);
    SingletonWalk(g, s);
    assert !NegativeCycleVia(g, s, [s], wit[s]);
  }

  /**
   * The walk back from a finite router along predecessors, once it stops at a
   * router without one, starts at s and is a cheapest walk whose cost is the
   * computed one.
   */
  lemma TraceIsShortest(g: Graph, s: string, dist: map<string, Cost>, pred: Preds, wit: map<string, seq<string>>,
                        dest: string, path: seq<string>)
    requires RelaxInv(g, s, dist, pred, wit) && !NegativeCycleReachable(g, s)
    requires BoundedBy(g, s, dist, |g.Keys| - 1)
    requires dest in g && dist[dest].Fin?
    requires PredWalk(pred, path) && path[|path| - 1] == dest && path[0] in pred && pred[path[0]] == None
    ensures path[0] == s && ShortestWalk(g, s, dest, path) && PathCost(g, path) == dist[dest].n
    ensures dest == s ==> path == [s]
  {
    SourceSettled(g, s, dist, pred, wit);
    if |path| > 1 {
      assert PredIs(pred, path[0], path[1]);
      assert LinkOk(g, dist, path[0], path[1]);
    }
    assert path[0] == s;
    Telescope(g, dist, pred, path);
    forall q | WalkFrom(g, s, dest, q) ensures PathCost(g, path) <= PathCost(g, q) {
      BoundsAllWalks(g, s, dist, dest, q);
    }
    BoundsAllWalks(g, s, dist, dest, path);
    if |path| > 1 {
      assert path[0] != path[|path| - 1];
    }
  }

  /** Every recorded predecessor is a router, and predecessors form no cycle. */
  lemma PredsClosed(g: Graph, s: string, dist: map<string, Cost>, pred: Preds, wit: map<string, seq<string>>)
    requires RelaxInv(g, s, dist, pred, wit) && !NegativeCycleReachable(g, s)
    ensures forall v | v in pred && pred[v].Some? :: pred[v].value in pred
    ensures NoPredCycle(pred)
  {
    forall v | v in pred && pred[v].Some? ensures pred[v].value in pred {
      assert PredIs(pred, pred[v].value, v);
    }
  }

  /** A finite cost after the passes means reachable, and reachable means finite. */
  lemma FiniteIffReachable(g: Graph, s: string, dist: map<string, Cost>, pred: Preds,
                           wit: map<string, seq<string>>, v: string)
    requires RelaxInv(g, s, dist, pred, wit) && !NegativeCycleReachable(g, s)
    requires BoundedBy(g, s, dist, |g.Keys| - 1) && v in g
    ensures dist[v].Fin? <==> Reachable(g, s, v)
  {
    if Reachable(g, s, v) {
      var p :| WalkFrom(g, s, v, p);
      BoundsAllWalks(g, s, dist, v, p);
    }
    if dist[v].Fin? {
      assert WalkFrom(g, s, v, wit[v]);
    }
  }

  // ------------------------------------------------------ reconstruction

  /**
   * The reconstruction loop after every router outside `todo` is handled:
   * exactly the handled routers of finite cost have a path, each a cheapest
   * walk of the computed cost, and the table rows follow the paths.
   */
  ghost predicate Rebuilt(g: Graph, s: string, dist: map<string, Cost>, paths: map<string, seq<string>>,
                          table: Table, todo: set<string>)
  {
    && todo <= g.Keys && paths.Keys <= g.Keys && dist.Keys == g.Keys && table.Keys == g.Keys
    && (forall v | v in g && v !in todo :: v in paths <==> dist[v].Fin?)
    && (forall v | v in paths :: v !in todo && ShortestWalk(g, s, v, paths[v]) && PathCost(g, paths[v]) == dist[v].n)
    && (s in paths ==> paths[s] == [s])
    && (forall v | v in g ::
          table[v] == if v in paths then Entry(Some(NextHop(s, paths[v])), dist[v])
                      else if v == s then Entry(Some(s), Fin(0)) else Entry(None, Inf))
  }

  lemma RebuildStart(g: Graph, s: string, dist: map<string, Cost>, table: Table)
    requires s in g && dist.Keys == g.Keys && table == ResetTable(g.Keys, s)
    ensures Rebuilt(g, s, dist, map[], table, g.Keys)
  {
  }

  /** A router of finite cost gets its traced path and the row for it. */
  lemma RebuildFound(g: Graph, s: string, dist: map<string, Cost>, paths: map<string, seq<string>>,
                     table: Table, todo: set<string>, dest: string, path: seq<string>)
    requires Rebuilt(g, s, dist, paths, table, todo) && dest in todo && dist[dest].Fin?
    requires ShortestWalk(g, s, dest, path) && PathCost(g, path) == dist[dest].n
    requires dest == s ==> path == [s]
    ensures Rebuilt(g, s, dist, paths[dest := path], table[dest := Entry(Some(NextHop(s, path)), dist[dest])],
                    todo - {dest})
  {
  }

  /**
   * A router of finite cost whose walk back along predecessors is `path`
   * gets that path and the row (second node of the path, or itself, and its
   * cost).
   */
  lemma TracedRow(g: Graph, s: string, dist: map<string, Cost>, pred: Preds, wit: map<string, seq<string>>,
                  paths: map<string, seq<string>>, table: Table, todo: set<string>, dest: string, path: seq<string>)
    requires RelaxInv(g, s, dist, pred, wit) && !NegativeCycleReachable(g, s)
    requires BoundedBy(g, s, dist, |g.Keys| - 1)
    requires Rebuilt(g, s, dist, paths, table, todo) && dest in todo && dist[dest].Fin?
    requires PredWalk(pred, path) && path[|path| - 1] == dest && path[0] in pred && pred[path[0]] == None
    ensures Rebuilt(g, s, dist, paths[dest := path],
                    table[dest := Entry(Some(if |path| > 1 then path[1] else dest), dist[dest])], todo - {dest})
  {
    TraceIsShortest(g, s, dist, pred, wit, dest, path);
    RebuildFound(g, s, dist, paths, table, todo, dest, path);
  }

  /** A router of infinite cost keeps its (None, inf) row. */
  lemma RebuildSkip(g: Graph, s: string, dist: map<string, Cost>, paths: map<string, seq<string>>,
                    table: Table, todo: set<string>, dest: string)
    requires Rebuilt(g, s, dist, paths, table, todo) && dest in todo && dist[dest].Inf?
    ensures Rebuilt(g, s, dist, paths, table, todo - {dest})
  {
  }

  /** Once every router is handled, the paths and the table are what `bellman_ford` promises. */
  lemma RebuildDone(g: Graph, s: string, dist: map<string, Cost>, pred: Preds, wit: map<string, seq<string>>,
                    paths: map<string, seq<string>>, table: Table)
    requires RelaxInv(g, s, dist, pred, wit) && !NegativeCycleReachable(g, s)
    requires BoundedBy(g, s, dist, |g.Keys| - 1)
    requires Rebuilt(g, s, dist, paths, table, {})
    ensures BellmanFordResult(g, s, paths) && table == TableOf(g, s, paths)
  {
    forall v | v in g ensures v in paths <==> Reachable(g, s, v) {
      FiniteIffReachable(g, s, dist, pred, wit, v);
    }
    RebuiltTable(g, s, dist, paths, table);
  }

  lemma RebuiltTable(g: Graph, s: string, dist: map<string, Cost>, paths: map<string, seq<string>>, table: Table)
    requires Rebuilt(g, s, dist, paths, table, {}) && s in g && dist[s].Fin?
    ensures table == TableOf(g, s, paths)
  {
    var t := TableOf(g, s, paths);
    forall v | v in g ensures table[v] == t[v] {
      if v in paths {
        assert WalkFrom(g, s, v, paths[v]);
      }
    }
  }
}
