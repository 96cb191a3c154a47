// The simulator's routing engine: routers with their routing tables, the
// network's topology operations, Dijkstra and Bellman-Ford for one source,
// the batch refresh of every table, and the text dump of all tables.

module NetworkSimulator {
  import opened Walks
  import opened Topology
  import opened Routing
  import opened DijkstraProof
  import opened BellmanFordProof
  import opened Text

  /** A router: its name and its routing table, destination -> (next hop, cost). */
  class Router {
    const name: string
    var table: Table

    /** A new router knows only the route to itself, at cost 0. */
    constructor (name: string)
      ensures this.name == name && table == map[name := Entry(Some(name), Fin(0))]
    {
      this.name := name;
      table := map[name := Entry(Some(name), Fin(0))];
    }
  }

  /** `heapq.heappop`: the position of an item of least cost. */
  method HeapPop(pq: seq<QEntry>) returns (i: int)
    requires |pq| > 0
    ensures 0 <= i < |pq| && forall k | 0 <= k < |pq| :: pq[i].cost <= pq[k].cost
  {
    i := 0;
    var k := 1;
    while k < |pq|
      invariant 0 <= i < k <= |pq|
      invariant forall j | 0 <= j < k :: pq[i].cost <= pq[j].cost
    {
      if pq[k].cost < pq[i].cost {
        i := k;
      }
      k := k + 1;
    }
  }

  /**
   * The body of `dijkstra` once the source is known and no link is negative:
   * resets the source router's table, then settles routers in order of cost,
   * writing each one's path and table row as it is settled.
   */
  method DijkstraRun(g: Graph, start: string, router: Router) returns (paths: map<string, seq<string>>)
    requires start in g && EndpointsKnown(g) && NonNegative(g)
    modifies router
    ensures DijkstraResult(g, start, paths) && router.table == TableOf(g, start, paths)
  {
    var pq := [QEntry(0, start, [])];
    var dist := (map r | r in g :: Inf)[start := Fin(0)];
    paths := map r | r in g :: [];
    router.table := ResetTable(g.Keys, start);
    ghost var settled: set<string> := {};
    ghost var slot := map[start := QEntry(0, start, [])];
    InitialInv(g, start, dist, paths, router.table);
    while |pq| > 0
      invariant Inv(g, start, pq, dist, paths, router.table, settled, slot)
      decreases |g.Keys - settled|, |pq|
    {
      ghost var before := g.Keys - settled;
      ghost var size := |pq|;
      pq, dist, paths, settled, slot := Round(g, start, router, pq, dist, paths, settled, slot);
      assert |g.Keys - settled| < |before| || (g.Keys - settled == before && |pq| < size);
    }
    Complete(g, start, dist, paths, router.table, settled, slot);
  }

  /**
   * One round of `dijkstra`'s `while pq` loop: pop an item of least cost;
   * skip it if a cheaper route to its router is known, otherwise visit it.
   */
  method Round(g: Graph, start: string, router: Router, pq: seq<QEntry>, dist: map<string, Cost>,
               paths: map<string, seq<string>>, ghost settled: set<string>, ghost slot: map<string, QEntry>)
    returns (pq': seq<QEntry>, dist': map<string, Cost>, paths': map<string, seq<string>>,
             ghost settled': set<string>, ghost slot': map<string, QEntry>)
    requires Inv(g, start, pq, dist, paths, router.table, settled, slot) && |pq| > 0
    modifies router
    ensures Inv(g, start, pq', dist', paths', router.table, settled', slot')
    ensures settled <= settled' <= g.Keys
    ensures |g.Keys - settled'| < |g.Keys - settled| || (settled' == settled && |pq'| < |pq|)
  {
    var i := HeapPop(pq);
    var e := pq[i];
    assert e in pq;
    if Lt(dist[e.node], Fin(e.cost)) {
      PopStale(g, start, pq, i, dist, paths, router.table, settled, slot);
      pq' := pq[..i] + pq[i + 1..];
      return pq', dist, paths, settled, slot;
    }
    SettleMeasure(g.Keys, settled, e.node);
    pq', dist', paths', settled', slot' := Visit(g, start, router, pq, i, dist, paths, settled, slot);
  }

  /**
   * Settling a router again leaves the settled set as it is; settling a new
   * one leaves fewer unsettled: the measure of the `while pq` loop.
   */
  lemma SettleMeasure(nodes: set<string>, settled: set<string>, x: string)
    requires x in nodes
    ensures x in settled ==> settled + {x} == settled
    ensures x !in settled ==> |nodes - (settled + {x})| < |nodes - settled|
  {
    if x !in settled {
      assert nodes - (settled + {x}) == (nodes - settled) - {x};
    }
  }

  /**
   * One round of `dijkstra`'s `while pq` loop after a current item `pq[i]` of
   * least cost is popped: its router gets its path and table row, then its
   * neighbours are relaxed.
   */
  method Visit(g: Graph, start: string, router: Router, pq: seq<QEntry>, i: int, dist: map<string, Cost>,
               paths: map<string, seq<string>>, ghost settled: set<string>, ghost slot: map<string, QEntry>)
    returns (pq': seq<QEntry>, dist': map<string, Cost>, paths': map<string, seq<string>>,
             ghost settled': set<string>, ghost slot': map<string, QEntry>)
    requires Inv(g, start, pq, dist, paths, router.table, settled, slot)
    requires 0 <= i < |pq| && pq[i].node in dist && !Lt(dist[pq[i].node], Fin(pq[i].cost))
    requires forall k | 0 <= k < |pq| :: pq[i].cost <= pq[k].cost
    modifies router
    ensures Inv(g, start, pq', dist', paths', router.table, settled', slot')
    ensures settled' == settled + {pq[i].node}
    ensures pq[i].node in settled ==> |pq'| < |pq|
  {
    var e := pq[i];
    var path := e.prefix + [e.node];
    Settle(g, start, pq, i, dist, paths, router.table, settled, slot, e, path);
    var rest := pq[..i] + pq[i + 1..];
    paths' := paths[e.node := path];
    var nextHop := if |path| > 1 then path[1] else start;
    router.table := router.table[e.node := Entry(Some(nextHop), Fin(e.cost))];
    settled' := settled + {e.node};
    assert e.node in g;
    pq', dist', slot' := RelaxNeighbours(g, start, e.cost, e.node, path, rest, dist, paths', router.table, settled', slot);
  }

  /**
   * The `for neighbor, weight in ...` loop of `dijkstra` for the router `cur`
   * just settled at cost `c` along `path`: every cheaper route found lowers
   * the neighbour's cost and queues it.
   */
  method RelaxNeighbours(g: Graph, start: string, c: int, cur: string, path: seq<string>,
                         pq: seq<QEntry>, dist: map<string, Cost>, ghost paths: map<string, seq<string>>,
                         ghost table: Table, ghost settled: set<string>, ghost slot: map<string, QEntry>)
    returns (pq': seq<QEntry>, dist': map<string, Cost>, ghost slot': map<string, QEntry>)
    requires cur in g && InnerInv(g, start, c, cur, path, pq, dist, paths, table, settled, slot, {})
    ensures Inv(g, start, pq', dist', paths, table, settled, slot')
    ensures (forall v | HasEdge(g, cur, v) :: RelaxedEdge(g, dist, cur, v)) ==> pq' == pq && dist' == dist
  {
    pq', dist', slot' := pq, dist, slot;
    var nbrs := g[cur].Keys;
    ghost var done: set<string> := {};
    while nbrs != {}
      invariant nbrs <= g[cur].Keys && done == g[cur].Keys - nbrs
      invariant InnerInv(g, start, c, cur, path, pq', dist', paths, table, settled, slot', done)
      invariant (forall v | HasEdge(g, cur, v) :: RelaxedEdge(g, dist, cur, v)) ==> pq' == pq && dist' == dist
      decreases |nbrs|
    {
      var nb :| nb in nbrs;
      assert HasEdge(g, cur, nb);
      pq', dist', slot' := RelaxOne(g, start, c, cur, path, pq', dist', paths, table, settled, slot', done, nb);
      DoneGrows(g[cur].Keys, nbrs, done, nb);
      nbrs := nbrs - {nb};
      done := done + {nb};
    }
    assert g[cur].Keys - {} == g[cur].Keys;
    FinishSettle(g, start, c, cur, path, pq', dist', paths, table, settled, slot');
  }

  /**
   * One neighbour `nb` of `cur` in `dijkstra`: if going through `cur` is
   * cheaper than its known cost, lower the cost and queue the route.
   */
  method RelaxOne(g: Graph, start: string, c: int, cur: string, path: seq<string>,
                  pq: seq<QEntry>, dist: map<string, Cost>, ghost paths: map<string, seq<string>>,
                  ghost table: Table, ghost settled: set<string>, ghost slot: map<string, QEntry>,
                  ghost done: set<string>, nb: string)
    returns (pq': seq<QEntry>, dist': map<string, Cost>, ghost slot': map<string, QEntry>)
    requires InnerInv(g, start, c, cur, path, pq, dist, paths, table, settled, slot, done)
    requires HasEdge(g, cur, nb)
    ensures InnerInv(g, start, c, cur, path, pq', dist', paths, table, settled, slot', done + {nb})
    ensures nb in dist && (RelaxedEdge(g, dist, cur, nb) ==> pq' == pq && dist' == dist)
  {
    var newCost := c + g[cur][nb];
    assert nb in g && nb in dist;
    if Lt(Fin(newCost), dist[nb]) {
      var e := QEntry(newCost, nb, path);
      RelaxPush(g, start, c, cur, path, pq, dist, paths, table, settled, slot, done, nb, e, dist[nb := Fin(newCost)]);
      return pq + [e], dist[nb := Fin(newCost)], slot[nb := e];
    }
    RelaxSkip(g, start, c, cur, path, pq, dist, paths, table, settled, slot, done, nb);
    return pq, dist, slot;
  }

  /**
   * The body of `bellman_ford` once the source is known: resets the source
   * router's table, runs |routers| - 1 relaxation passes over the edge list,
   * refuses if a further pass would still relax a link, and otherwise writes
   * the traced path and table row of every router of finite cost.
   */
  method BellmanFordRun(g: Graph, start: string, edges: seq<Link>, router: Router)
    returns (result: Option<map<string, seq<string>>>)
    requires start in g && EndpointsKnown(g) && EdgesOf(g, edges)
    modifies router
    ensures result.None? <==> NegativeCycleReachable(g, start)
    ensures result.None? ==> router.table == ResetTable(g.Keys, start)
    ensures result.Some? ==> BellmanFordResult(g, start, result.value)
                             && router.table == TableOf(g, start, result.value)
  {
    router.table := ResetTable(g.Keys, start);
    var dist, pred, wit := RelaxAll(g, start, edges);
    CheckPassCorrect(g, start, dist, pred, wit, edges);
    var relaxable := FindRelaxable(dist, edges);
    if relaxable {
      return None;
    }
    var paths := Reconstruct(g, start, dist, pred, wit, router);
    return Some(paths);
  }

  /** Step 1 of `bellman_ford`: the initial costs and |routers| - 1 relaxation passes. */
  method RelaxAll(g: Graph, start: string, edges: seq<Link>)
    returns (dist: map<string, Cost>, pred: Preds, ghost wit: map<string, seq<string>>)
    requires start in g && EndpointsKnown(g) && EdgesOf(g, edges)
    ensures RelaxInv(g, start, dist, pred, wit) && BoundedBy(g, start, dist, |g.Keys| - 1)
  {
    dist := (map r | r in g :: Inf)[start := Fin(0)];
    pred := map r | r in g :: None;
    InitialRelaxInv(g, start, dist, pred);
    wit := map[start := [start]];
    var n := |g.Keys|;
    var k := 0;
    while k < n - 1
      invariant 0 <= k <= n - 1
      invariant RelaxInv(g, start, dist, pred, wit) && BoundedBy(g, start, dist, k)
    {
      dist, pred, wit := RelaxPass(g, start, edges, k, dist, pred, wit);
      k := k + 1;
    }
  }

  /**
   * One pass of step 1 of `bellman_ford` over the whole edge list. After pass
   * k + 1 every walk from the source with at most k + 1 links is bounded.
   */
  method RelaxPass(g: Graph, start: string, edges: seq<Link>, k: int,
                   dist: map<string, Cost>, pred: Preds, ghost wit: map<string, seq<string>>)
    returns (dist': map<string, Cost>, pred': Preds, ghost wit': map<string, seq<string>>)
    requires EdgesOf(g, edges) && k >= 0
    requires RelaxInv(g, start, dist, pred, wit) && BoundedBy(g, start, dist, k)
    ensures RelaxInv(g, start, dist', pred', wit') && BoundedBy(g, start, dist', k + 1)
  {
    StartPass(g, start, dist, k, edges);
    dist', pred', wit' := dist, pred, wit;
    var j := 0;
    while j < |edges|
      invariant 0 <= j <= |edges|
      invariant RelaxInv(g, start, dist', pred', wit') && PassProgress(g, start, dist', k, edges, j)
    {
      dist', pred', wit' := RelaxLink(g, start, edges, k, j, dist', pred', wit');
      j := j + 1;
    }
    PassDone(g, start, dist', k, edges);
  }

  /**
   * The inner step of a pass: when using link u -> v is cheaper than v's
   * known cost, that cost is lowered and u recorded as v's predecessor.
   */
  method RelaxLink(g: Graph, start: string, edges: seq<Link>, k: int, j: int,
                   dist: map<string, Cost>, pred: Preds, ghost wit: map<string, seq<string>>)
    returns (dist': map<string, Cost>, pred': Preds, ghost wit': map<string, seq<string>>)
    requires EdgesOf(g, edges) && k >= 0 && 0 <= j < |edges|
    requires RelaxInv(g, start, dist, pred, wit) && PassProgress(g, start, dist, k, edges, j)
    ensures RelaxInv(g, start, dist', pred', wit') && PassProgress(g, start, dist', k, edges, j + 1)
  {
    var e := edges[j];
    assert e.src in g && e.dst in g;
    if CanRelax(dist, e) {
      dist' := dist[e.dst := Fin(dist[e.src].n + e.cost)];
      pred' := pred[e.dst := Some(e.src)];
      wit' := wit[e.dst := wit[e.src] + [e.dst]];
      LinkRelaxed(g, start, edges, k, j, e, dist, pred, wit, dist', pred', wit');
    } else {
      dist', pred', wit' := dist, pred, wit;
      LinkKept(g, start, edges, k, j, dist);
    }
  }

  /** Step 2 of `bellman_ford`: does some listed link still pass the relaxation test? */
  method FindRelaxable(dist: map<string, Cost>, edges: seq<Link>) returns (found: bool)
    requires forall i | 0 <= i < |edges| :: edges[i].src in dist && edges[i].dst in dist
    ensures found <==> SomeRelaxable(dist, edges)
  {
    var j := 0;
    while j < |edges|
      invariant 0 <= j <= |edges|
      invariant forall i | 0 <= i < j :: !CanRelax(dist, edges[i])
    {
      if CanRelax(dist, edges[j]) {
        return true;
      }
      j := j + 1;
    }
    return false;
  }

  /**
   * Step 3 of `bellman_ford`: for every router of finite cost, walk back
   * along predecessors; a walk that starts at the source becomes its path and
   * its table row (next hop, cost).
   */
  method Reconstruct(g: Graph, start: string, dist: map<string, Cost>, pred: Preds,
                     ghost wit: map<string, seq<string>>, router: Router)
    returns (paths: map<string, seq<string>>)
    requires RelaxInv(g, start, dist, pred, wit) && !NegativeCycleReachable(g, start)
    requires BoundedBy(g, start, dist, |g.Keys| - 1)
    requires router.table == ResetTable(g.Keys, start)
    modifies router
    ensures BellmanFordResult(g, start, paths) && router.table == TableOf(g, start, paths)
  {
    paths := map[];
    RebuildStart(g, start, dist, router.table);
    var todo := g.Keys;
    while todo != {}
      invariant Rebuilt(g, start, dist, paths, router.table, todo)
      decreases |todo|
    {
      var dest :| dest in todo;
      paths := RebuildOne(g, start, dist, pred, wit, router, paths, todo, dest);
      Shrinks(todo, dest);
      todo := todo - {dest};
    }
    RebuildDone(g, start, dist, pred, wit, paths, router.table);
  }

  /** One router of step 3 of `bellman_ford`. */
  method RebuildOne(g: Graph, start: string, dist: map<string, Cost>, pred: Preds,
                    ghost wit: map<string, seq<string>>, router: Router,
                    paths: map<string, seq<string>>, ghost todo: set<string>, dest: string)
    returns (paths': map<string, seq<string>>)
    requires RelaxInv(g, start, dist, pred, wit) && !NegativeCycleReachable(g, start)
    requires BoundedBy(g, start, dist, |g.Keys| - 1)
    requires Rebuilt(g, start, dist, paths, router.table, todo) && dest in todo
    modifies router
    ensures Rebuilt(g, start, dist, paths', router.table, todo - {dest})
  {
    if dist[dest] != Inf {
      PredsClosed(g, start, dist, pred, wit);
      var path := TracePredecessors(pred, dest);
      var hop := if |path| > 1 then path[1] else dest;
      TracedRow(g, start, dist, pred, wit, paths, router.table, todo, dest, path);
      paths' := paths[dest := path];
      router.table := router.table[dest := Entry(Some(hop), dist[dest])];
    } else {
      RebuildSkip(g, start, dist, paths, router.table, todo, dest);
      paths' := paths;
    }
  }

  /**
   * The loop of `get_routing_tables_str`: the blocks of the routers filed
   * under `names`, in that order, each drawn from that router's table.
   */
  method BlocksText(names: seq<string>, tables: map<string, Table>) returns (out: string)
    requires forall x | x in names :: x in tables
    ensures out == Render(names, tables)
  {
    out := "";
    var k := 0;
    while k < |names|
      invariant 0 <= k <= |names|
      invariant out == Render(names[..k], tables)
    {
      var block := TableText(names[k], tables[names[k]]);
      RenderStep(names, k, tables, out);
      out := out + block;
      k := k + 1;
    }
    assert names[..k] == names;
  }

  /**
   * The body of `get_routing_tables_str` on the routers' tables: their blocks
   * in name order. Each block is headed by the name its table is filed
   * under, which `Network.Valid` makes the router's own name.
   */
  method TablesText(tables: map<string, Table>) returns (out: string)
    ensures out == Dump(tables)
  {
    var names := SortedNames(tables.Keys);
    out := BlocksText(names, tables);
  }

  /** One router's block of `get_routing_tables_str`: the header and a row per destination, in name order. */
  method TableText(name: string, t: Table) returns (out: string)
    ensures out == Block(name, t)
  {
    out := "\n======= Router: " + name + " =======\n" + "Destination | Next Hop | Cost\n"
           + "---------------------------------\n";
    var dests := SortedNames(t.Keys);
    out := AppendRows(out, dests, t);
  }

  /** Appends the rows of `dests`, in that order, to `prefix`. */
  method AppendRows(prefix: string, dests: seq<string>, t: Table) returns (out: string)
    requires forall i | 0 <= i < |dests| :: dests[i] in t
    ensures out == prefix + Rows(dests, t)
  {
    out := prefix;
    var j := 0;
    while j < |dests|
      invariant 0 <= j <= |dests|
      invariant out == prefix + Rows(dests[..j], t)
    {
      RowsStep(prefix, dests, j, t);
      out := out + Row(dests[j], t[dests[j]]);
      j := j + 1;
    }
    assert dests[..j] == dests;
  }

  /** Taking a member out of a finite set makes it smaller. */
  lemma Shrinks(todo: set<string>, x: string)
    requires x in todo
    ensures |todo - {x}| < |todo|
  { }

  /** Moving one neighbour from the to-do set to the done set keeps them complementary. */
  lemma DoneGrows(all: set<string>, todo: set<string>, done: set<string>, x: string)
    requires done == all - todo && x in todo && todo <= all
    ensures done + {x} == all - (todo - {x})
  {
  }

  /**
   * The scan of `remove_router` over every remaining router, deleting its
   * link to x where there is one.
   */
  method DropLinksTo(g: Graph, x: string) returns (r: Graph)
    ensures r.Keys == g.Keys && forall u | u in r :: r[u] == g[u] - {x}
  {
    r := g;
    var todo := g.Keys;
    while todo != {}
      invariant todo <= g.Keys && r.Keys == g.Keys
      invariant forall u | u in todo :: r[u] == g[u]
      invariant forall u | u in r && u !in todo :: r[u] == g[u] - {x}
      decreases |todo|
    {
      var u :| u in todo;
      if x in r[u] {
        r := r[u := r[u] - {x}];
      } else {
        RowWithoutAbsent(r[u], x);
      }
      todo := todo - {u};
    }
  }

  /**
   * The walk back from `dest` along recorded predecessors: it stops at a
   * router without a predecessor or, after adding it once more, at the first
   * router already on the path (which can happen only if predecessors form a
   * cycle).
   */
  method TracePredecessors(pred: Preds, dest: string) returns (path: seq<string>)
    requires dest in pred
    requires forall v | v in pred && pred[v].Some? :: pred[v].value in pred
    ensures |path| >= 1 && path[|path| - 1] == dest && PredWalk(pred, path) && path[0] in pred
    ensures NoPredCycle(pred) ==> pred[path[0]] == None
  {
    path := [];
    var current: Option<string> := Some(dest);
    while current.Some?
      invariant current.Some? ==> current.value in pred
      invariant path == [] ==> current == Some(dest)
      invariant path != [] ==> PredWalk(pred, path) && path[|path| - 1] == dest && path[0] in pred
                               && current == pred[path[0]]
      invariant Distinct(path) && forall k | 0 <= k < |path| :: path[k] in pred
      decreases |pred.Keys| - |path|
    {
      var c := current.value;
      if c in path {
        var k :| 0 <= k < |path| && path[k] == c;
        PredSlice(pred, path, 0, k + 1);
        PredPrepend(pred, c, path[..k + 1]);
        ghost var loop := [c] + path[..k + 1];
        assert PredWalk(pred, loop) && |loop| >= 2 && loop[0] == loop[|loop| - 1];
        PredPrepend(pred, c, path);
        path := [c] + path;
        break;
      }
      if path != [] {
        PredPrepend(pred, c, path);
      }
      path := [c] + path;
      DistinctBound(path, pred.Keys);
      current := pred[c];
    }
  }

  /**
   * The network: the routers by name and the directed, weighted adjacency
   * structure, {router: {neighbour: cost}}.
   */
  class Network {
    var routers: map<string, Router>
    var adj: Graph

    /** Routers and adjacency keys coincide, links end at known routers, each router is filed under its name. */
    ghost predicate Valid()
      reads this
    {
      && routers.Keys == adj.Keys
      && EndpointsKnown(adj)
      && forall n | n in routers :: routers[n].name == n
    }

    /** Every router's routing table. */
    function Tables(): (ts: map<string, Table>)
      reads this, routers.Values
      ensures ts.Keys == routers.Keys
    {
      map n | n in routers :: routers[n].table
    }

    constructor ()
      ensures Valid() && routers == map[] && adj == map[]
    {
      routers := map[];
      adj := map[];
    }

    /** `add_router`: refused for a known name; otherwise a fresh router with no links. */
    method AddRouter(name: string) returns (ok: bool)
      requires Valid()
      modifies this
      ensures Valid()
      ensures ok <==> name !in old(routers)
      ensures ok ==> && adj == AddNode(old(adj), name)
                     && routers.Keys == old(routers).Keys + {name}
                     && fresh(routers[name])
                     && routers[name].table == map[name := Entry(Some(name), Fin(0))]
                     && forall n | n in old(routers) :: routers[n] == old(routers)[n]
      ensures !ok ==> routers == old(routers) && adj == old(adj)
    {
      if name !in routers {
        var router := new Router(name);
        routers := routers[name := router];
        adj := adj[name := map[]];
        assert adj == AddNode(old(adj), name);
        return true;
      }
      return false;
    }

    /** `remove_router`: refused for an unknown name; otherwise the router, its links and the links into it go. */
    method RemoveRouter(x: string) returns (ok: bool)
      requires Valid()
      modifies this
      ensures Valid()
      ensures ok <==> x in old(routers)
      ensures ok ==> adj == RemoveNode(old(adj), x) && routers == old(routers) - {x}
      ensures !ok ==> routers == old(routers) && adj == old(adj)
    {
      if x !in routers {
        return false;
      }
      ghost var g0 := adj;
      routers := routers - {x};
      var g := adj - {x};
      assert routers.Keys == g.Keys == g0.Keys - {x};
      g := DropLinksTo(g, x);
      adj := g;
      RemoveNodeRowwise(g0, x, adj);
      return true;
    }

    /**
     * `add_link`: refused unless both routers exist and the cost reads as an
     * integer (`None` when `int(cost)` raises); otherwise sets the one link
     * u -> v, replacing any earlier cost.
     */
    method AddLink(u: string, v: string, cost: Option<int>) returns (ok: bool)
      requires Valid()
      modifies this
      ensures Valid() && routers == old(routers)
      ensures ok <==> u in old(routers) && v in old(routers) && cost.Some?
      ensures ok ==> adj == SetEdge(old(adj), u, v, cost.value)
      ensures !ok ==> adj == old(adj)
    {
      if u in routers && v in routers {
        if cost.None? {
          return false;
        }
        adj := adj[u := adj[u][v := cost.value]];
        assert adj == SetEdge(old(adj), u, v, cost.value);
        return true;
      }
      return false;
    }

    /** `remove_link`: refused unless the link u -> v exists; otherwise deletes it. */
    method RemoveLink(u: string, v: string) returns (ok: bool)
      requires Valid()
      modifies this
      ensures Valid() && routers == old(routers)
      ensures ok <==> HasEdge(old(adj), u, v)
      ensures ok ==> adj == DeleteEdge(old(adj), u, v)
      ensures !ok ==> adj == old(adj)
    {
      if u in adj && v in adj[u] {
        adj := adj[u := adj[u] - {v}];
        assert adj == DeleteEdge(old(adj), u, v);
        return true;
      }
      return false;
    }

    /** `has_negative_edges`: true exactly when some link has a negative cost. */
    method HasNegativeEdges() returns (b: bool)
      ensures b <==> NegativeEdgeIn(adj)
    {
      var sources := adj.Keys;
      while sources != {}
        invariant sources <= adj.Keys
        invariant forall u, v | HasEdge(adj, u, v) && u !in sources :: adj[u][v] >= 0
        decreases |sources|
      {
        var u :| u in sources;
        var nbrs := adj[u].Keys;
        while nbrs != {}
          invariant nbrs <= adj[u].Keys
          invariant forall v | v in adj[u] && v !in nbrs :: adj[u][v] >= 0
          decreases |nbrs|
        {
          var v :| v in nbrs;
          if adj[u][v] < 0 {
            assert HasEdge(adj, u, v);
            return true;
          }
          nbrs := nbrs - {v};
        }
        sources := sources - {u};
      }
      return false;
    }

    /** The edge list `(u, v, weight)` that `bellman_ford` builds before its passes. */
    method EdgeList() returns (edges: seq<Link>)
      ensures EdgesOf(adj, edges)
    {
      edges := [];
      var sources := adj.Keys;
      while sources != {}
        invariant sources <= adj.Keys
        invariant forall i | 0 <= i < |edges| :: HasEdge(adj, edges[i].src, edges[i].dst)
                                                 && adj[edges[i].src][edges[i].dst] == edges[i].cost
        invariant forall u, v | HasEdge(adj, u, v) && u !in sources :: Link(u, v, adj[u][v]) in edges
        decreases |sources|
      {
        var u :| u in sources;
        var nbrs := adj[u].Keys;
        while nbrs != {}
          invariant nbrs <= adj[u].Keys
          invariant forall i | 0 <= i < |edges| :: HasEdge(adj, edges[i].src, edges[i].dst)
                                                   && adj[edges[i].src][edges[i].dst] == edges[i].cost
          invariant forall u', v | HasEdge(adj, u', v) && u' !in sources :: Link(u', v, adj[u'][v]) in edges
          invariant forall v | v in adj[u] && v !in nbrs :: Link(u, v, adj[u][v]) in edges
          decreases |nbrs|
        {
          var v :| v in nbrs;
          edges := edges + [Link(u, v, adj[u][v])];
          nbrs := nbrs - {v};
        }
        sources := sources - {u};
      }
    }

    /**
     * `dijkstra`: an unknown source gives the empty result; a negative link
     * anywhere refuses (`None`) and changes nothing; otherwise the source's
     * table is rebuilt from cheapest walks and the paths are returned.
     */
    method Dijkstra(start: string) returns (result: Option<map<string, seq<string>>>)
      requires Valid()
      modifies routers.Values
      ensures start !in routers ==> result == Some(map[])
      ensures start in routers ==> (result.None? <==> NegativeEdgeIn(adj))
      ensures start in routers && result.Some? ==>
                DijkstraResult(adj, start, result.value) && routers[start].table == TableOf(adj, start, result.value)
      ensures start !in routers || result.None? ==> Tables() == old(Tables())
      ensures start in routers ==> Tables() == old(Tables())[start := routers[start].table]
    {
      if start !in routers {
        return Some(map[]);
      }
      var negative := HasNegativeEdges();
      if negative {
        return None;
      }
      var paths := DijkstraFrom(start);
      return Some(paths);
    }

    /** The successful run of `dijkstra`: only the source's table changes. */
    method DijkstraFrom(start: string) returns (paths: map<string, seq<string>>)
      requires Valid() && start in routers && !NegativeEdgeIn(adj)
      modifies routers[start]
      ensures DijkstraResult(adj, start, paths) && routers[start].table == TableOf(adj, start, paths)
      ensures Tables() == old(Tables())[start := routers[start].table]
    {
      NoNegativeEdge(adj);
      paths := DijkstraRun(adj, start, routers[start]);
    }

    /**
     * `bellman_ford`: an unknown source gives the empty result; a negative
     * closed walk reachable from the source refuses (`None`) and leaves the
     * source's table reset; otherwise the source's table is rebuilt from
     * cheapest walks and the paths of the reachable routers are returned.
     */
    method BellmanFord(start: string) returns (result: Option<map<string, seq<string>>>)
      requires Valid()
      modifies routers.Values
      ensures start !in routers ==> result == Some(map[]) && Tables() == old(Tables())
      ensures start in routers ==> (result.None? <==> NegativeCycleReachable(adj, start))
      ensures start in routers && result.None? ==> routers[start].table == ResetTable(adj.Keys, start)
      ensures start in routers && result.Some? ==>
                BellmanFordResult(adj, start, result.value) && routers[start].table == TableOf(adj, start, result.value)
      ensures start in routers ==> Tables() == old(Tables())[start := routers[start].table]
    {
      if start !in routers {
        return Some(map[]);
      }
      var edges := EdgeList();
      result := BellmanFordRun(adj, start, edges, routers[start]);
    }

    /**
     * `update_all_routing_tables_dijkstra`: refused, with nothing changed,
     * when some link is negative; otherwise every router's table becomes a
     * table of cheapest routes from that router.
     */
    method UpdateAllDijkstra() returns (ok: bool)
      requires Valid()
      modifies routers.Values
      ensures ok <==> !NegativeEdgeIn(adj)
      ensures !ok ==> Tables() == old(Tables())
      ensures ok ==> AllShortest(adj, Tables(), routers.Keys)
    {
      var negative := HasNegativeEdges();
      if negative {
        return false;
      }
      var todo := routers.Keys;
      while todo != {}
        invariant todo <= routers.Keys && AllShortest(adj, Tables(), routers.Keys - todo)
        decreases |todo|
      {
        var n :| n in todo;
        RefreshDijkstra(n, todo);
        todo := todo - {n};
      }
      assert routers.Keys - todo == routers.Keys;
      return true;
    }

    /** The routers of done have been handled without finding a negative closed walk, and hold tables of cheapest routes. */
    ghost predicate Refreshed(done: set<string>)
      reads this, routers.Values
    {
      && Valid()
      && done <= routers.Keys
      && NoCycleFrom(adj, done)
      && AllShortest(adj, Tables(), done)
    }

    /** One round of the loop of `update_all_routing_tables_dijkstra`: `dijkstra` from n, on links that are not negative. */
    method RefreshDijkstra(n: string, ghost todo: set<string>)
      requires Valid() && !NegativeEdgeIn(adj)
      requires todo <= routers.Keys && AllShortest(adj, Tables(), routers.Keys - todo) && n in todo
      modifies routers.Values
      ensures |todo - {n}| < |todo| && AllShortest(adj, Tables(), routers.Keys - (todo - {n}))
    {
      ghost var done := routers.Keys - todo;
      ghost var before := Tables();
      var paths := Dijkstra(n);
      DijkstraTableCorrect(adj, n, paths.value);
      AllShortestGrow(adj, before, done, n, routers[n].table);
      DoneGrows(routers.Keys, todo, done, n);
      Shrinks(todo, n);
    }

    /**
     * `update_all_routing_tables_bellman_ford`: runs `bellman_ford` from each
     * router in turn and stops at the first one that reports a negative
     * closed walk. It succeeds exactly when no router reaches one, and then
     * every table is a table of cheapest routes. On failure some router
     * reaches a negative closed walk and its table is left reset.
     */
    method UpdateAllBellmanFord() returns (ok: bool)
      requires Valid()
      modifies routers.Values
      ensures ok <==> NoCycleFrom(adj, routers.Keys)
      ensures ok ==> AllShortest(adj, Tables(), routers.Keys)
      ensures !ok ==> exists f | f in routers :: Failed(f)
    {
      var todo := routers.Keys;
      while todo != {}
        invariant todo <= routers.Keys && Refreshed(routers.Keys - todo)
        decreases |todo|
      {
        var n :| n in todo;
        var refreshed := RefreshBellmanFord(n, todo);
        if !refreshed {
          return false;
        }
        todo := todo - {n};
      }
      assert routers.Keys - todo == routers.Keys;
      return true;
    }

    /** Router f reaches a negative closed walk, and its table was left reset. */
    ghost predicate Failed(f: string)
      reads this, routers.Values
    {
      && NegativeCycleReachable(adj, f)
      && f in routers
      && routers[f].table == ResetTable(adj.Keys, f)
    }

    /** One round of the loop of `update_all_routing_tables_bellman_ford`: `bellman_ford` from n. */
    method RefreshBellmanFord(n: string, ghost todo: set<string>) returns (ok: bool)
      requires todo <= routers.Keys && Refreshed(routers.Keys - todo) && n in todo
      modifies routers.Values
      ensures ok <==> !NegativeCycleReachable(adj, n)
      ensures ok ==> |todo - {n}| < |todo| && Refreshed(routers.Keys - (todo - {n}))
      ensures !ok ==> !NoCycleFrom(adj, routers.Keys) && Failed(n)
    {
      ghost var done := routers.Keys - todo;
      ghost var before := Tables();
      var paths := BellmanFord(n);
      if paths.None? {
        return false;
      }
      BellmanFordTableCorrect(adj, n, paths.value);
      NoCycleGrow(adj, done, n);
      AllShortestGrow(adj, before, done, n, routers[n].table);
      DoneGrows(routers.Keys, todo, done, n);
      Shrinks(todo, n);
      return true;
    }

    /** `update_all_routing_tables`: dispatches on the algorithm's name (Dijkstra by default); any other name is refused. */
    method UpdateAll(algorithm: string := "dijkstra") returns (ok: bool)
      requires Valid()
      modifies routers.Values
      ensures algorithm == "dijkstra" ==> (ok <==> !NegativeEdgeIn(adj))
      ensures algorithm == "dijkstra" && !ok ==> Tables() == old(Tables())
      ensures algorithm == "bellman_ford" ==> (ok <==> NoCycleFrom(adj, routers.Keys))
      ensures algorithm == "bellman_ford" && !ok ==> exists f | f in routers :: Failed(f)
      ensures algorithm != "dijkstra" && algorithm != "bellman_ford" ==> !ok && Tables() == old(Tables())
      ensures ok ==> AllShortest(adj, Tables(), routers.Keys)
    {
      if algorithm == "dijkstra" {
        ok := UpdateAllDijkstra();
      } else if algorithm == "bellman_ford" {
        ok := UpdateAllBellmanFord();
      } else {
        ok := false;
      }
    }

    /** `get_routing_tables_str`: one block per router, in name order. */
    method RoutingTablesString() returns (out: string)
      ensures out == Dump(Tables())
    {
      out := TablesText(Tables());
    }
  }
}
