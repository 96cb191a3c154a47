// Routing tables and what a correct shortest-path run must produce.

module Routing {
  import opened Walks

  datatype Option<T> = None | Some(value: T)

  /** A path cost, or the `float('inf')` sentinel the simulator uses for "no path". */
  datatype Cost = Fin(n: int) | Inf

  /** One routing-table row: (next hop, cost); the next hop is absent when unreachable. */
  datatype Entry = Entry(nextHop: Option<string>, cost: Cost)

  type Table = map<string, Entry>

  /** Python's `<` between an int-or-inf pair (inf < inf is false). */
  function Lt(a: Cost, b: Cost): (r: bool)
    ensures r <==> a.Fin? && (b.Inf? || a.n < b.n)
  {
    match (a, b)
    case (Fin(x), Fin(y)) => x < y
    case (Fin(_), Inf) => true
    case (Inf, _) => false
  }

  /** The router after the source on a path; the source itself for a one-node path. */
  function NextHop(s: string, path: seq<string>): string {
    if |path| > 1 then path[1] else s
  }

  /** The fresh table both algorithms start from: everything unreachable but the source. */
  function ResetTable(nodes: set<string>, s: string): (t: Table)
    ensures t.Keys == nodes + {s} && t[s] == Entry(Some(s), Fin(0))
    ensures forall v | v in t && v != s :: t[v] == Entry(None, Inf)
  {
    (map r | r in nodes :: Entry(None, Inf))[s := Entry(Some(s), Fin(0))]
  }

  /** `p` is a walk from s to v and no walk from s to v is cheaper. */
  ghost predicate ShortestWalk(g: Graph, s: string, v: string, p: seq<string>) {
    WalkFrom(g, s, v, p) && forall q | WalkFrom(g, s, v, q) :: PathCost(g, p) <= PathCost(g, q)
  }

  /**
   * What `dijkstra` returns on success: every router is a key; unreachable
   * routers map to [], the others to a cheapest walk from the source, and the
   * source to [source].
   */
  ghost predicate DijkstraResult(g: Graph, s: string, paths: map<string, seq<string>>) {
    && paths.Keys == g.Keys
    && s in paths && paths[s] == [s]
    && forall v | v in g ::
         if paths[v] == [] then !Reachable(g, s, v) else ShortestWalk(g, s, v, paths[v])
  }

  /**
   * What `bellman_ford` returns on success: exactly the reachable routers are
   * keys, each mapped to a cheapest walk from the source, the source to [source].
   */
  ghost predicate BellmanFordResult(g: Graph, s: string, paths: map<string, seq<string>>) {
    && paths.Keys <= g.Keys
    && s in paths && paths[s] == [s]
    && forall v | v in g ::
         (v in paths <==> Reachable(g, s, v)) && (v in paths ==> ShortestWalk(g, s, v, paths[v]))
  }

  /** The source's routing table written from a path map (unlisted or [] = unreachable). */
  function TableOf(g: Graph, s: string, paths: map<string, seq<string>>): (t: Table)
    ensures t.Keys == g.Keys
  {
    map v | v in g ::
      if v in paths && IsWalk(g, paths[v]) then Entry(Some(NextHop(s, paths[v])), Fin(PathCost(g, paths[v])))
      else Entry(None, Inf)
  }

  /**
   * A correct routing table for source s: (s, 0) for s itself; for a reachable
   * router, the next hop and cost of some cheapest walk; (None, inf) otherwise.
   */
  ghost predicate ShortestTable(g: Graph, s: string, t: Table) {
    && t.Keys == g.Keys
    && s in t && t[s] == Entry(Some(s), Fin(0))
    && forall v | v in g ::
         if Reachable(g, s, v) then
           exists p :: ShortestWalk(g, s, v, p) && t[v] == Entry(Some(NextHop(s, p)), Fin(PathCost(g, p)))
         else t[v] == Entry(None, Inf)
  }

  /** Every router in `done` has a correct table in `ts`. */
  ghost predicate AllShortest(g: Graph, ts: map<string, Table>, done: set<string>) {
    forall n | n in done :: n in ts && ShortestTable(g, n, ts[n])
  }

  /** Installing a correct table for one more router. */
  lemma AllShortestGrow(g: Graph, ts: map<string, Table>, done: set<string>, n: string, t: Table)
    requires AllShortest(g, ts, done) && ShortestTable(g, n, t)
    ensures AllShortest(g, ts[n := t], done + {n})
  {
  }

  /** No router in `done` reaches a closed walk of negative cost. */
  ghost predicate NoCycleFrom(g: Graph, done: set<string>) {
    forall n | n in done :: !NegativeCycleReachable(g, n)
  }

  lemma NoCycleGrow(g: Graph, done: set<string>, n: string)
    requires NoCycleFrom(g, done) && !NegativeCycleReachable(g, n)
    ensures NoCycleFrom(g, done + {n})
  {
  }

  lemma SingletonWalk(g: Graph, s: string)
    requires s in g
    ensures WalkFrom(g, s, s, [s]) && PathCost(g, [s]) == 0
  {
  }

  /** The table Dijkstra writes from its path map is a correct routing table. */
  lemma DijkstraTableCorrect(g: Graph, s: string, paths: map<string, seq<string>>)
    requires DijkstraResult(g, s, paths)
    ensures ShortestTable(g, s, TableOf(g, s, paths))
  {
    var t := TableOf(g, s, paths);
    SingletonWalk(g, s);
    forall v | v in g
      ensures if Reachable(g, s, v) then
           exists p :: ShortestWalk(g, s, v, p) && t[v] == Entry(Some(NextHop(s, p)), Fin(PathCost(g, p)))
         else t[v] == Entry(None, Inf)
    {
      if paths[v] != [] {
        assert WalkFrom(g, s, v, paths[v]);
      } else {
        assert !IsWalk(g, paths[v]);
      }
    }
  }

  /** The table Bellman-Ford writes from its path map is a correct routing table. */
  lemma BellmanFordTableCorrect(g: Graph, s: string, paths: map<string, seq<string>>)
    requires BellmanFordResult(g, s, paths)
    ensures ShortestTable(g, s, TableOf(g, s, paths))
  {
    var t := TableOf(g, s, paths);
    SingletonWalk(g, s);
    forall v | v in g
      ensures if Reachable(g, s, v) then
           exists p :: ShortestWalk(g, s, v, p) && t[v] == Entry(Some(NextHop(s, p)), Fin(PathCost(g, p)))
         else t[v] == Entry(None, Inf)
    {
      if v in paths {
        assert WalkFrom(g, s, v, paths[v]);
      }
    }
  }

  /**
   * Any two correct tables for the same source agree on which routers are
   * reachable and on every cost; so Dijkstra and Bellman-Ford agree whenever
   * both succeed.
   */
  lemma ShortestTablesAgree(g: Graph, s: string, t1: Table, t2: Table)
    requires ShortestTable(g, s, t1) && ShortestTable(g, s, t2)
    ensures forall v | v in g :: t1[v].cost == t2[v].cost
    ensures forall v | v in g :: t1[v].nextHop.None? <==> t2[v].nextHop.None?
  {
    forall v | v in g ensures t1[v].cost == t2[v].cost && (t1[v].nextHop.None? <==> t2[v].nextHop.None?) {
      if Reachable(g, s, v) {
        var p1 :| ShortestWalk(g, s, v, p1) && t1[v] == Entry(Some(NextHop(s, p1)), Fin(PathCost(g, p1)));
        var p2 :| ShortestWalk(g, s, v, p2) && t2[v] == Entry(Some(NextHop(s, p2)), Fin(PathCost(g, p2)));
        assert PathCost(g, p1) <= PathCost(g, p2) && PathCost(g, p2) <= PathCost(g, p1);
      }
    }
  }

  /** In a correct table a listed next hop is a direct out-neighbour of the source. */
  lemma NextHopIsNeighbour(g: Graph, s: string, t: Table, v: string)
    requires ShortestTable(g, s, t) && v in g && v != s && t[v].nextHop.Some?
    ensures HasEdge(g, s, t[v].nextHop.value)
  {
    if Reachable(g, s, v) {
      var p :| ShortestWalk(g, s, v, p) && t[v] == Entry(Some(NextHop(s, p)), Fin(PathCost(g, p)));
      assert |p| > 1;
      assert HasEdge(g, p[0], p[1]);
    }
  }

  /** A correct table's cost for a reachable router is no more than any walk's cost. */
  lemma TableCostIsMinimal(g: Graph, s: string, t: Table, v: string, q: seq<string>)
    requires ShortestTable(g, s, t) && WalkFrom(g, s, v, q)
    ensures t[v].cost.Fin? && t[v].cost.n <= PathCost(g, q)
  {
    assert v in g;
    assert Reachable(g, s, v);
    var p :| ShortestWalk(g, s, v, p) && t[v] == Entry(Some(NextHop(s, p)), Fin(PathCost(g, p)));
  }
}
