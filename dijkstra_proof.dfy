// The invariants of `Network.dijkstra`'s priority-queue loop, and one lemma
// per step of that loop showing the step preserves them.

module DijkstraProof {
  import opened Walks
  import opened Routing

  /** One heap item `(cost, router_name, path_list)`: `prefix` is the path to the router's predecessor. */
  datatype QEntry = QEntry(cost: int, node: string, prefix: seq<string>)

  ghost predicate NonNegative(g: Graph) {
    forall u, v | HasEdge(g, u, v) :: g[u][v] >= 0
  }

  lemma NoNegativeEdge(g: Graph)
    requires !NegativeEdgeIn(g)
    ensures NonNegative(g)
  {
  }

  /** A queued item: a real walk from the source of the queued cost, not below the best known cost. */
  ghost predicate EntryOk(g: Graph, s: string, dist: map<string, Cost>, e: QEntry) {
    && e.node in dist && dist[e.node].Fin? && dist[e.node].n <= e.cost && e.cost >= 0
    && WalkFrom(g, s, e.node, e.prefix + [e.node]) && PathCost(g, e.prefix + [e.node]) == e.cost
    && (e.node == s ==> e.prefix == [])
  }

  /** Every router with a finite best-known cost that is not settled still has its item queued. */
  ghost predicate Witnessed(g: Graph, pq: seq<QEntry>, dist: map<string, Cost>, settled: set<string>,
                            slot: map<string, QEntry>)
    requires dist.Keys == g.Keys
  {
    forall v | v in g && dist[v].Fin? && v !in settled ::
      v in slot && slot[v] in pq && slot[v].node == v && slot[v].cost == dist[v].n
  }

  /** A settled router has its final path, cost and routing-table row. */
  ghost predicate SettledOk(g: Graph, s: string, dist: map<string, Cost>, paths: map<string, seq<string>>,
                            table: Table, u: string)
    requires u in dist && u in paths && u in table
  {
    && dist[u].Fin? && WalkFrom(g, s, u, paths[u]) && PathCost(g, paths[u]) == dist[u].n
    && table[u] == Entry(Some(NextHop(s, paths[u])), dist[u])
  }

  /** The state shared by both loops: everything except the relaxation facts. */
  ghost predicate Common(g: Graph, s: string, dist: map<string, Cost>, paths: map<string, seq<string>>,
                         table: Table, settled: set<string>)
  {
    && s in g && EndpointsKnown(g) && NonNegative(g)
    && dist.Keys == g.Keys && paths.Keys == g.Keys && table.Keys == g.Keys
    && dist[s] == Fin(0) && settled <= g.Keys
    && (forall u | u in settled :: SettledOk(g, s, dist, paths, table, u))
    && (forall u | u in g && u !in settled ::
          paths[u] == [] && table[u] == (if u == s then Entry(Some(s), Fin(0)) else Entry(None, Inf)))
    && (s in settled ==> paths[s] == [s])
  }

  ghost predicate RelaxedEdge(g: Graph, dist: map<string, Cost>, u: string, v: string)
    requires HasEdge(g, u, v) && u in dist && v in dist
  {
    dist[u].Fin? && dist[v].Fin? && dist[v].n <= dist[u].n + g[u][v]
  }

  /** Invariant of the outer `while pq` loop. */
  ghost predicate Inv(g: Graph, s: string, pq: seq<QEntry>, dist: map<string, Cost>,
                      paths: map<string, seq<string>>, table: Table, settled: set<string>,
                      slot: map<string, QEntry>)
  {
    && Common(g, s, dist, paths, table, settled)
    && (forall e | e in pq :: EntryOk(g, s, dist, e))
    && Witnessed(g, pq, dist, settled, slot)
    && (forall u, e | u in settled && e in pq :: dist[u].n <= e.cost)
    && (forall u, v | u in settled && HasEdge(g, u, v) :: RelaxedEdge(g, dist, u, v))
  }

  /**
   * Invariant of the inner loop over the neighbours of `cur`, settled at cost
   * `c` along `path`; `done` holds the neighbours already relaxed.
   */
  ghost predicate InnerInv(g: Graph, s: string, c: int, cur: string, path: seq<string>,
                           pq: seq<QEntry>, dist: map<string, Cost>, paths: map<string, seq<string>>,
                           table: Table, settled: set<string>, slot: map<string, QEntry>, done: set<string>)
  {
    && InnerState(g, s, c, cur, path, dist, paths, table, settled)
    && InnerQueue(g, s, c, pq, dist, settled, slot)
    && InnerRelaxed(g, cur, dist, settled, done)
  }

  /** The settled part: `cur` is settled at cost c along `path`, no settled router costs more. */
  ghost predicate InnerState(g: Graph, s: string, c: int, cur: string, path: seq<string>,
                             dist: map<string, Cost>, paths: map<string, seq<string>>,
                             table: Table, settled: set<string>)
  {
    && Common(g, s, dist, paths, table, settled)
    && cur in settled && WalkFrom(g, s, cur, path) && PathCost(g, path) == c && dist[cur] == Fin(c) && c >= 0
    && (cur == s ==> path == [s])
    && (forall u | u in settled :: dist[u].n <= c)
  }

  /** The queue part: every item is sound and no cheaper than c, and every open router is queued. */
  ghost predicate InnerQueue(g: Graph, s: string, c: int, pq: seq<QEntry>, dist: map<string, Cost>,
                             settled: set<string>, slot: map<string, QEntry>)
  {
    && dist.Keys == g.Keys
    && (forall e | e in pq :: EntryOk(g, s, dist, e) && c <= e.cost)
    && Witnessed(g, pq, dist, settled, slot)
  }

  /** The relaxation part: links out of earlier settled routers, and out of `cur` to `done`, are relaxed. */
  ghost predicate InnerRelaxed(g: Graph, cur: string, dist: map<string, Cost>, settled: set<string>,
                               done: set<string>)
  {
    && EndpointsKnown(g) && dist.Keys == g.Keys
    && (forall u, v | u in settled && u != cur && HasEdge(g, u, v) :: RelaxedEdge(g, dist, u, v))
    && (forall v | v in done :: HasEdge(g, cur, v) && RelaxedEdge(g, dist, cur, v))
  }

  lemma RemoveAt(pq: seq<QEntry>, i: int)
    requires 0 <= i < |pq|
    ensures forall x | x in pq[..i] + pq[i + 1..] :: x in pq
    ensures forall x | x in pq && x != pq[i] :: x in pq[..i] + pq[i + 1..]
  {
    assert pq == pq[..i] + [pq[i]] + pq[i + 1..];
  }

  lemma InitialInv(g: Graph, s: string, dist: map<string, Cost>, paths: map<string, seq<string>>, table: Table)
    requires s in g && EndpointsKnown(g) && NonNegative(g)
    requires dist == (map r | r in g :: Inf)[s := Fin(0)]
    requires paths == map r | r in g :: []
    requires table == ResetTable(g.Keys, s)
    ensures Inv(g, s, [QEntry(0, s, [])], dist, paths, table, {}, map[s := QEntry(0, s, [])])
  {
    assert [] + [s] == [s];
    SingletonWalk(g, s);
  }

  /** Popping an item dearer than the best known cost (`continue` branch). */
  lemma PopStale(g: Graph, s: string, pq: seq<QEntry>, i: int, dist: map<string, Cost>,
                 paths: map<string, seq<string>>, table: Table, settled: set<string>, slot: map<string, QEntry>)
    requires Inv(g, s, pq, dist, paths, table, settled, slot)
    requires 0 <= i < |pq| && pq[i].node in dist && Lt(dist[pq[i].node], Fin(pq[i].cost))
    ensures Inv(g, s, pq[..i] + pq[i + 1..], dist, paths, table, settled, slot)
  {
    RemoveAt(pq, i);
  }

  /** Popping a cheapest item whose cost is the best known one settles its router. */
  lemma Settle(g: Graph, s: string, pq: seq<QEntry>, i: int, dist: map<string, Cost>,
               paths: map<string, seq<string>>, table: Table, settled: set<string>, slot: map<string, QEntry>,
               e: QEntry, path: seq<string>)
    requires Inv(g, s, pq, dist, paths, table, settled, slot)
    requires 0 <= i < |pq| && e == pq[i] && e.node in dist && !Lt(dist[e.node], Fin(e.cost))
    requires forall k | 0 <= k < |pq| :: e.cost <= pq[k].cost
    requires path == e.prefix + [e.node]
    ensures dist[e.node] == Fin(e.cost)
    ensures e.node in settled ==> forall v | HasEdge(g, e.node, v) :: RelaxedEdge(g, dist, e.node, v)
    ensures InnerInv(g, s, e.cost, e.node, path, pq[..i] + pq[i + 1..], dist,
                     paths[e.node := path], table[e.node := Entry(Some(NextHop(s, path)), Fin(e.cost))],
                     settled + {e.node}, slot, {})
  {
    var cur, c := e.node, e.cost;
    assert e in pq;
    assert EntryOk(g, s, dist, e);
    SettleQueue(g, s, pq, i, dist);
    SettleCommon(g, s, e, path, dist, paths, table, settled);
    SettleWitness(g, pq, i, dist, settled, slot);
    if cur in settled {
      SettledRelaxed(g, dist, settled, cur);
    }
    forall u | u in settled + {cur} ensures dist[u].n <= c {
      if u != cur {
        assert dist[u].n <= e.cost;
      }
    }
  }

  lemma SettleQueue(g: Graph, s: string, pq: seq<QEntry>, i: int, dist: map<string, Cost>)
    requires forall e | e in pq :: EntryOk(g, s, dist, e)
    requires 0 <= i < |pq| && forall k | 0 <= k < |pq| :: pq[i].cost <= pq[k].cost
    ensures forall x | x in pq[..i] + pq[i + 1..] :: EntryOk(g, s, dist, x) && pq[i].cost <= x.cost
  {
    RemoveAt(pq, i);
    forall x | x in pq[..i] + pq[i + 1..] ensures EntryOk(g, s, dist, x) && pq[i].cost <= x.cost {
      var k :| 0 <= k < |pq| && pq[k] == x;
    }
  }

  lemma SettleWitness(g: Graph, pq: seq<QEntry>, i: int, dist: map<string, Cost>, settled: set<string>,
                      slot: map<string, QEntry>)
    requires dist.Keys == g.Keys && Witnessed(g, pq, dist, settled, slot)
    requires 0 <= i < |pq|
    ensures Witnessed(g, pq[..i] + pq[i + 1..], dist, settled + {pq[i].node}, slot)
  {
    RemoveAt(pq, i);
  }

  /** A router settled before has all its links relaxed already. */
  lemma SettledRelaxed(g: Graph, dist: map<string, Cost>, settled: set<string>, cur: string)
    requires EndpointsKnown(g) && dist.Keys == g.Keys && cur in settled && cur in g
    requires forall u, v | u in settled && HasEdge(g, u, v) :: RelaxedEdge(g, dist, u, v)
    ensures forall v | HasEdge(g, cur, v) :: RelaxedEdge(g, dist, cur, v)
  {
  }

  lemma SettleCommon(g: Graph, s: string, e: QEntry, path: seq<string>, dist: map<string, Cost>,
                     paths: map<string, seq<string>>, table: Table, settled: set<string>)
    requires Common(g, s, dist, paths, table, settled)
    requires EntryOk(g, s, dist, e) && dist[e.node] == Fin(e.cost) && path == e.prefix + [e.node]
    ensures Common(g, s, dist, paths[e.node := path],
                   table[e.node := Entry(Some(NextHop(s, path)), Fin(e.cost))], settled + {e.node})
  {
    var cur := e.node;
    var row := Entry(Some(NextHop(s, path)), Fin(e.cost));
    assert cur in g;
    SettleRows(g, s, dist, paths, table, settled, cur, path, row);
    SettleUnsettled(g, s, paths, table, settled, cur, path, row);
  }

  /** The newly settled router's path and row are final; the earlier ones are untouched. */
  lemma SettleRows(g: Graph, s: string, dist: map<string, Cost>, paths: map<string, seq<string>>,
                   table: Table, settled: set<string>, cur: string, path: seq<string>, row: Entry)
    requires dist.Keys == g.Keys && paths.Keys == g.Keys && table.Keys == g.Keys && cur in g && settled <= g.Keys
    requires forall u | u in settled :: SettledOk(g, s, dist, paths, table, u)
    requires dist[cur].Fin? && WalkFrom(g, s, cur, path) && PathCost(g, path) == dist[cur].n
    requires row == Entry(Some(NextHop(s, path)), dist[cur])
    ensures forall u | u in settled + {cur} :: SettledOk(g, s, dist, paths[cur := path], table[cur := row], u)
  {
    forall u | u in settled + {cur} ensures SettledOk(g, s, dist, paths[cur := path], table[cur := row], u) {
      if u != cur {
        assert SettledOk(g, s, dist, paths, table, u);
      }
    }
  }

  /** Routers still unsettled keep their empty path and initial row. */
  lemma SettleUnsettled(g: Graph, s: string, paths: map<string, seq<string>>, table: Table,
                        settled: set<string>, cur: string, path: seq<string>, row: Entry)
    requires paths.Keys == g.Keys && table.Keys == g.Keys
    requires forall u | u in g && u !in settled ::
               paths[u] == [] && table[u] == (if u == s then Entry(Some(s), Fin(0)) else Entry(None, Inf))
    ensures forall u | u in g && u !in settled + {cur} ::
              paths[cur := path][u] == [] && table[cur := row][u] == (if u == s then Entry(Some(s), Fin(0)) else Entry(None, Inf))
  {
  }

  /** A route no cheaper than the known one leaves the state as it is; the neighbour is done. */
  lemma RelaxSkip(g: Graph, s: string, c: int, cur: string, path: seq<string>,
                  pq: seq<QEntry>, dist: map<string, Cost>, paths: map<string, seq<string>>,
                  table: Table, settled: set<string>, slot: map<string, QEntry>, done: set<string>,
                  nb: string)
    requires InnerInv(g, s, c, cur, path, pq, dist, paths, table, settled, slot, done)
    requires HasEdge(g, cur, nb) && nb in dist && !Lt(Fin(c + g[cur][nb]), dist[nb])
    ensures InnerInv(g, s, c, cur, path, pq, dist, paths, table, settled, slot, done + {nb})
  {
    assert RelaxedEdge(g, dist, cur, nb);
  }

  /** A cheaper route to the neighbour lowers its cost and queues it. */
  lemma RelaxPush(g: Graph, s: string, c: int, cur: string, path: seq<string>,
                  pq: seq<QEntry>, dist: map<string, Cost>, paths: map<string, seq<string>>,
                  table: Table, settled: set<string>, slot: map<string, QEntry>, done: set<string>,
                  nb: string, e: QEntry, dist': map<string, Cost>)
    requires InnerInv(g, s, c, cur, path, pq, dist, paths, table, settled, slot, done)
    requires HasEdge(g, cur, nb) && nb in dist && e == QEntry(c + g[cur][nb], nb, path)
    requires Lt(Fin(e.cost), dist[nb]) && dist' == dist[nb := Fin(e.cost)]
    ensures InnerInv(g, s, c, cur, path, pq + [e], dist', paths, table, settled, slot[nb := e], done + {nb})
  {
    assert nb in g;
    assert nb !in settled;
    assert nb != s;
    PushQueue(g, s, c, cur, path, pq, dist, nb, e, dist');
    PushCommon(g, s, dist, paths, table, settled, nb, e.cost);
    PushRelaxed(g, c, cur, dist, settled, done, nb, dist');
    PushWitness(g, pq, dist, settled, slot, e);
  }

  lemma PushWitness(g: Graph, pq: seq<QEntry>, dist: map<string, Cost>, settled: set<string>,
                    slot: map<string, QEntry>, e: QEntry)
    requires dist.Keys == g.Keys && e.node in g && Witnessed(g, pq, dist, settled, slot)
    ensures Witnessed(g, pq + [e], dist[e.node := Fin(e.cost)], settled, slot[e.node := e])
  {
    var dist' := dist[e.node := Fin(e.cost)];
    forall v | v in g && dist'[v].Fin? && v !in settled
      ensures v in slot[e.node := e] && slot[e.node := e][v] in pq + [e]
    {
      if v != e.node {
        assert slot[v] in pq;
      }
    }
  }

  lemma PushQueue(g: Graph, s: string, c: int, cur: string, path: seq<string>, pq: seq<QEntry>,
                  dist: map<string, Cost>, nb: string, e: QEntry, dist': map<string, Cost>)
    requires EndpointsKnown(g) && NonNegative(g) && c >= 0
    requires WalkFrom(g, s, cur, path) && PathCost(g, path) == c && HasEdge(g, cur, nb) && nb != s
    requires forall x | x in pq :: EntryOk(g, s, dist, x) && c <= x.cost
    requires nb in dist && e == QEntry(c + g[cur][nb], nb, path)
    requires Lt(Fin(e.cost), dist[nb]) && dist' == dist[nb := Fin(e.cost)]
    ensures forall x | x in pq + [e] :: EntryOk(g, s, dist', x) && c <= x.cost
  {
    WalkExtend(g, path, nb);
    assert EntryOk(g, s, dist', e);
    forall x | x in pq + [e] ensures EntryOk(g, s, dist', x) && c <= x.cost {
      if x != e {
        assert x in pq;
        assert EntryOk(g, s, dist, x);
      }
    }
  }

  lemma PushCommon(g: Graph, s: string, dist: map<string, Cost>, paths: map<string, seq<string>>,
                   table: Table, settled: set<string>, nb: string, newCost: int)
    requires Common(g, s, dist, paths, table, settled)
    requires nb in g && nb !in settled && nb != s
    ensures Common(g, s, dist[nb := Fin(newCost)], paths, table, settled)
  {
    var dist' := dist[nb := Fin(newCost)];
    forall u | u in settled ensures SettledOk(g, s, dist', paths, table, u) {
      assert SettledOk(g, s, dist, paths, table, u);
    }
  }

  lemma PushRelaxed(g: Graph, c: int, cur: string, dist: map<string, Cost>, settled: set<string>,
                    done: set<string>, nb: string, dist': map<string, Cost>)
    requires EndpointsKnown(g) && dist.Keys == g.Keys && settled <= g.Keys && cur in settled && nb !in settled
    requires HasEdge(g, cur, nb) && dist[cur] == Fin(c)
    requires forall u, v | u in settled && u != cur && HasEdge(g, u, v) :: RelaxedEdge(g, dist, u, v)
    requires forall v | v in done :: HasEdge(g, cur, v) && RelaxedEdge(g, dist, cur, v)
    requires Lt(Fin(c + g[cur][nb]), dist[nb]) && dist' == dist[nb := Fin(c + g[cur][nb])]
    ensures forall u, v | u in settled && u != cur && HasEdge(g, u, v) :: RelaxedEdge(g, dist', u, v)
    ensures forall v | v in done + {nb} :: HasEdge(g, cur, v) && RelaxedEdge(g, dist', cur, v)
  {
    forall u, v | u in settled && u != cur && HasEdge(g, u, v) ensures RelaxedEdge(g, dist', u, v) {
      assert RelaxedEdge(g, dist, u, v);
    }
    forall v | v in done + {nb} ensures HasEdge(g, cur, v) && RelaxedEdge(g, dist', cur, v) {
      if v != nb {
        assert RelaxedEdge(g, dist, cur, v);
      }
    }
  }

  /** After the last neighbour the outer invariant holds again. */
  lemma FinishSettle(g: Graph, s: string, c: int, cur: string, path: seq<string>,
                     pq: seq<QEntry>, dist: map<string, Cost>, paths: map<string, seq<string>>,
                     table: Table, settled: set<string>, slot: map<string, QEntry>)
    requires cur in g
    requires InnerInv(g, s, c, cur, path, pq, dist, paths, table, settled, slot, g[cur].Keys)
    ensures Inv(g, s, pq, dist, paths, table, settled, slot)
  {
    forall u, v | u in settled && HasEdge(g, u, v) ensures RelaxedEdge(g, dist, u, v) {
      if u == cur {
        assert v in g[cur].Keys;
      }
    }
  }

  /** With the queue empty the paths and the table are the shortest ones. */
  lemma Complete(g: Graph, s: string, dist: map<string, Cost>, paths: map<string, seq<string>>,
                 table: Table, settled: set<string>, slot: map<string, QEntry>)
    requires Inv(g, s, [], dist, paths, table, settled, slot)
    ensures DijkstraResult(g, s, paths) && table == TableOf(g, s, paths)
  {
    assert s in settled;
    var d := SettledPotential(g, s, dist, paths, table, settled, slot);
    forall v | v in g
      ensures if paths[v] == [] then !Reachable(g, s, v) else ShortestWalk(g, s, v, paths[v])
    {
      if v in settled {
        assert SettledOk(g, s, dist, paths, table, v);
        forall q | WalkFrom(g, s, v, q) ensures PathCost(g, paths[v]) <= PathCost(g, q) {
          PotentialBound(g, d, q);
        }
      } else {
        forall q | WalkFrom(g, s, v, q) ensures false {
          PotentialBound(g, d, q);
        }
      }
    }
    var t := TableOf(g, s, paths);
    forall v | v in g ensures table[v] == t[v] {
      if v in settled {
        assert SettledOk(g, s, dist, paths, table, v);
      }
    }
  }

  /** The settled costs form a potential that no link can lower. */
  lemma SettledPotential(g: Graph, s: string, dist: map<string, Cost>, paths: map<string, seq<string>>,
                         table: Table, settled: set<string>, slot: map<string, QEntry>)
    returns (d: map<string, int>)
    requires Inv(g, s, [], dist, paths, table, settled, slot)
    ensures d.Keys == settled && Relaxed(g, d) && s in d && d[s] == 0
    ensures forall u | u in settled :: d[u] == dist[u].n
  {
    d := map u | u in settled :: dist[u].n;
    forall u, v | HasEdge(g, u, v) && u in d ensures v in d && d[v] <= d[u] + g[u][v] {
      assert RelaxedEdge(g, dist, u, v);
    }
  }
}
