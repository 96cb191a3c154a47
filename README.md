# Network simulator routing engine in Dafny

This project models the routing engine of a small network simulator.
Routers have names and routing tables (destination → next hop, cost). The
network is a directed graph with integer link costs, stored as
`{router: {neighbour: cost}}`. The engine offers:

- the four topology edits (add/remove a router, add/remove a one-way link);
- the negative-link test;
- Dijkstra's algorithm and the Bellman-Ford algorithm for one source router,
  each of which rewrites that router's table and returns the paths it found;
- the two batch refreshes that run one of them from every router, and the
  dispatcher between them;
- the text dump of every routing table.

The model follows the program's own shape. `Router` and `Network` are classes
whose methods update their fields. The algorithms are methods with loops,
proved against functions and predicates over the graph that say what they compute:

| module | file | content |
|---|---|---|
| `Walks` | `walks.dfy` | walks, their costs, reachability, negative closed walks, and the pigeonhole shortening of long walks |
| `Topology` | `topology.dfy` | the four topology edits as functions on the graph |
| `Routing` | `routing.dfy` | costs (finite or infinite), table entries, and what a correct routing table is |
| `DijkstraProof` | `dijkstra_proof.dfy` | the invariant of the priority-queue loop and its lemmas |
| `BellmanFordProof` | `bellman_ford_proof.dfy` | the invariant of the relaxation passes, the negative-cycle test and predecessor tracing |
| `Text` | `text.dfy` | string order, sorting, integer printing and the table layout |
| `NetworkSimulator` | `network.dfy` | the classes and the imperative code |

Representation choices:

- `float('inf')` is the `Inf` constructor of `Cost`.
- A missing next hop (`None`) is `Option.None`.
- A method that returns `None` in the program returns `None` here too. An unknown source gives `Some(map[])`, like the program's `{}`.
- The main results:
  - Dijkstra refuses exactly when some link is negative.
  - Bellman-Ford refuses exactly when a closed walk of negative cost is reachable from the source.
  - When they succeed, each returns cheapest walks and writes a *correct routing table* (`Routing.ShortestTable`): the source has itself at cost 0. A reachable router has the next hop and cost of some cheapest walk. Any other router has no next hop and cost `inf`.
  - The batch refreshes succeed exactly when every router's algorithm would, and then every table is correct.

## Model

| member | source | states |
|---|---|---|
| NetworkSimulator.Router.constructor | network_simulator.py:12-16 | a new router has the given name and a table with one row: itself as next hop at cost 0 |
| NetworkSimulator.Network.constructor | network_simulator.py:26-30 | a new network has no routers and no links |
| NetworkSimulator.Network.AddRouter | network_simulator.py:32-42 | succeeds exactly when the name is new; then a fresh router with the one-row table is filed under it, it gets an empty link map, and nothing else changes; a known name changes nothing |
| NetworkSimulator.Network.RemoveRouter | network_simulator.py:44-60 | succeeds exactly when the router exists; then it, its outgoing links and every link into it are gone (`Topology.RemoveNode`) |
| NetworkSimulator.DropLinksTo | network_simulator.py:52-54 | the scan over the remaining routers deletes exactly the links into the removed router |
| NetworkSimulator.Network.AddLink | network_simulator.py:62-80 | succeeds exactly when both routers exist and the cost reads as an integer; then link u → v has that cost (replacing an old one) and nothing else changes; negative costs are accepted |
| NetworkSimulator.Network.RemoveLink | network_simulator.py:82-90 | succeeds exactly when link u → v exists; then only that link is gone |
| Topology.AddNode | network_simulator.py:37 | the new router has no links; every old link is kept with its cost |
| Topology.RemoveNode | network_simulator.py:47-54 | exactly the links not touching the removed router remain, with their costs |
| Topology.SetEdge | network_simulator.py:75 | link u → v has the new cost; every other link and cost is kept |
| Topology.DeleteEdge | network_simulator.py:85 | link u → v is gone; every other link and cost is kept |
| Topology.AddThenRemoveNode | network_simulator.py:32-60 | removing a router just added restores the graph |
| Topology.SetThenDeleteEdge | network_simulator.py:62-90 | deleting a link just added to a graph without it restores the graph |
| Topology.DeleteThenSetEdge | network_simulator.py:62-90 | re-adding a deleted link with its old cost restores the graph |
| Topology.SetEdgeOverwrites | network_simulator.py:75 | adding a link twice keeps only the second cost |
| NetworkSimulator.Network.HasNegativeEdges | network_simulator.py:92-98 | true exactly when some link has a negative cost |
| NetworkSimulator.HeapPop | network_simulator.py:126 | the popped queue item has the least cost in the queue |
| NetworkSimulator.Network.Dijkstra | network_simulator.py:100-154 | an unknown source gives the empty map and changes nothing; otherwise it refuses exactly when some link is negative, and a refusal changes nothing; on success the paths are cheapest walks (`Routing.DijkstraResult`), the source's table is built from them, and no other table changes |
| NetworkSimulator.Network.DijkstraFrom | network_simulator.py:114-154 | the successful run changes only the source's table |
| NetworkSimulator.DijkstraRun | network_simulator.py:114-154 | with no negative link, the loop ends with a cheapest walk for every reachable router, `[]` for the others, and the table that matches these paths |
| NetworkSimulator.Round | network_simulator.py:125-130 | one round of the queue loop keeps the loop invariant, and either settles a new router or shortens the queue |
| NetworkSimulator.Visit | network_simulator.py:133-152 | a router popped at its best cost gets its path and table row, and its neighbours are relaxed; the invariant is kept |
| NetworkSimulator.RelaxNeighbours | network_simulator.py:144-152 | after the neighbour loop every link out of the current router is relaxed; if none could be, the queue and costs are unchanged |
| NetworkSimulator.RelaxOne | network_simulator.py:146-152 | a cheaper route lowers the neighbour's cost and is queued; otherwise nothing changes |
| DijkstraProof.Complete | network_simulator.py:125-154 | when the queue is empty, the paths are cheapest walks and the table is the one built from them |
| DijkstraProof.SettledPotential | network_simulator.py:125-154 | the settled costs form a potential that no link can lower, with the source at 0 |
| NetworkSimulator.Network.BellmanFord | network_simulator.py:156-220 | an unknown source gives the empty map and changes nothing; otherwise it refuses exactly when a negative closed walk is reachable from the source, and the source's table is left reset; on success the paths are cheapest walks to exactly the reachable routers (`Routing.BellmanFordResult`), the source's table is built from them, and no other table changes |
| NetworkSimulator.BellmanFordRun | network_simulator.py:165-220 | the same, for the body after the source check |
| NetworkSimulator.Network.EdgeList | network_simulator.py:174-178 | the list holds every link with its cost, and only links |
| NetworkSimulator.RelaxAll | network_simulator.py:165-187 | after \|routers\| - 1 passes every walk from the source with at most \|routers\| - 1 links costs at least the recorded cost of its end |
| NetworkSimulator.RelaxPass | network_simulator.py:183-187 | pass k + 1 bounds every walk of at most k + 1 links and keeps the predecessor invariant |
| NetworkSimulator.RelaxLink | network_simulator.py:184-187 | one relaxation step keeps the invariant and the pass's progress |
| NetworkSimulator.FindRelaxable | network_simulator.py:189-194 | the check finds a link exactly when some link still passes the relaxation test |
| BellmanFordProof.CheckPassCorrect | network_simulator.py:189-194 | after the passes, some link still relaxes exactly when a negative closed walk is reachable from the source |
| BellmanFordProof.NoNegativeCycleNoRelax | network_simulator.py:189-194 | with no reachable negative closed walk, no link relaxes after the passes |
| BellmanFordProof.NoRelaxNoNegativeCycle | network_simulator.py:189-194 | if no link relaxes, no negative closed walk is reachable |
| BellmanFordProof.NegativeCycleFromReturn | network_simulator.py:185-187 | a relaxation that closes a predecessor cycle exhibits a negative closed walk reachable from the source |
| NetworkSimulator.Reconstruct | network_simulator.py:196-220 | step 3 builds cheapest walks to exactly the routers of finite cost, and the matching table |
| NetworkSimulator.RebuildOne | network_simulator.py:198-215 | one destination of step 3 keeps the reconstruction invariant |
| NetworkSimulator.TracePredecessors | network_simulator.py:200-209 | the traced path ends at the destination and follows recorded predecessors; without a predecessor cycle it starts at a router with no predecessor |
| BellmanFordProof.TraceIsShortest | network_simulator.py:198-215 | for a router of finite cost, the traced path starts at the source, is a cheapest walk and costs the recorded cost; the source's own path is `[source]` |
| BellmanFordProof.FiniteIffReachable | network_simulator.py:199 | after the passes, a router's cost is finite exactly when it is reachable |
| BellmanFordProof.BoundsAllWalks | network_simulator.py:183-187 | with no reachable negative closed walk, every walk from the source costs at least the recorded cost of its end |
| Walks.Shorten | network_simulator.py:183 | with no reachable negative closed walk, every walk can be replaced by one with at most \|routers\| nodes that costs no more: the reason \|routers\| - 1 passes suffice |
| Walks.Pigeonhole | network_simulator.py:183 | a walk with more nodes than routers repeats a router |
| Walks.PotentialBound | network_simulator.py:146-152 | under costs that no link can lower, the cost of any walk bounds the difference between its ends |
| Walks.NegativeCycleNeedsNegativeEdge | network_simulator.py:109-112 | a reachable negative closed walk needs a negative link, so Bellman-Ford refuses only where Dijkstra also refuses |
| Routing.DijkstraTableCorrect | network_simulator.py:136-141 | the table written from Dijkstra's paths is a correct routing table |
| Routing.BellmanFordTableCorrect | network_simulator.py:211-218 | the table written from Bellman-Ford's paths is a correct routing table |
| Routing.ShortestTablesAgree | network_simulator.py:100-220 | two correct tables for one source have the same costs and the same unreachable routers, so the two algorithms agree whenever both succeed |
| Routing.NextHopIsNeighbour | network_simulator.py:137-138 | in a correct table, a listed next hop towards another router is a direct neighbour of the source |
| Routing.TableCostIsMinimal | network_simulator.py:100-220 | in a correct table, the cost towards a router is no more than any walk's cost to it |
| Routing.AllShortestGrow | network_simulator.py:241-242 | installing one more correct table keeps all the installed tables correct |
| NetworkSimulator.Network.UpdateAllDijkstra | network_simulator.py:232-246 | succeeds exactly when no link is negative; a refusal changes no table; on success every router's table is correct |
| NetworkSimulator.Network.RefreshDijkstra | network_simulator.py:241-242 | one round of the loop adds one more router with a correct table |
| NetworkSimulator.Network.UpdateAllBellmanFord | network_simulator.py:248-259 | succeeds exactly when no router reaches a negative closed walk; on success every table is correct; on failure some router that reaches one has its table left reset |
| NetworkSimulator.Network.RefreshBellmanFord | network_simulator.py:252-255 | one round either adds one more router with a correct table or stops at a router that reaches a negative closed walk |
| NetworkSimulator.Network.UpdateAll | network_simulator.py:222-230 | the algorithm defaults to `"dijkstra"`; `"dijkstra"` succeeds exactly when no link is negative and a refusal changes no table; `"bellman_ford"` succeeds exactly when no router reaches a negative closed walk, and a refusal leaves such a router's table reset; any other name is refused and changes no table; success means every table is correct |
| NetworkSimulator.Network.RoutingTablesString | network_simulator.py:261-277 | the dump is the blocks of all routers' tables in name order (`Text.Dump`) |
| NetworkSimulator.TablesText | network_simulator.py:263-277 | the same dump computed from the tables: the blocks of every name in sorted order |
| NetworkSimulator.BlocksText | network_simulator.py:266-276 | the loop appends the routers' blocks in the given order |
| NetworkSimulator.TableText | network_simulator.py:268-276 | one block is the header lines followed by a row per destination in name order |
| NetworkSimulator.AppendRows | network_simulator.py:272-276 | the inner loop appends the rows of the destinations in order; each row (`Text.Row`) is the padded destination, the padded next hop (`N/A` for none) and the cost (`inf` for infinite) |
| Text.SortedNames | network_simulator.py:265 | the sorted names are strictly increasing and hold exactly the given names |
| Text.SortedUnique | network_simulator.py:265 | two strictly increasing sequences with the same names are equal, so the sort result is unique |
| Text.SortedNamesIsSorted | network_simulator.py:265 | any strictly increasing listing of a set is its sorted listing |
| Text.LessTransitive | network_simulator.py:265 | the string order used for sorting is transitive |
| Text.LessTotal | network_simulator.py:265 | the string order is total |
| Text.LessIrreflexive | network_simulator.py:265 | the string order is irreflexive |
| Text.LeastExists | network_simulator.py:265 | every non-empty set of names has a least element |
| Text.IntRoundTrip | network_simulator.py:274 | reading back a printed integer gives that integer |
| Text.NatRoundTrip | network_simulator.py:274 | reading back the digits of a printed natural number gives that number |
| Text.CostTextFaithful | network_simulator.py:274 | the cost column is `inf` exactly for an infinite cost, and otherwise reads back as the cost |
| Text.PadRight | network_simulator.py:276 | padding keeps the text and fills with spaces up to the width, never truncating |
| Text.RowLayout | network_simulator.py:276 | a row starts with the destination, puts `\| ` after the padded destination and ends with a newline |

## Left out

- Console messages (`print`) and the timings in the batch refreshes are not modelled. They do not affect state or results.
- `visualize_network`, the command-line and GUI front ends, and `build_common_topology` are not part of this model. They are drawing and interaction code.
- Dictionary iteration order is not fixed here. The loops pick the next router or link with `:|`, so the proofs hold for every order.
- The Bellman-Ford edge list is taken in any order for the same reason.
- HeapPop: any item of least cost is popped. Python's heap breaks ties by router name and then by path. Among equal-cost items a different path of the same cost may be recorded, so a next hop may differ from the program's. The proved properties hold for every such choice.
- `int(cost)` in `add_link` is not modelled. `AddLink` takes the cost as `Option<int>`, where `None` stands for a string `int()` rejects.
- Integers are unbounded, as in Python.
- In step 3 of `bellman_ford`, the test `path[0] == start_router_name` always holds. `BellmanFordProof.TraceIsShortest` proves it, so the model has no branch for it failing.
- For the same reason the `elif dest_name == start_router_name` branch is never reached and is not modelled.
- Likewise, the loop-breaking branch of the predecessor walk is modelled in `TracePredecessors`, but with no negative cycle reachable it never runs.
- NetworkSimulator.Network.UpdateAllBellmanFord: on failure the contract names one router that reaches a negative closed walk and whose table was left reset. It does not say which other routers were refreshed before the stop.
- For a one-router path, `dijkstra` takes the source as the next hop and `bellman_ford` takes the destination. That path is always `[source]`, so both are the source. The model writes each as the program does.
