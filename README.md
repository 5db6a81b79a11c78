# SDN controller routing core, modelled in Dafny

This project models the routing core of a small software-defined-networking
controller (`SDN_controller.py`). The controller keeps two pieces of state:

- a directed topology of string-named nodes;
- a flow table mapping *current hop → destination → (next hop, priority,
  backup route)*.

The controller performs these operations:

- It adds nodes and links.
- It installs a flow from a source to a destination. The flow takes one of the
  minimum-hop paths. For high priority, it also records the shortest other
  simple path of at most 10 hops as a backup.
- It simulates a link failure: it drops the link, deletes the failed hop's
  entry and reroutes at normal priority.
- It repairs or creates a link. This rebuilds the whole table by routing every
  ordered pair of distinct nodes (`initialT`).
- It deletes a node and purges the node from the table.

Files:

- `wrappers.dfy`: the `Option` type.
- `topology.dfy`: the topology as a value (`Graph`) and its updates. Paths,
  simple paths and minimum-hop paths are defined as predicates. The
  enumeration of all simple paths (`Extensions`, `SimplePaths`) is proved
  sound and complete. Its shortest members (`ShortestPaths`) are proved to be
  exactly the minimum-hop paths over all walks. This is how the model states
  what `all_shortest_paths`, `shortest_path` and `all_simple_paths(cutoff=10)`
  of the graph library return.
- `flow_table.dfy`: the flow table and the functions that change it:
  - `Put` writes one entry and creates the row if needed.
  - `Install` writes a whole route.
  - `Delete`, `Discard` and `Purge` remove entries.

  It also defines the invariants the controller keeps:
  - `Consistent`: every entry forwards along a minimum-hop route.
  - `Complete`: every node has an entry for every other node it can reach.
  - `Grows`, `ChangedOnlyTo` and `Uniform` describe how a table changes.
- `controller.dfy`: class `Controller` with fields `graph` and `flowTable`.
  Each method of the Python class becomes a method that updates those fields
  in place, with loops where the source loops. Each method is proved against
  the functions above.
- `scenarios.dfy`: the start topology from the script (A–D) and verified
  scenarios of the controller on fixed inputs. One of them is the self-loop
  link failure described under Findings.

Randomness and unspecified orders become nondeterministic choice (`:|`), so
every proved property holds whichever choice is made. This covers
`random.choice` among the shortest paths, the iteration order of nodes and
table rows, and the tie-break of `min(..., key=len)`.

Two behaviours of the code are worth stating outright, because a reader might
expect otherwise:

- `add_edge` never fails on an unknown endpoint. It inserts missing endpoints
  as nodes, and `WithEdge` states that.
- `link_fail` deletes the failed hop's entry unconditionally (line 90), so a
  missing entry raises `KeyError` and ends the program. `LinkFail` models this
  as the `MissingEntry` outcome. `LinkFailIfPresent` deletes the entry only
  when it is present and otherwise behaves the same (see Findings).

Line 95 calls `flow` on the module-level `controller` rather than on `self`.
In the script these are the same object, so `LinkFail` calls `this.Flow`.

## Model

| member | source | states |
|---|---|---|
| Control.Controller.constructor | SDN_controller.py:14-16 | a new controller has an empty topology and an empty flow table |
| Topology.WithNode | SDN_controller.py:19-20 | adding a node makes it present, keeps every other node and every edge, keeps endpoints well formed, and is the identity when the node is already present (idempotent) |
| Control.Controller.AddNode | SDN_controller.py:19-20 | the topology becomes `WithNode` of the old one, the flow table is untouched, and adding a present node changes nothing |
| Topology.WithEdge | SDN_controller.py:23-24 | adding a link makes the edge and both endpoints present (missing endpoints are inserted), changes no other edge or node, and is the identity when the edge is already there |
| Control.Controller.AddEdge | SDN_controller.py:23-24 | the topology becomes `WithEdge` of the old one, the flow table is untouched, and adding an existing link changes nothing |
| Control.Controller.ShortestPath | SDN_controller.py:36-43 | returns None exactly when dest cannot be reached from src, and otherwise a path from src to dest with no more hops than any other path |
| Topology.Shortcut | SDN_controller.py:49 | every path can be shortened to a simple path with no more hops, strictly fewer when it repeats a node, so restricting the search to simple paths loses no minimum-hop path |
| Topology.SuffixShortest | SDN_controller.py:67-72 | every suffix of a minimum-hop path is a minimum-hop path from its first node, so each hop written by flow is itself on a shortest route |
| Topology.ShortestIsSimple | SDN_controller.py:49 | a minimum-hop path never visits a node twice |
| Topology.Join | SDN_controller.py:49 | a path a..b joined at b with a path b..c is a path a..c with the combined hop count |
| Topology.Extensions | SDN_controller.py:59 | the enumeration from a simple walk p contains p and yields only simple walks that begin with p |
| Topology.ExtensionsComplete | SDN_controller.py:59 | every simple walk that begins with p is enumerated from p |
| Topology.SimplePaths | SDN_controller.py:59 | every enumerated route from src ending at dest is a simple path from src to dest |
| Topology.SimplePathsComplete | SDN_controller.py:59 | every simple path from src to dest is enumerated |
| Topology.Shortest | SDN_controller.py:53-62 | the routes of minimum length that random.choice and min(..., key=len) pick from: exactly the members of the given set that are no longer than any other member (ShortestExists adds that it is non-empty) |
| Topology.ShortestExists | SDN_controller.py:53-62 | a non-empty set of routes has at least one member of minimum length, so random.choice and min always have something to pick |
| Topology.ShortestPaths | SDN_controller.py:49 | the paths all_shortest_paths returns: simple paths from src to dest, all of one length (ShortestPathsSpec and ShortestPathsExist characterise the set exactly) |
| Topology.ShortestPathsSpec | SDN_controller.py:49 | a route is among the paths flow chooses from exactly when it is a minimum-hop path from src to dest |
| Topology.ShortestPathsExist | SDN_controller.py:49-51 | the set flow chooses from is non-empty exactly when dest is reachable from src |
| Topology.BackupCandidates | SDN_controller.py:59-60 | the list `candidate`: every member is a simple path from src to dest of at most 10 hops other than the chosen path (BackupCandidatesSpec adds that every such path is a member) |
| Topology.BackupCandidatesSpec | SDN_controller.py:59-60 | a route is a backup candidate exactly when it is a simple path from src to dest of at most 10 hops that differs from the chosen path |
| Control.Controller.SelectBackup | SDN_controller.py:56-65 | below high priority there is no backup; at high priority there is one exactly when some candidate exists, and it is a candidate with no more hops than any other candidate |
| FlowTable.Put | SDN_controller.py:70-72 | writing one entry sets exactly that (hop, destination) entry, creating the hop's row when it is missing, and leaves every other entry and row as it was |
| FlowTable.Install | SDN_controller.py:67-72 | the table after the write loop: no entry is removed, and every changed entry carries the flow's priority and backup (InstallHop, InstallFrame and InstallRows give the exact entries) |
| FlowTable.InstallPrefix | SDN_controller.py:67-72 | writing the first k+1 nodes of a route is writing the first k, then the entry from node k-1 to node k |
| FlowTable.InstallHop | SDN_controller.py:67-72 | after writing a route without repeated nodes, each hop's entry for dest names the next node of the route with the given priority and backup |
| FlowTable.InstallFrame | SDN_controller.py:67-72 | writing a route leaves every entry for another destination, and every entry at a node that is not a hop of the route, unchanged |
| FlowTable.InstallRows | SDN_controller.py:67-72 | writing a route adds rows for exactly the route's hops (every node but the last) |
| FlowTable.InstallRouted | SDN_controller.py:67-72 | writing a route without repeated nodes produces exactly one entry per consecutive pair and nothing else |
| FlowTable.InstallConsistent | SDN_controller.py:67-72 | writing a minimum-hop path into a table whose entries all forward along shortest routes keeps that true |
| FlowTable.InstallOnRoutes | SDN_controller.py:67-72 | writing a minimum-hop path changes only entries that then forward along a shortest route to their destination with the flow's priority and backup |
| FlowTable.SettledRoutable | SDN_controller.py:67-72 | such an entry never leads from a node to itself, and its destination is reachable from its node |
| FlowTable.OnRoutesFrame | SDN_controller.py:110-115 | a table changed only along shortest routes keeps every entry for a node itself or for an unreachable destination, changes entries only to the given priority and backup, and stays consistent if it was |
| FlowTable.InstallShortest | SDN_controller.py:46-75 | writing a minimum-hop path installs one entry per hop, sets the source's entry to the path's second node on a shortest route, changes only entries it settles on shortest routes, removes nothing, and keeps the table consistent |
| Control.Controller.WriteRoute | SDN_controller.py:67-72 | the loop leaves the table equal to `Install` of the old table along the path |
| Control.Controller.Flow | SDN_controller.py:46-75 | the topology is unchanged. When dest is unreachable, nothing is chosen and the table is unchanged. Otherwise the chosen path is a minimum-hop path, the backup is as SelectBackup states, and the table gains exactly one entry per hop pointing to the next node. The source's entry names the path's second node, every changed entry forwards along a shortest route with the flow's priority and backup, no entry is removed, and a consistent table stays consistent |
| FlowTable.Delete | SDN_controller.py:90 | removing a present entry makes it absent and keeps every other entry and every row |
| FlowTable.Discard | SDN_controller.py:90 | removing an entry when it is present (and nothing otherwise) leaves it absent and every other entry and row as before |
| Control.Controller.LinkFail | SDN_controller.py:87-97 | a missing link gives NoSuchLink and changes nothing. Otherwise the link is removed. A missing entry gives MissingEntry with the table untouched. Otherwise the entry is deleted, then either dest is unreachable (Unreachable) or a minimum-hop path is installed at normal priority without a backup (Rerouted), and src's new entry for dest names the route's second node |
| Control.Controller.LinkFailIfPresent | SDN_controller.py:87-97 | as LinkFail, except that the entry is deleted only when present, so MissingEntry never happens. Afterwards src has no entry for dest or an entry at normal priority following the new route |
| Control.Controller.InitialT | SDN_controller.py:110-115 | the topology is unchanged. Every node ends with an entry for every other node it can reach, at normal priority, without a backup, on a shortest route. Entries from a node to itself or towards an unreachable node are unchanged, every other changed entry is such a route entry, no entry is removed, and a consistent table stays consistent |
| Control.Controller.RouteFrom | SDN_controller.py:113-115 | the inner loop gives src a normal-priority, backup-free shortest-route entry for every other node it can reach, removes nothing and changes only entries it settles on shortest routes |
| FlowTable.ConsistentHasNoSelfEntry | SDN_controller.py:112-115 | a table that only forwards along shortest routes has no entry from a node to itself |
| Control.Controller.FixLink | SDN_controller.py:100-107 | an existing link changes nothing. Otherwise the link (and missing endpoints) is added, and the rebuilt table is consistent, complete and all at normal priority without backups |
| Topology.WithoutEdge | SDN_controller.py:89 | removing a link makes it absent and keeps every node and every other edge |
| Topology.WithoutNode | SDN_controller.py:196 | removing a node removes it and exactly the edges into or out of it, keeps every other node and edge, and keeps endpoints well formed |
| FlowTable.Purge | SDN_controller.py:198-207 | the purged table has the old rows minus the deleted node's own row, has no entry towards the deleted node, and keeps every other entry |
| FlowTable.SweptStep | SDN_controller.py:199-204 | visiting one more row in the first loop drops that row's entry for the deleted node, or skips the deleted node's own row |
| FlowTable.SweptAll | SDN_controller.py:199-207 | once every row is visited, dropping the collected row gives the purged table |
| Control.Controller.SweepRows | SDN_controller.py:198-204 | the first loop removes the deleted node as a destination from every other row, and collects the node's own row exactly when it has one |
| Control.Controller.DropRows | SDN_controller.py:206-207 | the second loop removes exactly the collected rows |
| Control.Controller.DeleteNode | SDN_controller.py:192-209 | deleting an absent node changes nothing. Otherwise the topology loses the node and its edges, and the flow table becomes the purge of the old one |
| Scenarios.StartRouteAToD | SDN_controller.py:119-129 | in the start topology the only minimum-hop path from A to D is A, B, D |
| Scenarios.StartFlowAToD | SDN_controller.py:119-129 | routing A to D in the start topology installs A→B and B→D at normal priority without a backup |
| Scenarios.SelfLoopFailure | SDN_controller.py:90 | creating the self-loop A→A and then failing it reaches the missing entry that makes line 90 raise |
| Scenarios.SelfLoopFailureIfPresent | SDN_controller.py:87-97 | the same steps with the corrected handling end with the trivial route [A] installed |

## Left out

- `graph_vis`, `print_flow` and every `print`. These are drawing and terminal output.
- The interactive menu (lines 137-219), which is terminal input. It calls `flow`, `link_fail` and `fix_link` only with two nodes it has checked are present. It runs the purge only for a present node and calls `add_node` only for an absent one. The start-up steps before it (lines 119-136: building nodes A to D, their links, and the call to `initialT`) are covered by `Scenarios` and `Control.Controller.InitialT`.
- The graph library's internals and its enumeration order. Its queries are specified by the sets of routes they may return.
- The pseudo-random generator behind `random.choice`. Any minimum-hop path may be chosen.
- Priorities other than low, normal and high. The menu coerces anything else to normal; `Priority` has these three values.
- `NodeNotFound` from the graph library (`flow` with an absent source, `shortest_path` with an absent endpoint) is not caught by the source and would end the program. It is modelled as a precondition, which the menu always meets.
- Termination of the program on the `KeyError` at line 90 is not modelled. `LinkFail` returns `MissingEntry` with the link already removed.
- Entries that route through a failed link or a deleted node under other destinations are left stale, as in the source. Consistency of the table is therefore not claimed after `LinkFail` or `DeleteNode`.
- Control.Controller.ShortestPath: returns some minimum-hop path rather than the particular one the graph library's breadth-first search returns first.
- Control.Controller.SelectBackup: returns some candidate of minimum length rather than the first such candidate in the library's enumeration order.
- Control.Controller.InitialT: states which entries the rebuilt table has and that each follows a shortest route, but not which of the equally short routes each pair ends up with. That depends on the node order and the random choices.

## Findings

| source | as written | input that shows it | evidently intended | confidence | as-written member | corrected member |
|---|---|---|---|---|---|---|
| SDN_controller.py:90 | `link_fail` deletes `flow_table[src][dest]` unconditionally | with node A present, `fix_link("A", "A")` then `link_fail("A", "A")` (menu options 4 and 3 with A as both endpoints). `initialT` never writes an entry from a node to itself, so the delete raises `KeyError` and the program stops | delete the entry only if present and then reroute, so that failing a link that has no entry neither stops the controller nor skips the reroute | medium; not executed | Scenarios.SelfLoopFailure | Control.Controller.LinkFailIfPresent |
