/**
 * The flow table: current hop -> destination -> (next hop, priority, backup
 * route), and the table updates the controller performs.
 */
module FlowTable {
  import opened Wrappers
  import opened Topology

  datatype Priority = Low | Normal | High

  /** What a node does with traffic bound for one destination. */
  datatype Entry = Entry(nextHop: Node, priority: Priority, backup: Option<Route>)

  type Table = map<Node, map<Node, Entry>>

  /** The entry of row hop for destination dest, if both are present. */
  function Lookup(ft: Table, hop: Node, dest: Node): Option<Entry> {
    if hop in ft && dest in ft[hop] then Some(ft[hop][dest]) else None
  }

  /** Writing one entry, creating the row when it is missing. */
  function Put(ft: Table, hop: Node, dest: Node, e: Entry): (r: Table)
    ensures Lookup(r, hop, dest) == Some(e)
    ensures forall a, d | a != hop || d != dest :: Lookup(r, a, d) == Lookup(ft, a, d)
    ensures r.Keys == ft.Keys + {hop}
  {
    ft[hop := (if hop in ft then ft[hop] else map[])[dest := e]]
  }

  /**
   * The table after writing, for each consecutive pair (a, b) of path, the
   * entry (b, priority, backup) at row a and destination dest, in path order.
   */
  function Install(ft: Table, path: Route, dest: Node, priority: Priority, backup: Option<Route>): (r: Table)
    ensures Grows(ft, r) && ChangedOnlyTo(ft, r, priority, backup)
    decreases |path|
  {
    if |path| < 2 then ft
    else
      var n := |path|;
      Put(Install(ft, path[..n - 1], dest, priority, backup), path[n - 2], dest, Entry(path[n - 1], priority, backup))
  }

  /** Installing the first k + 1 nodes of path is installing the first k, then one Put. */
  lemma InstallPrefix(ft: Table, path: Route, k: nat, dest: Node, priority: Priority, backup: Option<Route>)
    requires 1 <= k < |path|
    ensures Install(ft, path[..k + 1], dest, priority, backup)
         == Put(Install(ft, path[..k], dest, priority, backup), path[k - 1], dest, Entry(path[k], priority, backup))
  {
    assert path[..k + 1][..k] == path[..k];
  }

  /** On a route without repeated nodes, every hop points to its successor. */
  lemma {:induction false} InstallHop(ft: Table, path: Route, dest: Node, priority: Priority, backup: Option<Route>, i: nat)
    requires Distinct(path) && i < |path| - 1
    ensures Lookup(Install(ft, path, dest, priority, backup), path[i], dest) == Some(Entry(path[i + 1], priority, backup))
    decreases |path|
  {
    var n := |path|;
    if i < n - 2 {
      var front := path[..n - 1];
      assert front[i] == path[i] && front[i + 1] == path[i + 1];
      InstallHop(ft, front, dest, priority, backup, i);
      assert path[i] != path[n - 2];
    }
  }

  /** Entries for other destinations, or at nodes that are not a hop of path, are untouched. */
  lemma {:induction false} InstallFrame(ft: Table, path: Route, dest: Node, priority: Priority, backup: Option<Route>, a: Node, d: Node)
    requires |path| >= 1
    requires d != dest || a !in path[..|path| - 1]
    ensures Lookup(Install(ft, path, dest, priority, backup), a, d) == Lookup(ft, a, d)
    decreases |path|
  {
    var n := |path|;
    if n >= 2 {
      var front := path[..n - 1];
      assert front[..|front| - 1] == path[..n - 2];
      assert path[n - 2] in path[..n - 1];
      InstallFrame(ft, front, dest, priority, backup, a, d);
    }
  }

  /** Rows are created exactly for the hops of path. */
  lemma {:induction false} InstallRows(ft: Table, path: Route, dest: Node, priority: Priority, backup: Option<Route>)
    requires |path| >= 1
    ensures Install(ft, path, dest, priority, backup).Keys == ft.Keys + Elems(path[..|path| - 1])
    decreases |path|
  {
    var n := |path|;
    if n >= 2 {
      var front := path[..n - 1];
      assert front[..|front| - 1] == path[..n - 2];
      InstallRows(ft, front, dest, priority, backup);
      assert path[..n - 1] == path[..n - 2] + [path[n - 2]];
      ElemsSnoc(path[..n - 2]);
    } else {
      assert path[..n - 1] == [];
    }
  }

  /**
   * ft1 is ft0 with path installed towards dest: each hop of path points to
   * its successor, every other entry is as before, and rows were added
   * exactly for the hops.
   */
  ghost predicate Routed(ft0: Table, ft1: Table, path: Route, dest: Node, priority: Priority, backup: Option<Route>) {
    && |path| >= 1
    && (forall i | 0 <= i < |path| - 1 :: Lookup(ft1, path[i], dest) == Some(Entry(path[i + 1], priority, backup)))
    && (forall a, d | d != dest || a !in path[..|path| - 1] :: Lookup(ft1, a, d) == Lookup(ft0, a, d))
    && ft1.Keys == ft0.Keys + Elems(path[..|path| - 1])
  }

  lemma InstallRouted(ft: Table, path: Route, dest: Node, priority: Priority, backup: Option<Route>)
    requires |path| >= 1 && Distinct(path)
    ensures Routed(ft, Install(ft, path, dest, priority, backup), path, dest, priority, backup)
  {
    var ft' := Install(ft, path, dest, priority, backup);
    forall i | 0 <= i < |path| - 1
      ensures Lookup(ft', path[i], dest) == Some(Entry(path[i + 1], priority, backup))
    {
      InstallHop(ft, path, dest, priority, backup, i);
    }
    forall a, d | d != dest || a !in path[..|path| - 1]
      ensures Lookup(ft', a, d) == Lookup(ft, a, d)
    {
      InstallFrame(ft, path, dest, priority, backup, a, d);
    }
    InstallRows(ft, path, dest, priority, backup);
  }

  // ---------------------------------------------------------------------
  // Removals

  /** Removing one entry; its row stays, possibly empty. */
  function Delete(ft: Table, hop: Node, dest: Node): (r: Table)
    requires Lookup(ft, hop, dest).Some?
    ensures Lookup(r, hop, dest) == None
    ensures forall a, d | a != hop || d != dest :: Lookup(r, a, d) == Lookup(ft, a, d)
    ensures r.Keys == ft.Keys
  {
    ft[hop := ft[hop] - {dest}]
  }

  /** Removing one entry when it is present; otherwise nothing changes. */
  function Discard(ft: Table, hop: Node, dest: Node): (r: Table)
    ensures Lookup(r, hop, dest) == None
    ensures forall a, d | a != hop || d != dest :: Lookup(r, a, d) == Lookup(ft, a, d)
    ensures r.Keys == ft.Keys
  {
    if Lookup(ft, hop, dest).Some? then Delete(ft, hop, dest) else ft
  }

  /** Removing node n both as a row and as a destination in every other row. */
  function Purge(ft: Table, n: Node): (r: Table)
    ensures r.Keys == ft.Keys - {n}
    ensures forall a | a in r :: n !in r[a]
    ensures forall a, d | a != n && d != n :: Lookup(r, a, d) == Lookup(ft, a, d)
  {
    map a | a in ft && a != n :: ft[a] - {n}
  }

  /** The table once every row in `swept`, other than row n, has lost destination n. */
  function Swept(ft: Table, n: Node, swept: set<Node>): Table {
    map a | a in ft :: if a in swept && a != n then ft[a] - {n} else ft[a]
  }

  lemma SweptStep(ft: Table, n: Node, swept: set<Node>, a: Node)
    requires a in ft && a !in swept
    ensures Swept(ft, n, swept + {a}) == if a == n then Swept(ft, n, swept) else Swept(ft, n, swept)[a := ft[a] - {n}]
  {
  }

  lemma SweptAll(ft: Table, n: Node)
    ensures Swept(ft, n, ft.Keys) - {n} == Purge(ft, n)
    ensures n !in ft ==> Swept(ft, n, ft.Keys) == Purge(ft, n)
  {
  }

  // ---------------------------------------------------------------------
  // Relations between tables and the topology

  /** next is the second node of some shortest path from hop to dest. */
  ghost predicate OnShortestRoute(g: Graph, hop: Node, dest: Node, next: Node) {
    exists p :: IsShortestPath(g, p, hop, dest) && |p| >= 2 && p[1] == next
  }

  /** Every entry forwards along a shortest route to its destination. */
  ghost predicate Consistent(g: Graph, ft: Table) {
    forall a, d | Lookup(ft, a, d).Some? :: OnShortestRoute(g, a, d, Lookup(ft, a, d).value.nextHop)
  }

  /** Every hop in hops has an entry for every other node it can reach. */
  ghost predicate CompleteFrom(g: Graph, ft: Table, hops: set<Node>) {
    forall a, d | a in hops && d in g.nodes && a != d && Reachable(g, a, d) :: Lookup(ft, a, d).Some?
  }

  ghost predicate Complete(g: Graph, ft: Table) {
    CompleteFrom(g, ft, g.nodes)
  }

  /** No entry of ft0 is missing from ft1. */
  ghost predicate Grows(ft0: Table, ft1: Table) {
    forall a, d | Lookup(ft0, a, d).Some? :: Lookup(ft1, a, d).Some?
  }

  /** Every entry of ft1 is the one of ft0 or carries the given priority and backup. */
  ghost predicate ChangedOnlyTo(ft0: Table, ft1: Table, priority: Priority, backup: Option<Route>) {
    forall a, d :: Lookup(ft1, a, d) == Lookup(ft0, a, d) ||
      (Lookup(ft1, a, d).Some? && Lookup(ft1, a, d).value.priority == priority && Lookup(ft1, a, d).value.backup == backup)
  }

  /** Every entry of ft carries the given priority and backup. */
  ghost predicate Uniform(ft: Table, priority: Priority, backup: Option<Route>) {
    forall a, d | Lookup(ft, a, d).Some? :: Lookup(ft, a, d).value.priority == priority && Lookup(ft, a, d).value.backup == backup
  }

  /**
   * The entry of a for d is present, carries the given priority and backup,
   * and forwards along a shortest route from a to d.
   */
  ghost predicate Settled(g: Graph, ft: Table, a: Node, d: Node, priority: Priority, backup: Option<Route>) {
    && Lookup(ft, a, d).Some?
    && Lookup(ft, a, d).value.priority == priority
    && Lookup(ft, a, d).value.backup == backup
    && OnShortestRoute(g, a, d, Lookup(ft, a, d).value.nextHop)
  }

  /** Every entry in which ft1 differs from ft0 is settled with the given priority and backup. */
  ghost predicate ChangedOnlyOnRoutes(g: Graph, ft0: Table, ft1: Table, priority: Priority, backup: Option<Route>) {
    forall a, d | Lookup(ft1, a, d) != Lookup(ft0, a, d) :: Settled(g, ft1, a, d, priority, backup)
  }

  /** Writing a shortest path changes only entries it settles on a shortest route. */
  lemma InstallOnRoutes(g: Graph, ft: Table, path: Route, src: Node, dest: Node, priority: Priority, backup: Option<Route>)
    requires IsShortestPath(g, path, src, dest)
    ensures ChangedOnlyOnRoutes(g, ft, Install(ft, path, dest, priority, backup), priority, backup)
  {
    var ft' := Install(ft, path, dest, priority, backup);
    ShortestIsSimple(g, path, src, dest);
    forall a, d | Lookup(ft', a, d) != Lookup(ft, a, d) ensures Settled(g, ft', a, d, priority, backup) {
      if d == dest && a in path[..|path| - 1] {
        var i :| 0 <= i < |path| - 1 && path[i] == a;
        InstallHop(ft, path, dest, priority, backup, i);
        SuffixShortest(g, path, src, dest, i);
        assert path[i..][1] == path[i + 1];
      } else {
        InstallFrame(ft, path, dest, priority, backup, a, d);
      }
    }
  }

  /** A settled entry never leads from a node to itself, nor towards an unreachable node. */
  lemma SettledRoutable(g: Graph, ft: Table, a: Node, d: Node, priority: Priority, backup: Option<Route>)
    requires Settled(g, ft, a, d, priority, backup)
    ensures a != d && Reachable(g, a, d)
  {
    var p :| IsShortestPath(g, p, a, d) && |p| >= 2 && p[1] == Lookup(ft, a, d).value.nextHop;
    assert IsPath(g, p[..1], a, a);
  }

  /**
   * What changing only entries on shortest routes implies: nothing is changed
   * for a node itself or an unreachable destination, changed entries carry
   * the given priority and backup, and consistency is kept.
   */
  lemma OnRoutesFrame(g: Graph, ft0: Table, ft1: Table, priority: Priority, backup: Option<Route>)
    requires ChangedOnlyOnRoutes(g, ft0, ft1, priority, backup)
    ensures forall a, d | a == d || !Reachable(g, a, d) :: Lookup(ft1, a, d) == Lookup(ft0, a, d)
    ensures ChangedOnlyTo(ft0, ft1, priority, backup)
    ensures Consistent(g, ft0) ==> Consistent(g, ft1)
  {
    forall a, d | a == d || !Reachable(g, a, d) ensures Lookup(ft1, a, d) == Lookup(ft0, a, d) {
      if Lookup(ft1, a, d) != Lookup(ft0, a, d) {
        SettledRoutable(g, ft1, a, d, priority, backup);
      }
    }
  }

  /** Writing a shortest path keeps every entry on a shortest route. */
  lemma InstallConsistent(g: Graph, ft: Table, path: Route, src: Node, dest: Node, priority: Priority, backup: Option<Route>)
    requires IsShortestPath(g, path, src, dest) && Consistent(g, ft)
    ensures Consistent(g, Install(ft, path, dest, priority, backup))
  {
    InstallOnRoutes(g, ft, path, src, dest, priority, backup);
    OnRoutesFrame(g, ft, Install(ft, path, dest, priority, backup), priority, backup);
  }

  /** The alternate route Flow attaches for the given priority. */
  ghost predicate IsBackupChoice(g: Graph, src: Node, dest: Node, primary: Route, priority: Priority, b: Option<Route>) {
    && (priority != High ==> b == None)
    && (priority == High ==> (b.Some? <==> exists q :: IsBackupCandidate(g, src, dest, primary, q)))
    && (b.Some? ==>
          && IsBackupCandidate(g, src, dest, primary, b.value)
          && forall q | IsBackupCandidate(g, src, dest, primary, q) :: |b.value| <= |q|)
  }

  /** What writing a shortest path into a table does to it. */
  lemma InstallShortest(g: Graph, ft: Table, path: Route, src: Node, dest: Node, priority: Priority, backup: Option<Route>)
    requires IsShortestPath(g, path, src, dest)
    ensures Routed(ft, Install(ft, path, dest, priority, backup), path, dest, priority, backup)
    ensures src != dest ==>
      |path| >= 2 && Lookup(Install(ft, path, dest, priority, backup), src, dest) == Some(Entry(path[1], priority, backup))
    ensures src != dest ==> Settled(g, Install(ft, path, dest, priority, backup), src, dest, priority, backup)
    ensures ChangedOnlyOnRoutes(g, ft, Install(ft, path, dest, priority, backup), priority, backup)
    ensures Grows(ft, Install(ft, path, dest, priority, backup))
    ensures ChangedOnlyTo(ft, Install(ft, path, dest, priority, backup), priority, backup)
    ensures Consistent(g, ft) ==> Consistent(g, Install(ft, path, dest, priority, backup))
  {
    ShortestIsSimple(g, path, src, dest);
    InstallRouted(ft, path, dest, priority, backup);
    if src != dest {
      InstallHop(ft, path, dest, priority, backup, 0);
    }
    InstallOnRoutes(g, ft, path, src, dest, priority, backup);
    OnRoutesFrame(g, ft, Install(ft, path, dest, priority, backup), priority, backup);
  }

  /** A consistent table has no entry from a node to itself. */
  lemma ConsistentHasNoSelfEntry(g: Graph, ft: Table, a: Node)
    requires Consistent(g, ft) && a in g.nodes
    ensures Lookup(ft, a, a) == None
  {
    assert IsPath(g, [a], a, a);
  }
}
