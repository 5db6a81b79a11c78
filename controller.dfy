/**
 * The SDN controller: a topology and a flow table that it keeps in place,
 * with the routing operations that read the topology and rewrite the table.
 */
module Control {
  import opened Wrappers
  import opened Topology
  import opened FlowTable

  /** How a link failure ended. */
  datatype FailOutcome =
    | NoSuchLink            // the link was not in the topology; nothing changed
    | MissingEntry          // the link was removed but the table had no entry to delete
    | Unreachable           // entry deleted; the destination can no longer be reached
    | Rerouted(route: Route)  // entry deleted and a new route installed

  class Controller {
    var graph: Graph
    var flowTable: Table

    ghost predicate Valid()
      reads this
    {
      WellFormed(graph)
    }

    /** An empty topology and an empty flow table. */
    constructor ()
      ensures Valid()
      ensures graph == Graph({}, {}) && flowTable == map[]
    {
      graph := Graph({}, {});
      flowTable := map[];
    }

    method AddNode(n: Node)
      requires Valid()
      modifies this
      ensures Valid()
      ensures graph == WithNode(old(graph), n) && flowTable == old(flowTable)
      ensures n in old(graph.nodes) ==> graph == old(graph)
    {
      graph := WithNode(graph, n);
    }

    method AddEdge(src: Node, dest: Node)
      requires Valid()
      modifies this
      ensures Valid()
      ensures graph == WithEdge(old(graph), src, dest) && flowTable == old(flowTable)
      ensures (src, dest) in old(graph.edges) ==> graph == old(graph)
    {
      graph := WithEdge(graph, src, dest);
    }

    /** One minimum-hop path from src to dest, or None when dest cannot be reached. */
    method ShortestPath(src: Node, dest: Node) returns (r: Option<Route>)
      requires Valid() && src in graph.nodes && dest in graph.nodes
      ensures r.None? <==> !Reachable(graph, src, dest)
      ensures r.Some? ==> IsShortestPath(graph, r.value, src, dest)
    {
      var paths := ShortestPaths(graph, src, dest);
      ShortestPathsExist(graph, src, dest);
      if paths == {} {
        return None;
      }
      var p :| p in paths;
      ShortestPathsSpec(graph, src, dest, p);
      return Some(p);
    }

    /**
     * The alternate route of a flow: for high priority, one of the shortest
     * simple paths of at most BackupCutoff hops other than primary.
     */
    method SelectBackup(src: Node, dest: Node, primary: Route, priority: Priority) returns (b: Option<Route>)
      requires Valid() && src in graph.nodes
      ensures priority != High ==> b == None
      ensures priority == High ==> (b.Some? <==> exists q :: IsBackupCandidate(graph, src, dest, primary, q))
      ensures b.Some? ==> IsBackupCandidate(graph, src, dest, primary, b.value)
      ensures b.Some? ==> forall q | IsBackupCandidate(graph, src, dest, primary, q) :: |b.value| <= |q|
    {
      if priority != High {
        return None;
      }
      var candidates := BackupCandidates(graph, src, dest, primary);
      BackupCandidatesSpec(graph, src, dest, primary);
      if candidates == {} {
        return None;
      }
      ShortestExists(candidates);
      var c :| c in Shortest(candidates);
      return Some(c);
    }

    /**
     * Installs a route from src to dest: one of the minimum-hop paths, with a
     * backup for high priority, written hop by hop into the table. When dest
     * cannot be reached nothing changes.
     */
    method Flow(src: Node, dest: Node, priority: Priority) returns (chosen: Option<Route>, backup: Option<Route>)
      requires Valid() && src in graph.nodes
      modifies this
      ensures Valid() && graph == old(graph)
      ensures chosen.None? <==> !Reachable(graph, src, dest)
      ensures chosen.None? ==> backup == None && flowTable == old(flowTable)
      ensures chosen.Some? ==> IsShortestPath(graph, chosen.value, src, dest)
      ensures chosen.Some? ==> IsBackupChoice(graph, src, dest, chosen.value, priority, backup)
      ensures priority != High ==> backup == None
      ensures chosen.Some? ==> flowTable == Install(old(flowTable), chosen.value, dest, priority, backup)
      ensures chosen.Some? ==> Routed(old(flowTable), flowTable, chosen.value, dest, priority, backup)
      ensures chosen.Some? && src != dest ==>
        |chosen.value| >= 2 && Lookup(flowTable, src, dest) == Some(Entry(chosen.value[1], priority, backup))
      ensures chosen.Some? && src != dest ==> Settled(graph, flowTable, src, dest, priority, backup)
      ensures ChangedOnlyOnRoutes(graph, old(flowTable), flowTable, priority, backup)
      ensures Grows(old(flowTable), flowTable) && ChangedOnlyTo(old(flowTable), flowTable, priority, backup)
      ensures Consistent(graph, old(flowTable)) ==> Consistent(graph, flowTable)
    {
      var paths := ShortestPaths(graph, src, dest);
      ShortestPathsExist(graph, src, dest);
      if paths == {} {
        return None, None;
      }
      var path :| path in paths;
      backup := SelectBackup(src, dest, path, priority);
      WriteRoute(path, dest, priority, backup);
      chosen := Some(path);
      ShortestPathsSpec(graph, src, dest, path);
      InstallShortest(graph, old(flowTable), path, src, dest, priority, backup);
    }

    /** Writes one entry per consecutive pair of path, each pointing at the next node. */
    method WriteRoute(path: Route, dest: Node, priority: Priority, backup: Option<Route>)
      requires |path| >= 1
      modifies this`flowTable
      ensures flowTable == Install(old(flowTable), path, dest, priority, backup)
    {
      var i := 0;
      while i < |path| - 1
        invariant 0 <= i <= |path| - 1
        invariant flowTable == Install(old(flowTable), path[..i + 1], dest, priority, backup)
      {
        var current, next := path[i], path[i + 1];
        InstallPrefix(old(flowTable), path, i + 1, dest, priority, backup);
        flowTable := Put(flowTable, current, dest, Entry(next, priority, backup));
        i := i + 1;
      }
      assert path[..i + 1] == path;
    }

    /**
     * Simulates the failure of link src -> dest: the link is removed, the
     * entry of src for dest is deleted and, when dest is still reachable, a
     * normal-priority route is installed again.
     */
    method LinkFail(src: Node, dest: Node) returns (outcome: FailOutcome)
      requires Valid()
      modifies this
      ensures Valid()
      ensures (src, dest) !in old(graph.edges) ==>
        outcome == NoSuchLink && graph == old(graph) && flowTable == old(flowTable)
      ensures (src, dest) in old(graph.edges) ==> graph == WithoutEdge(old(graph), src, dest)
      ensures (src, dest) in old(graph.edges) && Lookup(old(flowTable), src, dest).None? ==>
        outcome == MissingEntry && flowTable == old(flowTable)
      ensures (src, dest) in old(graph.edges) && Lookup(old(flowTable), src, dest).Some? ==>
        && (outcome.Unreachable? || outcome.Rerouted?)
        && (outcome.Unreachable? <==> !Reachable(graph, src, dest))
        && (outcome.Unreachable? ==> flowTable == Delete(old(flowTable), src, dest))
        && (outcome.Rerouted? ==>
              && IsShortestPath(graph, outcome.route, src, dest)
              && flowTable == Install(Delete(old(flowTable), src, dest), outcome.route, dest, Normal, None)
              && (src != dest ==>
                    |outcome.route| >= 2 && Lookup(flowTable, src, dest) == Some(Entry(outcome.route[1], Normal, None))))
    {
      if (src, dest) !in graph.edges {
        return NoSuchLink;
      }
      graph := WithoutEdge(graph, src, dest);
      if Lookup(flowTable, src, dest).None? {
        return MissingEntry;
      }
      flowTable := Delete(flowTable, src, dest);
      var route := ShortestPath(src, dest);
      if route.None? {
        return Unreachable;
      }
      var chosen, backup := Flow(src, dest, Normal);
      return Rerouted(chosen.value);
    }

    /**
     * LinkFail with the entry deleted only when it is present, so that a
     * link without an entry (a self-loop, say) is handled like any other.
     */
    method LinkFailIfPresent(src: Node, dest: Node) returns (outcome: FailOutcome)
      requires Valid()
      modifies this
      ensures Valid()
      ensures outcome != MissingEntry
      ensures (src, dest) !in old(graph.edges) ==>
        outcome == NoSuchLink && graph == old(graph) && flowTable == old(flowTable)
      ensures (src, dest) in old(graph.edges) ==>
        && graph == WithoutEdge(old(graph), src, dest)
        && (outcome.Unreachable? || outcome.Rerouted?)
        && (outcome.Unreachable? <==> !Reachable(graph, src, dest))
        && (outcome.Unreachable? ==> flowTable == Discard(old(flowTable), src, dest))
        && (outcome.Rerouted? ==>
              && IsShortestPath(graph, outcome.route, src, dest)
              && flowTable == Install(Discard(old(flowTable), src, dest), outcome.route, dest, Normal, None))
      ensures (src, dest) in old(graph.edges) ==>
        || Lookup(flowTable, src, dest) == None
        || (outcome.Rerouted? && |outcome.route| >= 2 &&
            Lookup(flowTable, src, dest) == Some(Entry(outcome.route[1], Normal, None)))
    {
      if (src, dest) !in graph.edges {
        return NoSuchLink;
      }
      graph := WithoutEdge(graph, src, dest);
      flowTable := Discard(flowTable, src, dest);
      var route := ShortestPath(src, dest);
      if route.None? {
        return Unreachable;
      }
      var chosen, backup := Flow(src, dest, Normal);
      return Rerouted(chosen.value);
    }

    /**
     * Runs Flow with normal priority for every ordered pair of distinct
     * nodes, in no particular order.
     */
    method InitialT()
      requires Valid()
      modifies this
      ensures Valid() && graph == old(graph)
      ensures forall a, d | a in graph.nodes && d in graph.nodes && a != d && Reachable(graph, a, d) ::
        Settled(graph, flowTable, a, d, Normal, None)
      ensures Complete(graph, flowTable)
      ensures forall a, d | a == d || !Reachable(graph, a, d) :: Lookup(flowTable, a, d) == Lookup(old(flowTable), a, d)
      ensures ChangedOnlyOnRoutes(graph, old(flowTable), flowTable, Normal, None)
      ensures Grows(old(flowTable), flowTable)
      ensures ChangedOnlyTo(old(flowTable), flowTable, Normal, None)
      ensures Consistent(graph, old(flowTable)) ==> Consistent(graph, flowTable)
    {
      var sources := graph.nodes;
      while sources != {}
        invariant Valid() && graph == old(graph)
        invariant sources <= graph.nodes
        invariant forall a, d | a in graph.nodes - sources && d in graph.nodes && a != d && Reachable(graph, a, d) ::
          Settled(graph, flowTable, a, d, Normal, None)
        invariant Grows(old(flowTable), flowTable)
        invariant ChangedOnlyOnRoutes(graph, old(flowTable), flowTable, Normal, None)
        decreases sources
      {
        var src :| src in sources;
        RouteFrom(src);
        sources := sources - {src};
      }
      OnRoutesFrame(graph, old(flowTable), flowTable, Normal, None);
    }

    /** The inner loop of InitialT: runs Flow from src to every other node. */
    method RouteFrom(src: Node)
      requires Valid() && src in graph.nodes
      modifies this
      ensures Valid() && graph == old(graph)
      ensures forall d | d in graph.nodes && d != src && Reachable(graph, src, d) ::
        Settled(graph, flowTable, src, d, Normal, None)
      ensures Grows(old(flowTable), flowTable)
      ensures ChangedOnlyOnRoutes(graph, old(flowTable), flowTable, Normal, None)
    {
      var dests := graph.nodes;
      while dests != {}
        invariant Valid() && graph == old(graph)
        invariant dests <= graph.nodes
        invariant forall d | d in graph.nodes - dests && d != src && Reachable(graph, src, d) ::
          Settled(graph, flowTable, src, d, Normal, None)
        invariant Grows(old(flowTable), flowTable)
        invariant ChangedOnlyOnRoutes(graph, old(flowTable), flowTable, Normal, None)
        decreases dests
      {
        var dest :| dest in dests;
        if src != dest {
          var chosen, backup := Flow(src, dest, Normal);
        }
        dests := dests - {dest};
      }
    }

    /**
     * Restores (or creates) link src -> dest. An existing link changes
     * nothing; otherwise the table is rebuilt from scratch by InitialT.
     */
    method FixLink(src: Node, dest: Node) returns (added: bool)
      requires Valid()
      modifies this
      ensures Valid()
      ensures added <==> (src, dest) !in old(graph.edges)
      ensures !added ==> graph == old(graph) && flowTable == old(flowTable)
      ensures added ==> graph == WithEdge(old(graph), src, dest)
      ensures added ==> Consistent(graph, flowTable) && Complete(graph, flowTable)
      ensures added ==> Uniform(flowTable, Normal, None)
    {
      if (src, dest) in graph.edges {
        return false;
      }
      graph := WithEdge(graph, src, dest);
      flowTable := map[];
      InitialT();
      return true;
    }

    /**
     * Deletes node n from the topology and purges it from the flow table,
     * both as a row and as a destination in every other row.
     */
    method DeleteNode(n: Node) returns (existed: bool)
      requires Valid()
      modifies this
      ensures Valid()
      ensures existed <==> n in old(graph.nodes)
      ensures !existed ==> graph == old(graph) && flowTable == old(flowTable)
      ensures existed ==> graph == WithoutNode(old(graph), n) && flowTable == Purge(old(flowTable), n)
    {
      if n !in graph.nodes {
        return false;
      }
      graph := WithoutNode(graph, n);
      var toDelete := SweepRows(n);
      DropRows(toDelete);
      SweptAll(old(flowTable), n);
      return true;
    }

    /** The first pass of the purge: drops every entry whose destination is
        n from every row but n's own, and collects n when it has a row. */
    method SweepRows(n: Node) returns (toDelete: seq<Node>)
      modifies this`flowTable
      ensures flowTable == Swept(old(flowTable), n, old(flowTable).Keys)
      ensures Elems(toDelete) == if n in old(flowTable) then {n} else {}
    {
      ghost var ft0 := flowTable;
      toDelete := [];
      var pending := flowTable.Keys;
      while pending != {}
        invariant pending <= ft0.Keys
        invariant toDelete == if n in ft0 && n !in pending then [n] else []
        invariant flowTable == Swept(ft0, n, ft0.Keys - pending)
        decreases pending
      {
        var src :| src in pending;
        SweptStep(ft0, n, ft0.Keys - pending, src);
        assert ft0.Keys - pending + {src} == ft0.Keys - (pending - {src});
        if src == n {
          toDelete := toDelete + [src];
        } else if n in flowTable[src] {
          flowTable := flowTable[src := flowTable[src] - {n}];
        } else {
          assert flowTable[src] - {n} == flowTable[src];
        }
        pending := pending - {src};
      }
      assert Elems([n]) == {n};
    }

    /** The second pass of the purge: removes the collected rows. */
    method DropRows(toDelete: seq<Node>)
      modifies this`flowTable
      ensures flowTable == old(flowTable) - Elems(toDelete)
    {
      for i := 0 to |toDelete|
        invariant flowTable == old(flowTable) - Elems(toDelete[..i])
      {
        flowTable := flowTable - {toDelete[i]};
        assert toDelete[..i + 1] == toDelete[..i] + [toDelete[i]];
        ElemsSnoc(toDelete[..i]);
      }
      assert toDelete[..|toDelete|] == toDelete;
    }
  }
}
