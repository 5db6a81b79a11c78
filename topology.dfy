/**
 * The network topology: a directed graph of string node ids, and the path
 * queries the controller asks of it (all simple paths, minimum-hop paths).
 * The graph library's traversal order is not modelled: queries are given by
 * the set of routes they may return.
 */
module Topology {

  type Node = string
  type Edge = (Node, Node)
  /** A route lists the nodes it visits, source first. */
  type Route = seq<Node>

  /** Largest number of hops an alternate (backup) route may have. */
  const BackupCutoff: nat := 10

  datatype Graph = Graph(nodes: set<Node>, edges: set<Edge>)

  /** Every edge joins two nodes of the graph. */
  predicate WellFormed(g: Graph) {
    forall e | e in g.edges :: e.0 in g.nodes && e.1 in g.nodes
  }

  // ---------------------------------------------------------------------
  // Topology updates

  /** Inserting a node; an existing node is left as it is. */
  function WithNode(g: Graph, n: Node): (r: Graph)
    ensures n in r.nodes && r.edges == g.edges
    ensures forall m | m != n :: m in r.nodes <==> m in g.nodes
    ensures WellFormed(g) ==> WellFormed(r)
    ensures n in g.nodes ==> r == g
  {
    g.(nodes := g.nodes + {n})
  }

  /** Inserting a directed edge, together with any endpoint not yet present. */
  function WithEdge(g: Graph, src: Node, dest: Node): (r: Graph)
    ensures (src, dest) in r.edges && src in r.nodes && dest in r.nodes
    ensures forall e | e != (src, dest) :: e in r.edges <==> e in g.edges
    ensures forall m | m != src && m != dest :: m in r.nodes <==> m in g.nodes
    ensures WellFormed(g) ==> WellFormed(r)
    ensures WellFormed(g) && (src, dest) in g.edges ==> r == g
  {
    Graph(g.nodes + {src, dest}, g.edges + {(src, dest)})
  }

  /** Removing one directed edge; the nodes stay. */
  function WithoutEdge(g: Graph, src: Node, dest: Node): (r: Graph)
    ensures (src, dest) !in r.edges && r.nodes == g.nodes
    ensures forall e | e != (src, dest) :: e in r.edges <==> e in g.edges
    ensures WellFormed(g) ==> WellFormed(r)
  {
    g.(edges := g.edges - {(src, dest)})
  }

  /** Removing a node together with every edge into or out of it. */
  function WithoutNode(g: Graph, n: Node): (r: Graph)
    ensures n !in r.nodes
    ensures forall m | m != n :: m in r.nodes <==> m in g.nodes
    ensures forall e | e in r.edges :: e.0 != n && e.1 != n
    ensures forall e: Edge | e.0 != n && e.1 != n :: e in r.edges <==> e in g.edges
    ensures WellFormed(g) ==> WellFormed(r)
  {
    Graph(g.nodes - {n}, set e | e in g.edges && e.0 != n && e.1 != n)
  }

  // ---------------------------------------------------------------------
  // Walks, paths and their lengths

  /** p is non-empty, visits only nodes of g and follows edges of g. */
  predicate IsWalk(g: Graph, p: Route) {
    && |p| >= 1
    && (forall i | 0 <= i < |p| :: p[i] in g.nodes)
    && (forall i | 0 <= i < |p| - 1 :: (p[i], p[i + 1]) in g.edges)
  }

  predicate IsPath(g: Graph, p: Route, src: Node, dest: Node) {
    IsWalk(g, p) && p[0] == src && p[|p| - 1] == dest
  }

  /** No node occurs twice. */
  predicate Distinct(p: Route) {
    forall i, j | 0 <= i < j < |p| :: p[i] != p[j]
  }

  predicate IsSimplePath(g: Graph, p: Route, src: Node, dest: Node) {
    IsPath(g, p, src, dest) && Distinct(p)
  }

  /** p is a path from src to dest and no path between them has fewer hops. */
  ghost predicate IsShortestPath(g: Graph, p: Route, src: Node, dest: Node) {
    IsPath(g, p, src, dest) && forall q | IsPath(g, q, src, dest) :: |p| <= |q|
  }

  ghost predicate Reachable(g: Graph, src: Node, dest: Node) {
    exists p :: IsPath(g, p, src, dest)
  }

  /** A candidate alternate route: simple, at most BackupCutoff hops, not the primary. */
  ghost predicate IsBackupCandidate(g: Graph, src: Node, dest: Node, primary: Route, q: Route) {
    IsSimplePath(g, q, src, dest) && |q| - 1 <= BackupCutoff && q != primary
  }

  function Elems(p: Route): set<Node> {
    set x | x in p
  }

  lemma ElemsSnoc(p: Route)
    ensures forall x :: Elems(p + [x]) == Elems(p) + {x}
  {
    forall x ensures Elems(p + [x]) == Elems(p) + {x} {
      assert forall y :: y in p + [x] <==> y in p || y == x;
    }
  }

  /** Joining a path a..b with a path b..c at b gives a path a..c. */
  lemma Join(g: Graph, p: Route, q: Route, a: Node, b: Node, c: Node)
    requires IsPath(g, p, a, b) && IsPath(g, q, b, c)
    ensures IsPath(g, p[..|p| - 1] + q, a, c)
    ensures |p[..|p| - 1] + q| == |p| + |q| - 1
  {
    var w := p[..|p| - 1] + q;
    forall i | 0 <= i < |w| - 1 ensures (w[i], w[i + 1]) in g.edges {
      if i < |p| - 2 {
        assert w[i] == p[i] && w[i + 1] == p[i + 1];
      } else if i == |p| - 2 {
        assert w[i] == p[i] && w[i + 1] == q[0] == p[i + 1];
      } else {
        assert w[i] == q[i - |p| + 1] && w[i + 1] == q[i - |p| + 2];
      }
    }
  }

  /**
   * Every path can be shortened to a simple path with no more hops, and to a
   * strictly shorter one when it repeats a node.
   */
  lemma {:induction false} Shortcut(g: Graph, p: Route, src: Node, dest: Node) returns (q: Route)
    requires IsPath(g, p, src, dest)
    ensures IsSimplePath(g, q, src, dest) && |q| <= |p|
    ensures !Distinct(p) ==> |q| < |p|
    decreases |p|
  {
    if Distinct(p) {
      q := p;
    } else {
      var i, j :| 0 <= i < j < |p| && p[i] == p[j];
      var front := p[..i + 1];
      var back := p[j..];
      assert IsPath(g, front, src, p[i]);
      assert IsPath(g, back, p[i], dest);
      Join(g, front, back, src, p[i], dest);
      assert front[..|front| - 1] == p[..i];
      q := Shortcut(g, p[..i] + back, src, dest);
    }
  }

  /** Every suffix of a shortest path is a shortest path from where it starts. */
  lemma SuffixShortest(g: Graph, p: Route, src: Node, dest: Node, i: nat)
    requires IsShortestPath(g, p, src, dest) && i < |p|
    ensures IsShortestPath(g, p[i..], p[i], dest)
  {
    assert IsPath(g, p[i..], p[i], dest);
    forall q | IsPath(g, q, p[i], dest) ensures |p[i..]| <= |q| {
      var front := p[..i + 1];
      assert IsPath(g, front, src, p[i]);
      Join(g, front, q, src, p[i], dest);
    }
  }

  /** A shortest path never repeats a node. */
  lemma ShortestIsSimple(g: Graph, p: Route, src: Node, dest: Node)
    requires IsShortestPath(g, p, src, dest)
    ensures Distinct(p)
  {
    if !Distinct(p) {
      var q := Shortcut(g, p, src, dest);
      assert false;
    }
  }

  // ---------------------------------------------------------------------
  // Enumerating simple paths

  /** All simple walks of g that begin with the simple walk p. */
  function Extensions(g: Graph, p: Route): (r: set<Route>)
    requires WellFormed(g) && IsWalk(g, p) && Distinct(p)
    ensures p in r
    ensures forall q | q in r :: IsWalk(g, q) && Distinct(q) && p <= q
    decreases g.nodes - Elems(p)
  {
    ElemsSnoc(p);
    var last := p[|p| - 1];
    {p} + (set e, q | e in g.edges && e.0 == last && e.1 !in p && q in Extensions(g, p + [e.1]) :: q)
  }

  lemma {:induction false} ExtensionsComplete(g: Graph, p: Route, q: Route)
    requires WellFormed(g) && IsWalk(g, p) && Distinct(p)
    requires IsWalk(g, q) && Distinct(q) && p <= q
    ensures q in Extensions(g, p)
    decreases |q| - |p|
  {
    if |q| > |p| {
      var x := q[|p|];
      var e := (p[|p| - 1], x);
      assert q[|p| - 1] == p[|p| - 1];
      assert e in g.edges;
      assert x !in p by {
        forall k | 0 <= k < |p| ensures p[k] != x {
          assert p[k] == q[k];
        }
      }
      assert p + [x] <= q;
      ExtensionsComplete(g, p + [x], q);
      assert e.0 == p[|p| - 1] && e.1 !in p && q in Extensions(g, p + [e.1]);
    } else {
      assert q == p;
    }
  }

  /** The simple paths from src to dest (all_simple_paths without a cutoff). */
  function SimplePaths(g: Graph, src: Node, dest: Node): (r: set<Route>)
    requires WellFormed(g) && src in g.nodes
    ensures forall q | q in r :: IsSimplePath(g, q, src, dest)
  {
    set q | q in Extensions(g, [src]) && q[|q| - 1] == dest
  }

  lemma SimplePathsComplete(g: Graph, src: Node, dest: Node, q: Route)
    requires WellFormed(g) && IsSimplePath(g, q, src, dest)
    ensures src in g.nodes && q in SimplePaths(g, src, dest)
  {
    assert [src] <= q;
    ExtensionsComplete(g, [src], q);
  }

  /** The members of s with the fewest nodes. */
  function Shortest(s: set<Route>): (r: set<Route>)
    ensures r <= s
    ensures forall p, q | p in r && q in s :: |p| <= |q|
    ensures forall p | p in s && (forall q | q in s :: |p| <= |q|) :: p in r
  {
    set p | p in s && forall q | q in s :: |p| <= |q|
  }

  lemma {:induction false} ShortestExists(s: set<Route>)
    requires s != {}
    ensures Shortest(s) != {}
    decreases s
  {
    var x :| x in s;
    var rest := s - {x};
    if rest == {} {
      assert s == {x};
      assert forall q | q in s :: |x| <= |q|;
      assert x in Shortest(s);
    } else {
      ShortestExists(rest);
      var y :| y in Shortest(rest);
      if |x| <= |y| {
        assert forall q | q in s :: |x| <= |q|;
        assert x in Shortest(s);
      } else {
        assert forall q | q in s :: |y| <= |q|;
        assert y in Shortest(s);
      }
    }
  }

  /** The candidates for an alternate route (all_simple_paths with a cutoff, minus primary). */
  function BackupCandidates(g: Graph, src: Node, dest: Node, primary: Route): (r: set<Route>)
    requires WellFormed(g) && src in g.nodes
    ensures forall q | q in r :: IsBackupCandidate(g, src, dest, primary, q)
  {
    set q | q in SimplePaths(g, src, dest) && |q| - 1 <= BackupCutoff && q != primary
  }

  lemma BackupCandidatesSpec(g: Graph, src: Node, dest: Node, primary: Route)
    requires WellFormed(g) && src in g.nodes
    ensures forall q :: q in BackupCandidates(g, src, dest, primary) <==> IsBackupCandidate(g, src, dest, primary, q)
  {
    forall q | IsBackupCandidate(g, src, dest, primary, q)
      ensures q in BackupCandidates(g, src, dest, primary)
    {
      SimplePathsComplete(g, src, dest, q);
    }
  }

  /** The minimum-hop paths from src to dest (all_shortest_paths). */
  function ShortestPaths(g: Graph, src: Node, dest: Node): (r: set<Route>)
    requires WellFormed(g) && src in g.nodes
    ensures forall p | p in r :: IsSimplePath(g, p, src, dest)
    ensures forall p, q | p in r && q in r :: |p| == |q|
  {
    Shortest(SimplePaths(g, src, dest))
  }

  lemma ShortestPathsSpec(g: Graph, src: Node, dest: Node, p: Route)
    requires WellFormed(g) && src in g.nodes
    ensures p in ShortestPaths(g, src, dest) <==> IsShortestPath(g, p, src, dest)
  {
    if p in ShortestPaths(g, src, dest) {
      forall q | IsPath(g, q, src, dest) ensures |p| <= |q| {
        var q' := Shortcut(g, q, src, dest);
        SimplePathsComplete(g, src, dest, q');
      }
    }
    if IsShortestPath(g, p, src, dest) {
      ShortestIsSimple(g, p, src, dest);
      SimplePathsComplete(g, src, dest, p);
    }
  }

  lemma ShortestPathsExist(g: Graph, src: Node, dest: Node)
    requires WellFormed(g) && src in g.nodes
    ensures ShortestPaths(g, src, dest) != {} <==> Reachable(g, src, dest)
  {
    if Reachable(g, src, dest) {
      var p :| IsPath(g, p, src, dest);
      var q := Shortcut(g, p, src, dest);
      SimplePathsComplete(g, src, dest, q);
      ShortestExists(SimplePaths(g, src, dest));
    }
    if ShortestPaths(g, src, dest) != {} {
      var p :| p in ShortestPaths(g, src, dest);
      assert IsPath(g, p, src, dest);
    }
  }
}
