/**
 * The topology the controller starts with (nodes A to D) and verified
 * scenarios of the controller on fixed inputs.
 */
module Scenarios {
  import opened Wrappers
  import opened Topology
  import opened FlowTable
  import opened Control

  /** Nodes A, B, C, D with links A->B, A->C, B->C, B->D. */
  function StartTopology(): Graph {
    Graph({"A", "B", "C", "D"}, {("A", "B"), ("A", "C"), ("B", "C"), ("B", "D")})
  }

  /** In the start topology the only minimum-hop path from A to D is A, B, D. */
  lemma StartRouteAToD()
    ensures forall p :: IsShortestPath(StartTopology(), p, "A", "D") <==> p == ["A", "B", "D"]
  {
    var g := StartTopology();
    var abd := ["A", "B", "D"];
    assert IsPath(g, abd, "A", "D");
    forall q | IsPath(g, q, "A", "D") ensures |abd| <= |q| {
      assert (q[0], q[1]) in g.edges;
    }
    forall p | IsShortestPath(g, p, "A", "D") ensures p == abd {
      assert (p[0], p[1]) in g.edges && (p[1], p[2]) in g.edges;
    }
  }

  /** Building the start topology and routing A to D installs A->B and B->D. */
  method StartFlowAToD() returns (atA: Option<Entry>, atB: Option<Entry>)
    ensures atA == Some(Entry("B", Normal, None))
    ensures atB == Some(Entry("D", Normal, None))
  {
    var c := new Controller();
    c.AddNode("A");
    c.AddNode("B");
    c.AddNode("C");
    c.AddNode("D");
    c.AddEdge("A", "B");
    c.AddEdge("A", "C");
    c.AddEdge("B", "C");
    c.AddEdge("B", "D");
    assert c.graph == StartTopology();
    StartRouteAToD();
    assert IsShortestPath(c.graph, ["A", "B", "D"], "A", "D");
    var chosen, backup := c.Flow("A", "D", Normal);
    assert chosen == Some(["A", "B", "D"]);
    atA := Lookup(c.flowTable, "A", "D");
    atB := Lookup(c.flowTable, "B", "D");
  }

  /**
   * Creating the self-loop A->A and then failing it: the rebuilt table has no
   * entry from A to A, so LinkFail meets a missing entry.
   */
  method SelfLoopFailure() returns (outcome: FailOutcome)
    ensures outcome == MissingEntry
  {
    var c := new Controller();
    c.AddNode("A");
    var added := c.FixLink("A", "A");
    ConsistentHasNoSelfEntry(c.graph, c.flowTable, "A");
    outcome := c.LinkFail("A", "A");
  }

  /** The same steps with the corrected failure handling. */
  method SelfLoopFailureIfPresent() returns (outcome: FailOutcome)
    ensures outcome == Rerouted(["A"])
  {
    var c := new Controller();
    c.AddNode("A");
    var added := c.FixLink("A", "A");
    outcome := c.LinkFailIfPresent("A", "A");
    assert IsPath(c.graph, ["A"], "A", "A");
  }
}
