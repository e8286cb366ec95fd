/** The four-airport example: routes A->B (100), B->D (100), A->C (50) and
    C->D (40), added in that order. Breadth-first search reports A, B, D at
    200 because its sorted neighbour set puts B before C; Dijkstra reports
    A, C, D at 90. */
module Scenario {
  import opened StringOrder
  import opened GraphSpec
  import opened FlightGraph

  const CARRIER := "XX"

  /** The adjacency store after the four addEdge calls, origin by origin. */
  ghost predicate ExampleStore(adj: Adjacency)
  {
    RoutesOf(adj, "A") == [Route("B", 100, CARRIER), Route("C", 50, CARRIER)] &&
    RoutesOf(adj, "B") == [Route("D", 100, CARRIER)] &&
    RoutesOf(adj, "C") == [Route("D", 40, CARRIER)] &&
    RoutesOf(adj, "D") == []
  }

  /** The only routes of the example, hop by hop. */
  lemma Hops(adj: Adjacency)
    requires ExampleStore(adj)
    ensures forall v :: HasRoute(adj, "A", v) ==> v == "B" || v == "C"
    ensures forall v :: HasRoute(adj, "B", v) ==> v == "D"
    ensures forall v :: HasRoute(adj, "C", v) ==> v == "D"
    ensures forall v :: !HasRoute(adj, "D", v)
    ensures forall w :: HasRouteOfLength(adj, "A", "B", w) ==> w == 100
    ensures forall w :: HasRouteOfLength(adj, "B", "D", w) ==> w == 100
    ensures forall w :: HasRouteOfLength(adj, "A", "C", w) ==> w == 50
    ensures forall w :: HasRouteOfLength(adj, "C", "D", w) ==> w == 40
  {
    assert RoutesOf(adj, "D") == [];
  }

  /** A and D are joined by exactly two paths. */
  lemma PathsAToD(adj: Adjacency, p: seq<string>)
    requires ExampleStore(adj)
    requires PathFromTo(adj, p, "A", "D")
    ensures p == ["A", "B", "D"] || p == ["A", "C", "D"]
  {
    Hops(adj);
    forall i | 0 <= i < |p| - 1
      ensures p[i] != "D"
    {
      assert HasRoute(adj, p[i], p[i + 1]);
    }
    assert HasRoute(adj, p[0], p[1]);
    assert p[1] == "B" || p[1] == "C";
    assert HasRoute(adj, p[1], p[2]);
    assert p[2] == "D";
    assert |p| == 3;
  }

  lemma WitnessRoutes(adj: Adjacency)
    requires ExampleStore(adj)
    ensures PathFromTo(adj, ["A", "B", "D"], "A", "D")
    ensures WalkFromTo(adj, ["A", "C", "D"], [50, 40], "A", "D")
  {
    assert Route("B", 100, CARRIER) in RoutesOf(adj, "A");
    assert Route("D", 100, CARRIER) in RoutesOf(adj, "B");
    assert Route("C", 50, CARRIER) in RoutesOf(adj, "A");
    assert Route("D", 40, CARRIER) in RoutesOf(adj, "C");
  }

  /** Every result findPathBFS may give from A to D is A, B, D at 200. */
  lemma BfsExample(adj: Adjacency, V: set<string>, r: PathResult)
    requires ExampleStore(adj)
    requires "A" in V && "D" in V
    requires BfsResult(adj, V, "A", "D", r)
    ensures r.found && r.path == ["A", "B", "D"] && r.stops == 2 && r.totalDistance == 200
  {
    WitnessRoutes(adj);
    assert r.found;
    PathsAToD(adj, r.path);
    assert PathLeq(r.path, ["A", "B", "D"]);
    assert !LexLess(["A", "C", "D"], ["A", "B", "D"]) by {
      assert ["A", "C", "D"][1..] == ["C", "D"] && ["A", "B", "D"][1..] == ["B", "D"];
      assert !StrLess("C", "B");
    }
    assert r.path == ["A", "B", "D"];
    BfsDistance(adj);
  }

  lemma BfsDistance(adj: Adjacency)
    requires ExampleStore(adj)
    ensures PathDistance(adj, ["A", "B", "D"]) == 200
  {
    assert ["A", "B", "D"][..2] == ["A", "B"];
    assert HopWeights(adj, ["A", "B"]) == [100];
    assert HopWeights(adj, ["A", "B", "D"]) == [100, 100];
    assert [100, 100][..1] == [100];
    assert Total([100]) == 100;
  }

  /** Every result findShortestPath may give from A to D is A, C, D at 90. */
  lemma DijkstraExample(adj: Adjacency, V: set<string>, r: PathResult)
    requires ExampleStore(adj)
    requires "A" in V && "D" in V
    requires DijkstraResult(adj, V, "A", "D", r)
    ensures r.found && r.path == ["A", "C", "D"] && r.stops == 2 && r.totalDistance == 90
  {
    WitnessRoutes(adj);
    Hops(adj);
    assert Reachable(adj, "A", "D");
    assert r.found;
    assert r.totalDistance <= Total([50, 40]);
    assert Total([50]) == 50;
    var ws :| IsWalk(adj, r.path, ws) && Total(ws) == r.totalDistance;
    PathsAToD(adj, r.path);
    assert HasRouteOfLength(adj, r.path[0], r.path[1], ws[0]);
    assert HasRouteOfLength(adj, r.path[1], r.path[2], ws[1]);
    assert ws == [ws[0], ws[1]];
    assert [ws[0], ws[1]][..1] == [ws[0]];
    assert Total(ws) == ws[0] + ws[1];
    assert r.path == ["A", "C", "D"];
  }

  /** addEdge between registered airports, seen origin by origin. */
  method AddRoute(g: FlightRouteGraph, from: string, to: string, distance: nat)
    requires g.Valid() && from in g.vertexMap && to in g.vertexMap
    modifies g
    ensures g.Valid() && g.vertexMap == old(g.vertexMap)
    ensures RoutesOf(g.adjacencyList, from) == RoutesOf(old(g.adjacencyList), from) + [Route(to, distance, CARRIER)]
    ensures forall x :: x != from ==> RoutesOf(g.adjacencyList, x) == RoutesOf(old(g.adjacencyList), x)
  {
    g.AddEdge(from, to, distance, CARRIER);
  }

  /** The four airports, registered with no routes yet. */
  method BuildAirports() returns (g: FlightRouteGraph)
    ensures fresh(g) && g.Valid() && "A" in g.vertexMap && "B" in g.vertexMap && "C" in g.vertexMap && "D" in g.vertexMap
    ensures forall x :: RoutesOf(g.adjacencyList, x) == []
  {
    g := new FlightRouteGraph();
    g.AddVertex("A", "Airport A", 1, "", "", 0.0, 0.0);
    g.AddVertex("B", "Airport B", 2, "", "", 0.0, 0.0);
    g.AddVertex("C", "Airport C", 3, "", "", 0.0, 0.0);
    g.AddVertex("D", "Airport D", 4, "", "", 0.0, 0.0);
    assert g.adjacencyList == map["A" := [], "B" := [], "C" := [], "D" := []];
  }

  /** The example graph, built through the graph's own operations. */
  method Build() returns (g: FlightRouteGraph)
    ensures fresh(g) && g.Valid() && ExampleStore(g.adjacencyList) && "A" in g.vertexMap && "D" in g.vertexMap
  {
    g := BuildAirports();
    AddRoute(g, "A", "B", 100);
    AddRoute(g, "B", "D", 100);
    AddRoute(g, "A", "C", 50);
    AddRoute(g, "C", "D", 40);
  }

  /** The two searches on the example graph. */
  method Example() returns (bfs: PathResult, shortest: PathResult)
    ensures bfs.found && bfs.path == ["A", "B", "D"] && bfs.totalDistance == 200
    ensures shortest.found && shortest.path == ["A", "C", "D"] && shortest.totalDistance == 90
  {
    var g := Build();
    bfs := g.FindPathBFS("A", "D");
    BfsExample(g.adjacencyList, g.vertexMap.Keys, bfs);
    shortest := g.FindShortestPath("A", "D");
    DijkstraExample(g.adjacencyList, g.vertexMap.Keys, shortest);
  }

  /** Deleting A->B from the example leaves A with its route to C only. */
  method RemoveExample() returns (removed: bool, still: bool, degree: int)
    ensures removed && !still && degree == 1
  {
    var g := Build();
    var rb, rc := Route("B", 100, CARRIER), Route("C", 50, CARRIER);
    assert [rb, rc][1..] == [rc] && [rc][1..] == [];
    assert "C" != "B";
    assert RemoveTo([rc], "B") == [rc] + RemoveTo([], "B");
    assert RemoveTo([rb, rc], "B") == [] + RemoveTo([rc], "B");
    removed := g.RemoveEdge("A", "B");
    still := g.HasEdge("A", "B");
    assert RoutesOf(g.adjacencyList, "A") == [Route("C", 50, CARRIER)];
    degree := g.Outdegree("A");
  }

  /** On the empty graph every query about a code reports it unregistered. */
  method EmptyGraph() returns (bfs: PathResult, shortest: PathResult, order: seq<string>,
                                removed: bool, edge: bool, into: int, out: int)
    ensures !bfs.found && bfs.path == [] && !shortest.found && shortest.path == []
    ensures order == [] && !removed && !edge && into == -1 && out == -1
  {
    var g := new FlightRouteGraph();
    bfs := g.FindPathBFS("A", "D");
    shortest := g.FindShortestPath("A", "D");
    order := g.Traverse("A", "BFS");
    removed := g.RemoveEdge("A", "D");
    edge := g.HasEdge("A", "D");
    into := g.Indegree("A");
    out := g.Outdegree("A");
  }
}
