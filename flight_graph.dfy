/** FlightRouteGraph: the vertex registry and the adjacency store of the
    flight-route multigraph, with every operation the engine offers. Both
    stores are hash maps in the source; here they are Dafny maps, and loops
    that iterate a hash map visit its keys in an arbitrary order. */
module FlightGraph {
  import opened SetSum
  import opened StringOrder
  import opened GraphSpec
  import opened GraphLemmas
  import opened PathTree
  import opened TraversalProof
  import opened SearchTree
  import opened BfsProof
  import opened DfsProof
  import opened DijkstraProof
  import opened AllPathsProof

  /** The sequence facts one step of the erase loop needs. */
  lemma EraseStep(routes: seq<Route>, orig: seq<Route>, i: nat, k: nat)
    requires i < |routes| && k <= |orig| && routes[i..] == orig[k..]
    ensures k < |orig| && routes[i] == orig[k] && orig[..k + 1] == orig[..k] + [orig[k]]
    ensures routes[i + 1..] == orig[k + 1..]
    ensures routes[..i + 1] == routes[..i] + [routes[i]]
    ensures (routes[..i] + routes[i + 1..])[..i] == routes[..i]
    ensures (routes[..i] + routes[i + 1..])[i..] == orig[k + 1..]
  {
    assert routes[i..][0] == routes[i];
    assert routes[i + 1..] == routes[i..][1..];
    assert orig[k + 1..] == orig[k..][1..];
  }

  /** The erase-while-iterating loop of removeEdge: every route to `to` is
      deleted, the others keep their order, and `found` says whether any was
      deleted. */
  method EraseRoutesTo(orig: seq<Route>, to: string) returns (routes: seq<Route>, found: bool)
    ensures routes == RemoveTo(orig, to)
    ensures found <==> exists r :: r in orig && r.destination == to
  {
    routes := orig;
    found := false;
    var i := 0;
    ghost var k := 0;
    // i indexes `routes`, k the same element of `orig`
    while i < |routes|
      invariant 0 <= i <= |routes| && i <= k <= |orig|
      invariant routes[..i] == RemoveTo(orig[..k], to)
      invariant routes[i..] == orig[k..]
      invariant found <==> i < k
      decreases |routes| - i
    {
      EraseStep(routes, orig, i, k);
      RemoveToAppend(orig[..k], [orig[k]], to);
      if routes[i].destination == to {
        routes := routes[..i] + routes[i + 1..];
        found := true;
      } else {
        i := i + 1;
      }
      k := k + 1;
    }
    assert orig[..k] == orig;
    RemoveToLength(orig, to);
    CountToPositive(orig, to);
  }

  /** getStatistics' running maximum over the origins seen so far: the
      largest out-degree, and an origin having it ("" while it is 0). */
  ghost predicate MaxTracked(adj: Adjacency, seen: set<string>, maxDegree: nat, maxAirport: string)
  {
    (forall k :: k in seen ==> |RoutesOf(adj, k)| <= maxDegree) &&
    (maxDegree == 0 ==> maxAirport == "") &&
    (maxDegree > 0 ==> maxAirport in seen && |RoutesOf(adj, maxAirport)| == maxDegree)
  }

  /** getStatistics' running minimum over the origins seen so far that have
      a route: None while there is none, otherwise the least such out-degree
      and an origin having it. */
  ghost predicate MinTracked(adj: Adjacency, seen: set<string>, minDegree: Option<nat>, minAirport: string)
  {
    (minDegree.None? <==> forall k :: k in seen ==> |RoutesOf(adj, k)| == 0) &&
    (minDegree.None? ==> minAirport == "") &&
    (minDegree.Some? ==>
       minDegree.value > 0 && minAirport in seen && |RoutesOf(adj, minAirport)| == minDegree.value &&
       forall k :: k in seen && |RoutesOf(adj, k)| > 0 ==> minDegree.value <= |RoutesOf(adj, k)|)
  }

  /** What getStatistics' loop knows after visiting the origins in `seen`. */
  ghost predicate StatsSoFar(adj: Adjacency, seen: set<string>, total: nat, maxDegree: nat, maxAirport: string,
                             minDegree: Option<nat>, minAirport: string)
  {
    total == Sum(seen, k => |RoutesOf(adj, k)|) &&
    MaxTracked(adj, seen, maxDegree, maxAirport) &&
    MinTracked(adj, seen, minDegree, minAirport)
  }

  /** One iteration of getStatistics' loop. */
  lemma StatsStep(adj: Adjacency, seen: set<string>, k: string, total: nat, maxDegree: nat, maxAirport: string,
                  minDegree: Option<nat>, minAirport: string)
    requires k !in seen
    requires StatsSoFar(adj, seen, total, maxDegree, maxAirport, minDegree, minAirport)
    ensures var d := |RoutesOf(adj, k)|;
            var newMin := d > 0 && (minDegree.None? || d < minDegree.value);
            StatsSoFar(adj, seen + {k}, total + d,
                       if d > maxDegree then d else maxDegree, if d > maxDegree then k else maxAirport,
                       if newMin then Some(d) else minDegree, if newMin then k else minAirport)
  {
    SumAdd(seen, k => |RoutesOf(adj, k)|, k);
  }

  /** The std::set of neighbour codes the path finders build from a route
      list: strictly increasing, holding each destination once. */
  method SortedNeighbors(routes: seq<Route>) returns (neighbors: seq<string>)
    ensures StrictlySorted(neighbors)
    ensures forall v :: v in neighbors <==> exists r :: r in routes && r.destination == v
  {
    neighbors := [];
    var i := 0;
    while i < |routes|
      invariant 0 <= i <= |routes|
      invariant StrictlySorted(neighbors)
      invariant forall v :: v in neighbors <==> exists r :: r in routes[..i] && r.destination == v
    {
      assert routes[..i + 1] == routes[..i] + [routes[i]];
      neighbors := InsertSorted(neighbors, routes[i].destination);
      i := i + 1;
    }
    assert routes[..i] == routes;
  }

  /** The inner loop of findPathBFS and findPathDFS: each neighbour code of
      current (in increasing order) not yet visited is marked visited, gets
      current as parent and is pushed onto the pending container (a queue
      push and a stack push both append at the back). */
  method ExpandNeighbors(current: string, neighbors: seq<string>, visited0: set<string>,
                         parent0: map<string, string>, pending0: seq<string>,
                         ghost tree0: map<string, seq<string>>)
      returns (visited: set<string>, parent: map<string, string>, pending: seq<string>,
               ghost tree: map<string, seq<string>>, ghost C: seq<string>)
    requires StrictlySorted(neighbors) && current in tree0
    requires (forall v :: v in parent0 ==> v in visited0) && (forall v :: v in tree0 ==> v in visited0)
    ensures Expanding(current, neighbors, |neighbors|, visited0, parent0, tree0, pending0, C,
                      visited, parent, tree, pending)
  {
    visited, parent, pending, tree, C := visited0, parent0, pending0, tree0, [];
    ExpandBegin(current, neighbors, visited0, parent0, tree0, pending0);
    var j := 0;
    while j < |neighbors|
      invariant Expanding(current, neighbors, j, visited0, parent0, tree0, pending0, C,
                          visited, parent, tree, pending)
    {
      var x := neighbors[j];
      ExpandStep(current, neighbors, j, visited0, parent0, tree0, pending0, C, visited, parent, tree, pending);
      if x !in visited {
        visited := visited + {x};
        parent := parent[x := current];
        tree := tree[x := tree[current] + [x]];
        pending := pending + [x];
        C := C + [x];
      }
      j := j + 1;
    }
  }

  /** The inner loop of indegree: how many of the routes end at `to`. */
  method CountRoutesTo(routes: seq<Route>, to: string) returns (count: nat)
    ensures count == CountTo(routes, to)
  {
    count := 0;
    var i := 0;
    while i < |routes|
      invariant 0 <= i <= |routes|
      invariant count == CountTo(routes[..i], to)
    {
      assert routes[..i + 1][..i] == routes[..i];
      if routes[i].destination == to {
        count := count + 1;
      }
      i := i + 1;
    }
    assert routes[..i] == routes;
  }

  /** The outer loop of indegree: the routes, over all origins, that end at `code`. */
  method CountInbound(adj: Adjacency, code: string) returns (count: nat)
    ensures count == InDegree(adj, code)
  {
    ghost var f := k => CountTo(RoutesOf(adj, k), code);
    count := 0;
    var remaining := adj.Keys;
    ghost var seen: set<string> := {};
    while remaining != {}
      invariant remaining + seen == adj.Keys && remaining !! seen
      invariant count == Sum(seen, f)
      decreases remaining
    {
      var from :| from in remaining;
      var n := CountRoutesTo(adj[from], code);
      SumAdd(seen, f, from);
      count := count + n;
      seen := seen + {from};
      remaining := remaining - {from};
    }
    assert seen == adj.Keys;
  }

  /** The inner loop of calculatePathDistance: the distance of the first
      route to `to`, or 0 when there is none. */
  method FirstRouteDistance(routes: seq<Route>, to: string) returns (d: nat)
    ensures FirstDistance(routes, to).Some? ==> d == FirstDistance(routes, to).value
    ensures FirstDistance(routes, to).None? ==> d == 0
  {
    var j := 0;
    while j < |routes|
      invariant 0 <= j <= |routes|
      invariant forall k :: 0 <= k < j ==> routes[k].destination != to
    {
      if routes[j].destination == to {
        FirstDistanceAt(routes, to, j);
        return routes[j].distance;
      }
      j := j + 1;
    }
    return 0;
  }

  /** findShortestPath's first loop: every registered airport at INT_MAX. */
  method AllUnreached(codes: set<string>) returns (dist: map<string, Dist>)
    ensures forall v :: v in dist <==> v in codes
    ensures forall v :: v in dist ==> dist[v] == Inf
  {
    dist := map[];
    var unset := codes;
    while unset != {}
      invariant forall v :: v in dist <==> v in codes && v !in unset
      invariant forall v :: v in dist ==> dist[v] == Inf
      invariant unset <= codes
      decreases unset
    {
      var v :| v in unset;
      dist := dist[v := Inf];
      unset := unset - {v};
    }
  }

  /** findShortestPath's inner loop: each route of u, in order, lowers its
      destination's tentative distance when it gives a strictly shorter one,
      making u the parent and queueing the new entry. Relaxations only make
      an infinite distance finite or lower a finite one. */
  method RelaxRoutes(ghost adj: Adjacency, ghost V: set<string>, ghost start: string, ghost end: string,
                     dist0: map<string, Dist>, parent0: map<string, string>, pq0: multiset<NodeDistance>,
                     ghost done: set<string>, ghost order: map<string, nat>, ghost n: nat,
                     u: string, routes: seq<Route>)
      returns (dist: map<string, Dist>, parent: map<string, string>, pq: multiset<NodeDistance>)
    requires RelaxMid(adj, V, start, end, dist0, parent0, pq0, done, order, n, u, routes, 0)
    ensures RelaxMid(adj, V, start, end, dist, parent, pq, done, order, n, u, routes, |routes|)
    ensures InfCount(dist) <= InfCount(dist0)
    ensures InfCount(dist) == InfCount(dist0) ==> FinSum(dist) + |pq| <= FinSum(dist0) + |pq0|
  {
    dist, parent, pq := dist0, parent0, pq0;
    var j := 0;
    while j < |routes|
      invariant RelaxMid(adj, V, start, end, dist, parent, pq, done, order, n, u, routes, j)
      invariant InfCount(dist) <= InfCount(dist0)
      invariant InfCount(dist) == InfCount(dist0) ==> FinSum(dist) + |pq| <= FinSum(dist0) + |pq0|
      decreases |routes| - j
    {
      RouteTarget(adj, V, start, end, dist, u, routes, j);
      var v := routes[j].destination;
      var alt := dist[u].n + routes[j].distance;
      if dist[v].Inf? || alt < dist[v].n {
        RelaxUpdate(adj, V, start, end, dist, parent, pq, done, order, n, u, routes, j, v, alt);
        if dist[v].Inf? {
          LowerInf(dist, v, alt);
        } else {
          LowerFin(dist, v, alt);
        }
        dist := dist[v := Fin(alt)];
        parent := parent[v := u];
        pq := pq + multiset{NodeDistance(v, alt)};
      } else {
        RelaxSkip(adj, V, start, end, dist, parent, pq, done, order, n, u, routes, j);
      }
      j := j + 1;
    }
  }

  /** The rest of one iteration of findShortestPath's loop, after a current
      entry of an airport other than end has been popped: the airport's
      routes are relaxed. The ghost bookkeeping marks it finished. */
  method Settle(ghost adj: Adjacency, ghost V: set<string>, ghost start: string, ghost end: string,
                dist0: map<string, Dist>, parent0: map<string, string>,
                ghost pq0: multiset<NodeDistance>, pq1: multiset<NodeDistance>,
                ghost done0: set<string>, ghost order0: map<string, nat>, ghost n0: nat,
                current: NodeDistance, routes: seq<Route>)
      returns (dist: map<string, Dist>, parent: map<string, string>, pq: multiset<NodeDistance>,
               ghost done: set<string>, ghost order: map<string, nat>, ghost n: nat)
    requires DijkstraInv(adj, V, start, end, dist0, parent0, pq0, done0, order0, n0)
    requires current in pq0 && forall f :: f in pq0 ==> current.distance <= f.distance
    requires pq1 == pq0 - multiset{current}
    requires current.airport != end && current.airport in dist0 && dist0[current.airport].Fin?
    requires current.distance <= dist0[current.airport].n
    requires routes == RoutesOf(adj, current.airport)
    ensures DijkstraInv(adj, V, start, end, dist, parent, pq, done, order, n)
    ensures InfCount(dist) <= InfCount(dist0)
    ensures InfCount(dist) == InfCount(dist0) ==> FinSum(dist) + |pq| <= FinSum(dist0) + |pq1|
  {
    var u := current.airport;
    done, order, n := done0, order0, n0;
    if u !in done0 {
      PopNew(adj, V, start, end, dist0, parent0, pq0, done0, order0, n0, current);
      done, order, n := done0 + {u}, order0[u := n0], n0 + 1;
    } else {
      PopDone(adj, V, start, end, dist0, parent0, pq0, done0, order0, n0, current);
    }
    dist, parent, pq := RelaxRoutes(adj, V, start, end, dist0, parent0, pq1, done, order, n, u, routes);
    RelaxFinish(adj, V, start, end, dist, parent, pq, done, order, n, u, routes);
  }

  /** findShortestPath's priority-queue loop, from start at 0 and every
      other registered airport at INT_MAX: pop a least entry; stop at end;
      skip a stale entry; otherwise relax the popped airport's routes. */
  method ShortestDistances(adj: Adjacency, ghost V: set<string>, start: string, end: string,
                           dist0: map<string, Dist>)
      returns (dist: map<string, Dist>, parent: map<string, string>,
               ghost done: set<string>, ghost order: map<string, nat>, ghost n: nat)
    requires (forall v :: v in dist0 <==> v in V) && (forall v :: v in dist0 ==> dist0[v] == Inf)
    requires start in V && end in V && forall u, r :: r in RoutesOf(adj, u) ==> r.destination in V
    ensures Settled(adj, V, start, end, dist, parent, done, order, n)
  {
    DijkstraBegin(adj, V, start, end, dist0);
    dist := dist0[start := Fin(0)];
    parent := map[];
    var pq: multiset<NodeDistance> := multiset{NodeDistance(start, 0)};
    done, order, n := {}, map[], 0;
    ghost var broke := false;
    while pq != multiset{}
      invariant DijkstraInv(adj, V, start, end, dist, parent, pq, done, order, n)
      invariant !broke
      decreases InfCount(dist), FinSum(dist) + |pq|
    {
      ghost var least := MinEntry(pq);
      var current :| current in pq && forall f :: f in pq ==> current.distance <= f.distance;
      ghost var pq0 := pq;
      pq := pq - multiset{current};
      assert pq0 == pq + multiset{current};
      var u := current.airport;
      if u == end {
        EndFinal(adj, V, start, end, dist, parent, pq0, done, order, n, current);
        broke := true;
        break;
      }
      if current.distance > dist[u].n {
        PopStale(adj, V, start, end, dist, parent, pq0, done, order, n, current);
        continue;
      }
      dist, parent, pq, done, order, n :=
        Settle(adj, V, start, end, dist, parent, pq0, pq, done, order, n, current, RoutesOf(adj, u));
    }
    if !broke {
      QueueExhausted(adj, V, start, end, dist, parent, done, order, n);
    }
  }

  class FlightRouteGraph {
    /** Origin code -> its routes, in insertion order. */
    var adjacencyList: Adjacency
    /** Code -> airport record. */
    var vertexMap: map<string, Airport>

    /** The two stores register the same codes, each record sits under its own
        code, and no route leads to an unregistered code. */
    ghost predicate Valid()
      reads this
    {
      (forall c :: c in vertexMap ==> c in adjacencyList && vertexMap[c].code == c) &&
      (forall c :: c in adjacencyList ==> c in vertexMap) &&
      (forall u, r :: u in adjacencyList && r in adjacencyList[u] ==> r.destination in vertexMap)
    }

    constructor ()
      ensures Valid() && adjacencyList == map[] && vertexMap == map[]
    {
      adjacencyList := map[];
      vertexMap := map[];
    }

    // ------------------------------------------------------------------
    // Path helpers

    /** reconstructPath: walks parent links from end back to start, then
        returns them in start-to-end order; an empty sequence when a link is
        missing. The ghost ranking stands for the acyclicity of the parent
        maps the path finders build, without which the source loop need not end. */
    method ReconstructPath(parent: map<string, string>, start: string, end: string,
                           ghost rank: map<string, nat>) returns (path: seq<string>)
      requires RankedParents(parent, rank)
      ensures Chain(parent, rank, start, end).Some? ==> path == Chain(parent, rank, start, end).value
      ensures Chain(parent, rank, start, end).None? ==> path == []
    {
      var current := end;
      var suffix: seq<string> := [];
      ExtendEmpty(Chain(parent, rank, start, end));
      while current != start
        invariant Chain(parent, rank, start, end) == Extend(Chain(parent, rank, start, current), suffix)
        decreases if current in rank then rank[current] else 0
      {
        if current in parent {
          ExtendAssociative(Chain(parent, rank, start, parent[current]), [current], suffix);
        }
        suffix := [current] + suffix;
        if current !in parent {
          return [];
        }
        current := parent[current];
      }
      path := [start] + suffix;
    }

    /** calculatePathDistance: the sum, over consecutive pairs of the path, of
        the distance of the first stored route between them (0 for a pair
        without one); 0 for a path of fewer than two airports. */
    method CalculatePathDistance(path: seq<string>) returns (totalDistance: nat)
      ensures totalDistance == PathDistance(adjacencyList, path)
      ensures IsPath(adjacencyList, path) ==>
                exists ws :: IsWalk(adjacencyList, path, ws) && Total(ws) == totalDistance
    {
      if |path| < 2 {
        return 0;
      }
      totalDistance := 0;
      var i := 0;
      while i < |path| - 1
        invariant 0 <= i <= |path| - 1
        invariant totalDistance == Total(HopWeights(adjacencyList, path[..i + 1]))
      {
        var d := FirstRouteDistance(RoutesOf(adjacencyList, path[i]), path[i + 1]);
        HopWeightsStep(adjacencyList, path, i);
        totalDistance := totalDistance + d;
        i := i + 1;
      }
      assert path[..i + 1] == path;
      if IsPath(adjacencyList, path) {
        PathHasWalk(adjacencyList, path);
      }
    }

    // ------------------------------------------------------------------
    // Graph store

    /** Registers an airport; a code that is already registered keeps its
        record and its routes (first write wins). */
    method AddVertex(airportCode: string, airportName: string, airportID: int,
                     city: string, country: string, latitude: real, longitude: real)
      requires Valid()
      modifies this
      ensures Valid()
      ensures airportCode in old(vertexMap) ==>
                vertexMap == old(vertexMap) && adjacencyList == old(adjacencyList)
      ensures airportCode !in old(vertexMap) ==>
                vertexMap == old(vertexMap)[airportCode := Airport(airportCode, airportName, airportID,
                                                                   city, country, latitude, longitude)] &&
                adjacencyList == old(adjacencyList)[airportCode := []]
    {
      if airportCode in vertexMap {
        return;
      }
      vertexMap := vertexMap[airportCode := Airport(airportCode, airportName, airportID,
                                                    city, country, latitude, longitude)];
      adjacencyList := adjacencyList[airportCode := []];
    }

    /** Appends a route to the origin's list when both ends are registered;
        an identical or parallel route already stored does not prevent it. */
    method AddEdge(from: string, to: string, distance: nat, airline: string)
      requires Valid()
      modifies this
      ensures Valid()
      ensures vertexMap == old(vertexMap)
      ensures from !in old(vertexMap) || to !in old(vertexMap) ==> adjacencyList == old(adjacencyList)
      ensures from in old(vertexMap) && to in old(vertexMap) ==>
                adjacencyList == old(adjacencyList)[from := old(adjacencyList)[from] + [Route(to, distance, airline)]]
      ensures from in old(vertexMap) && to in old(vertexMap) ==>
                TotalRoutes(adjacencyList) == TotalRoutes(old(adjacencyList)) + 1 &&
                InDegree(adjacencyList, to) == InDegree(old(adjacencyList), to) + 1
    {
      if from !in vertexMap {
        return;
      }
      if to !in vertexMap {
        return;
      }
      var r := Route(to, distance, airline);
      TotalRoutesAppend(adjacencyList, from, r);
      InDegreeAppend(adjacencyList, from, r, to);
      adjacencyList := adjacencyList[from := adjacencyList[from] + [r]];
    }

    /** Deletes every route from `from` to `to`, whatever its carrier and
        distance, keeping the other routes in order. Reports false, changing
        nothing, when an end is unregistered; otherwise reports whether a
        route was deleted. */
    method RemoveEdge(from: string, to: string) returns (found: bool)
      requires Valid()
      modifies this
      ensures Valid()
      ensures vertexMap == old(vertexMap)
      ensures from !in old(vertexMap) || to !in old(vertexMap) ==>
                !found && adjacencyList == old(adjacencyList)
      ensures from in old(vertexMap) && to in old(vertexMap) ==>
                adjacencyList == old(adjacencyList)[from := RemoveTo(old(adjacencyList)[from], to)] &&
                (found <==> HasRoute(old(adjacencyList), from, to)) &&
                !HasRoute(adjacencyList, from, to) &&
                TotalRoutes(adjacencyList) + CountTo(old(adjacencyList)[from], to) ==
                  TotalRoutes(old(adjacencyList))
    {
      if from !in vertexMap {
        return false;
      }
      if to !in vertexMap {
        return false;
      }
      var orig := adjacencyList[from];
      var routes;
      routes, found := EraseRoutesTo(orig, to);
      RemoveToMembers(orig, to);
      TotalRoutesRemove(adjacencyList, from, to);
      adjacencyList := adjacencyList[from := routes];
    }

    /** hasVertex: whether the code is registered. */
    function HasVertex(airportCode: string): (b: bool)
      reads this
      requires Valid()
      ensures b <==> airportCode in adjacencyList
    {
      airportCode in vertexMap
    }

    /** hasEdge: whether some route, of any carrier, goes from `from` to `to`. */
    method HasEdge(from: string, to: string) returns (b: bool)
      requires Valid()
      ensures b <==> from in vertexMap && HasRoute(adjacencyList, from, to)
    {
      if from !in vertexMap {
        return false;
      }
      if from !in adjacencyList {
        return false;
      }
      var routes := adjacencyList[from];
      var i := 0;
      while i < |routes|
        invariant 0 <= i <= |routes|
        invariant forall j :: 0 <= j < i ==> routes[j].destination != to
      {
        if routes[i].destination == to {
          return true;
        }
        i := i + 1;
      }
      return false;
    }

    /** indegree: -1 for an unregistered code, otherwise the number of stored
        routes, over all origins, that end at the code. */
    method Indegree(airportCode: string) returns (d: int)
      requires Valid()
      ensures airportCode !in vertexMap ==> d == -1
      ensures airportCode in vertexMap ==> d == InDegree(adjacencyList, airportCode)
    {
      if airportCode !in vertexMap {
        return -1;
      }
      d := CountInbound(adjacencyList, airportCode);
    }

    /** outdegree: -1 for an unregistered code, otherwise the length of its
        route list, which is what getNeighbors returns. */
    function Outdegree(airportCode: string): (d: int)
      reads this
      requires Valid()
      ensures airportCode !in vertexMap ==> d == -1
      ensures airportCode in vertexMap ==> d == |GetNeighbors(airportCode)|
    {
      if airportCode !in vertexMap then -1 else |RoutesOf(adjacencyList, airportCode)|
    }

    /** getNeighbors: the code's routes in insertion order, duplicates and all;
        every route returned leads to a registered airport. */
    function GetNeighbors(airportCode: string): (r: seq<Route>)
      reads this
      requires Valid()
      ensures airportCode in adjacencyList ==> r == adjacencyList[airportCode]
      ensures airportCode !in adjacencyList ==> r == []
      ensures forall rt :: rt in r ==> rt.destination in vertexMap
    {
      if airportCode in adjacencyList then adjacencyList[airportCode] else []
    }

    // ------------------------------------------------------------------
    // Path finders

    /** Every neighbour code of a registered airport is registered. */
    lemma NeighborsRegistered(current: string, neighbors: seq<string>)
      requires Valid()
      requires forall v :: v in neighbors <==> exists r :: r in RoutesOf(adjacencyList, current) && r.destination == v
      ensures forall v :: v in neighbors ==> v in vertexMap
    {
      forall v | v in neighbors
        ensures v in vertexMap
      {
        var r :| r in RoutesOf(adjacencyList, current) && r.destination == v;
      }
    }

    /** findPathBFS: breadth-first search from start, expanding each airport
        over its neighbour codes in increasing order. The path found is the
        least start -> end path in shortlex order (fewest hops, ties broken
        lexicographically); found exactly when both codes are registered and
        end is reachable. */
    method FindPathBFS(start: string, end: string) returns (result: PathResult)
      requires Valid()
      ensures BfsResult(adjacencyList, vertexMap.Keys, start, end, result)
    {
      if start !in vertexMap || end !in vertexMap {
        return NotFound(BFS_TAG);
      }
      var adj := adjacencyList;
      var parent: map<string, string> := map[];
      var visited: set<string> := {start};
      var q: seq<string> := [start];
      ghost var P: set<string> := {};
      ghost var tree: map<string, seq<string>> := map[start := [start]];
      BfsBegin(adj, start, end);
      while q != []
        invariant BfsInv(adj, start, end, visited, parent, tree, P, q)
        invariant forall v :: v in visited ==> v in vertexMap
        decreases vertexMap.Keys - P
      {
        var current := q[0];
        if current == end {
          FrontOptimal(adj, start, end, visited, parent, tree, P, q);
          ChainOfTree(adj, start, visited, parent, tree, end);
          var path := ReconstructPath(parent, start, end, TreeRank(tree));
          assert PathFromTo(adj, path, start, end);
          var d := CalculatePathDistance(path);
          return PathResult(path, |path| - 1, d, BFS_TAG, true);
        }
        ghost var visited0, parent0, tree0, q0, P0 := visited, parent, tree, q, P;
        q := q[1..];
        P := P + {current};
        var neighbors := SortedNeighbors(RoutesOf(adj, current));
        NeighborsRegistered(current, neighbors);
        ghost var C: seq<string>;
        visited, parent, q, tree, C := ExpandNeighbors(current, neighbors, visited, parent, q, tree);
        BfsExpand(adj, start, end, visited0, parent0, tree0, P0, q0, neighbors, C, visited, parent, tree, q);
      }
      BfsExhausted(adj, start, end, visited, parent, tree, P);
      return NotFound(BFS_TAG);
    }

    /** findPathDFS: as findPathBFS with a stack in place of the queue; the
        path found is a start -> end path, with no optimality. */
    method FindPathDFS(start: string, end: string) returns (result: PathResult)
      requires Valid()
      ensures DfsResult(adjacencyList, vertexMap.Keys, start, end, result)
    {
      if start !in vertexMap || end !in vertexMap {
        return NotFound(DFS_TAG);
      }
      var adj := adjacencyList;
      var parent: map<string, string> := map[];
      var visited: set<string> := {start};
      var s: seq<string> := [start];
      ghost var P: set<string> := {};
      ghost var tree: map<string, seq<string>> := map[start := [start]];
      DfsBegin(adj, start, end);
      while s != []
        invariant DfsInv(adj, start, end, visited, parent, tree, P, s)
        invariant forall v :: v in visited ==> v in vertexMap
        decreases vertexMap.Keys - P
      {
        var current := s[|s| - 1];
        if current == end {
          ChainOfTree(adj, start, visited, parent, tree, end);
          var path := ReconstructPath(parent, start, end, TreeRank(tree));
          assert PathFromTo(adj, path, start, end);
          var d := CalculatePathDistance(path);
          return PathResult(path, |path| - 1, d, DFS_TAG, true);
        }
        ghost var visited0, parent0, tree0, s0, P0 := visited, parent, tree, s, P;
        s := s[..|s| - 1];
        P := P + {current};
        var neighbors := SortedNeighbors(RoutesOf(adj, current));
        NeighborsRegistered(current, neighbors);
        ghost var C: seq<string>;
        visited, parent, s, tree, C := ExpandNeighbors(current, neighbors, visited, parent, s, tree);
        DfsExpand(adj, start, end, visited0, parent0, tree0, P0, s0, neighbors, C, visited, parent, tree, s);
      }
      DfsExhausted(adj, start, end, visited, parent, tree, P);
      return NotFound(DFS_TAG);
    }

    /** Every route, under whatever origin, leads to a registered airport. */
    lemma RoutesRegistered()
      requires Valid()
      ensures forall u, r :: r in RoutesOf(adjacencyList, u) ==> r.destination in vertexMap
    {
    }

    /** findShortestPath: Dijkstra's algorithm with a lazy-deletion priority
        queue. Every registered airport starts at INT_MAX (Inf); popping an
        entry of end stops the search before the stale-entry check; a stale
        entry is skipped; otherwise each route of the popped airport is
        relaxed when it gives a strictly shorter distance. */
    method FindShortestPath(start: string, end: string) returns (result: PathResult)
      requires Valid()
      ensures DijkstraResult(adjacencyList, vertexMap.Keys, start, end, result)
    {
      if start !in vertexMap || end !in vertexMap {
        return NotFound(DIJKSTRA_TAG);
      }
      var adj := adjacencyList;
      ghost var V := vertexMap.Keys;
      var dist0 := AllUnreached(vertexMap.Keys);
      RoutesRegistered();
      var dist: map<string, Dist>, parent: map<string, string>;
      ghost var done: set<string>, order: map<string, nat>, n: nat;
      dist, parent, done, order, n := ShortestDistances(adj, V, start, end, dist0);
      if dist[end].Inf? {
        return NotFound(DIJKSTRA_TAG);
      }
      DijkstraRanked(adj, V, dist, parent, done, order, n);
      ghost var rank := DijkstraRank(V, done, order, n);
      var path := ReconstructPath(parent, start, end, rank);
      ReportFound(adj, V, start, end, dist, parent, done, order, n, rank, path);
      return PathResult(path, |path| - 1, dist[end].n, DIJKSTRA_TAG, true);
    }

    /** findPath: the path of the finder the method name selects; an unknown
        name, like a search that fails, gives the empty list. */
    method FindPath(start: string, end: string, methodName: string) returns (path: seq<string>)
      requires Valid()
      ensures methodName != "BFS" && methodName != "DFS" && methodName != "DIJKSTRA" ==> path == []
      ensures methodName == "BFS" || methodName == "DFS" || methodName == "DIJKSTRA" ==>
                (path != [] <==> start in vertexMap && end in vertexMap && Reachable(adjacencyList, start, end)) &&
                (path != [] ==> PathFromTo(adjacencyList, path, start, end))
      ensures methodName == "BFS" ==> forall p :: PathFromTo(adjacencyList, p, start, end) ==> PathLeq(path, p)
      ensures methodName == "DIJKSTRA" && path != [] ==>
                exists ws :: IsWalk(adjacencyList, path, ws) &&
                  forall p, ws' :: WalkFromTo(adjacencyList, p, ws', start, end) ==> Total(ws) <= Total(ws')
    {
      if methodName == "BFS" {
        var r := FindPathBFS(start, end);
        path := r.path;
      } else if methodName == "DFS" {
        var r := FindPathDFS(start, end);
        path := r.path;
      } else if methodName == "DIJKSTRA" {
        var r := FindShortestPath(start, end);
        path := r.path;
      } else {
        path := [];
      }
    }

    // ------------------------------------------------------------------
    // Traversals

    /** traverseBFS: the airports reachable from start, each once, start
        first, expanding each airport's routes in stored order. */
    method TraverseBFS(start: string) returns (result: seq<string>)
      requires Valid()
      ensures Distinct(result) && |result| >= 1 && result[0] == start
      ensures forall v :: v in result <==> Reachable(adjacencyList, start, v)
    {
      var adj := adjacencyList;
      result := [];
      var visited := {start};
      var q := [start];
      TravStart(adj, start);
      while q != []
        invariant TravInv(adj, start, result, q, visited)
        invariant forall v :: v in visited ==> v in vertexMap || v == start
        decreases (vertexMap.Keys + {start}) - visited, |q|
      {
        ghost var visited0, len0 := visited, |q|;
        TravPop(adj, start, result, q, visited, 0);
        var current := q[0];
        assert q[..0] + q[1..] == q[1..];
        q := q[1..];
        result := result + [current];
        var routes := RoutesOf(adj, current);
        var i := 0;
        while i < |routes|
          invariant TravMid(adj, start, result, q, visited, routes, i)
          invariant visited0 <= visited && (visited == visited0 ==> |q| == len0 - 1)
          invariant forall v :: v in visited ==> v in vertexMap || v == start
        {
          TravVisit(adj, start, result, q, visited, routes, i);
          var d := routes[i].destination;
          if d !in visited {
            visited := visited + {d};
            q := q + [d];
          }
          i := i + 1;
        }
        TravFinish(adj, start, result, q, visited, routes);
      }
      TravDone(adj, start, result, visited);
    }

    /** traverseDFS: as traverseBFS, with a stack in place of the queue. */
    method TraverseDFS(start: string) returns (result: seq<string>)
      requires Valid()
      ensures Distinct(result) && |result| >= 1 && result[0] == start
      ensures forall v :: v in result <==> Reachable(adjacencyList, start, v)
    {
      var adj := adjacencyList;
      result := [];
      var visited := {start};
      var s := [start];
      TravStart(adj, start);
      while s != []
        invariant TravInv(adj, start, result, s, visited)
        invariant forall v :: v in visited ==> v in vertexMap || v == start
        decreases (vertexMap.Keys + {start}) - visited, |s|
      {
        ghost var visited0, len0 := visited, |s|;
        var top := |s| - 1;
        TravPop(adj, start, result, s, visited, top);
        var current := s[top];
        assert s[..top] + s[top + 1..] == s[..top];
        s := s[..top];
        result := result + [current];
        var routes := RoutesOf(adj, current);
        var i := 0;
        while i < |routes|
          invariant TravMid(adj, start, result, s, visited, routes, i)
          invariant visited0 <= visited && (visited == visited0 ==> |s| == len0 - 1)
          invariant forall v :: v in visited ==> v in vertexMap || v == start
        {
          TravVisit(adj, start, result, s, visited, routes, i);
          var d := routes[i].destination;
          if d !in visited {
            visited := visited + {d};
            s := s + [d];
          }
          i := i + 1;
        }
        TravFinish(adj, start, result, s, visited, routes);
      }
      TravDone(adj, start, result, visited);
    }

    /** traverse: an unregistered start or an unknown method name gives the
        empty list; "BFS" and "DFS" select the traversal. */
    method Traverse(startAirport: string, methodName: string) returns (result: seq<string>)
      requires Valid()
      ensures startAirport !in vertexMap || (methodName != "BFS" && methodName != "DFS") ==> result == []
      ensures startAirport in vertexMap && (methodName == "BFS" || methodName == "DFS") ==>
                Distinct(result) && |result| >= 1 && result[0] == startAirport &&
                forall v :: v in result <==> Reachable(adjacencyList, startAirport, v)
    {
      if startAirport !in vertexMap {
        return [];
      }
      if methodName == "BFS" {
        result := TraverseBFS(startAirport);
      } else if methodName == "DFS" {
        result := TraverseDFS(startAirport);
      } else {
        result := [];
      }
    }

    // ------------------------------------------------------------------
    // All paths

    /** findAllPaths: every bounded route from start to end, as found by
        findAllPathsDFS from the one-airport path [start]. */
    method FindAllPaths(start: string, end: string, maxStops: int) returns (allPaths: seq<seq<string>>)
      requires Valid()
      ensures forall q :: q in allPaths <==> BoundedRoute(adjacencyList, start, end, maxStops, q)
    {
      StartSearchPath(adjacencyList, end, start);
      allPaths := FindAllPathsDFS(start, end, maxStops, 0, [start], {start}, []);
      forall q
        ensures q in allPaths <==> BoundedRoute(adjacencyList, start, end, maxStops, q)
      {
        StartExtensions(adjacencyList, start, end, maxStops, q);
      }
    }

    /** findAllPathsDFS: records the current path on reaching end; otherwise,
        while stops remain, follows each route of current, in order, to an
        airport not on the path. The source pushes onto and pops off `path`
        and `visited` around each recursive call, so every call sees them as
        its caller passed them; here they are passed by value. Recorded paths
        are appended to allPaths. */
    method FindAllPathsDFS(current: string, end: string, maxStops: int, currentStops: int,
                           path: seq<string>, visited: set<string>, allPaths: seq<seq<string>>)
        returns (result: seq<seq<string>>)
      requires Valid()
      requires SearchPath(adjacencyList, end, path, visited)
      requires path[|path| - 1] == current && currentStops == |path| - 1
      ensures |allPaths| <= |result| && result[..|allPaths|] == allPaths
      ensures forall i :: |allPaths| <= i < |result| ==> Extension(adjacencyList, end, maxStops, path, result[i])
      ensures forall q :: Extension(adjacencyList, end, maxStops, path, q) ==> q in result
      decreases vertexMap.Keys - visited
    {
      var adj := adjacencyList;
      if current == end {
        result := allPaths + [path];
        forall q | Extension(adj, end, maxStops, path, q)
          ensures q in result
        {
          EndExtensions(adj, end, maxStops, path, visited, q);
        }
        EndExtensions(adj, end, maxStops, path, visited, path);
        return;
      }
      if currentStops >= maxStops {
        forall q
          ensures !Extension(adj, end, maxStops, path, q)
        {
          NoStopsLeft(adj, end, maxStops, path, visited, q);
        }
        return allPaths;
      }
      RoutesRegistered();
      var routes := RoutesOf(adj, current);
      result := allPaths;
      var j := 0;
      while j < |routes|
        invariant j <= |routes|
        invariant |allPaths| <= |result| && result[..|allPaths|] == allPaths
        invariant forall i :: |allPaths| <= i < |result| ==> Extension(adj, end, maxStops, path, result[i])
        invariant CoveredUpTo(adj, end, maxStops, path, routes, j, result)
      {
        var y := routes[j].destination;
        if y !in visited {
          assert routes[j] in routes;
          ChildSearchPath(adj, end, path, visited, y);
          ghost var before := result;
          result := FindAllPathsDFS(y, end, maxStops, currentStops + 1, path + [y], visited + {y}, result);
          ChildStep(adj, end, maxStops, path, visited, y, allPaths, before, result);
          ChildCovered(adj, end, maxStops, path, routes, j, before, result);
        } else {
          SkipVisited(adj, end, maxStops, path, visited, routes, j, result);
        }
        j := j + 1;
      }
      forall q | Extension(adj, end, maxStops, path, q)
        ensures q in result
      {
        NextHop(adj, end, maxStops, path, visited, q);
        assert routes[..|routes|] == routes;
      }
    }

    // ------------------------------------------------------------------
    // Statistics

    /** getStatistics without the average degree. The origins are visited in
        hash-map order, so ties for the maximum or minimum go to any of them. */
    method GetStatistics() returns (stats: Statistics)
      ensures stats.totalAirports == |vertexMap|
      ensures stats.totalRoutes == TotalRoutes(adjacencyList)
      ensures MaxTracked(adjacencyList, adjacencyList.Keys, stats.maxDegree, stats.maxDegreeAirport)
      ensures MinTracked(adjacencyList, adjacencyList.Keys, stats.minDegree, stats.minDegreeAirport)
    {
      var adj := adjacencyList;
      var totalRoutes: nat := 0;
      var maxDegree: nat := 0;
      var maxAirport := "";
      var minDegree: Option<nat> := None;
      var minAirport := "";
      var remaining := adj.Keys;
      ghost var seen: set<string> := {};
      while remaining != {}
        invariant remaining + seen == adj.Keys && remaining !! seen
        invariant StatsSoFar(adj, seen, totalRoutes, maxDegree, maxAirport, minDegree, minAirport)
        decreases remaining
      {
        var k :| k in remaining;
        StatsStep(adj, seen, k, totalRoutes, maxDegree, maxAirport, minDegree, minAirport);
        var degree := |adj[k]|;
        totalRoutes := totalRoutes + degree;
        if degree > maxDegree {
          maxDegree := degree;
          maxAirport := k;
        }
        if degree > 0 && (minDegree.None? || degree < minDegree.value) {
          minDegree := Some(degree);
          minAirport := k;
        }
        seen := seen + {k};
        remaining := remaining - {k};
      }
      assert seen == adj.Keys;
      stats := Statistics(|vertexMap|, totalRoutes, maxDegree, minDegree, maxAirport, minAirport);
    }
  }
}
