/** The value side of the flight-route multigraph: airports, routes,
    results, and the graph-theoretic notions the algorithms are proved
    against (stored routes, paths, weighted walks, reachability). The
    adjacency store maps an origin code to its routes in insertion order;
    a code with no entry has no routes. */
module GraphSpec {
  import opened SetSum
  import opened StringOrder

  datatype Option<T> = None | Some(value: T)

  /** An airport as stored in the vertex registry. Latitude and longitude are
      carried as given; no operation of the model computes with them. */
  datatype Airport = Airport(code: string, name: string, id: int, city: string,
                             country: string, latitude: real, longitude: real)

  /** A stored flight: its destination, its distance and its carrier. */
  datatype Route = Route(destination: string, distance: nat, airline: string)

  /** A priority-queue entry of findShortestPath: an airport and the
      tentative distance it was pushed with. */
  datatype NodeDistance = NodeDistance(airport: string, distance: nat)

  type Adjacency = map<string, seq<Route>>

  /** What a path query reports. */
  datatype PathResult = PathResult(path: seq<string>, stops: int, totalDistance: nat,
                                   algorithm: string, found: bool)

  /** The aggregate metrics of getStatistics (without the average degree).
      minDegree is None where the source leaves INT_MAX: no airport has a route. */
  datatype Statistics = Statistics(totalAirports: nat, totalRoutes: nat,
                                   maxDegree: nat, minDegree: Option<nat>,
                                   maxDegreeAirport: string, minDegreeAirport: string)

  const BFS_TAG := "BFS (Breadth-First Search)"
  const DFS_TAG := "DFS (Depth-First Search)"
  const DIJKSTRA_TAG := "Dijkstra (Shortest Path)"

  /** A default PathResult with only its algorithm set. */
  function NotFound(algorithm: string): (r: PathResult)
    ensures !r.found && r.path == [] && r.algorithm == algorithm
  {
    PathResult([], 0, 0, algorithm, false)
  }

  /** The routes leaving v; a code without an entry has none. */
  function RoutesOf(adj: Adjacency, v: string): seq<Route>
  {
    if v in adj then adj[v] else []
  }

  /** Some stored route goes from u to v. */
  ghost predicate HasRoute(adj: Adjacency, u: string, v: string)
  {
    exists r :: r in RoutesOf(adj, u) && r.destination == v
  }

  /** Some stored route goes from u to v and has distance w. */
  ghost predicate HasRouteOfLength(adj: Adjacency, u: string, v: string, w: nat)
  {
    exists r :: r in RoutesOf(adj, u) && r.destination == v && r.distance == w
  }

  /** A non-empty vertex sequence whose every consecutive pair is a stored route. */
  ghost predicate IsPath(adj: Adjacency, p: seq<string>)
  {
    |p| >= 1 && forall i :: 0 <= i < |p| - 1 ==> HasRoute(adj, p[i], p[i + 1])
  }

  ghost predicate PathFromTo(adj: Adjacency, p: seq<string>, s: string, t: string)
  {
    IsPath(adj, p) && p[0] == s && p[|p| - 1] == t
  }

  ghost predicate Reachable(adj: Adjacency, s: string, t: string)
  {
    exists p :: PathFromTo(adj, p, s, t)
  }

  /** A path together with the distance of the route chosen for each hop. */
  ghost predicate IsWalk(adj: Adjacency, p: seq<string>, ws: seq<nat>)
  {
    |p| == |ws| + 1 &&
    forall i :: 0 <= i < |ws| ==> HasRouteOfLength(adj, p[i], p[i + 1], ws[i])
  }

  ghost predicate WalkFromTo(adj: Adjacency, p: seq<string>, ws: seq<nat>, s: string, t: string)
  {
    IsWalk(adj, p, ws) && p[0] == s && p[|p| - 1] == t
  }

  /** The sum of a sequence of distances. */
  function Total(ws: seq<nat>): nat
  {
    if ws == [] then 0 else Total(ws[..|ws| - 1]) + ws[|ws| - 1]
  }

  /** No vertex occurs twice. */
  ghost predicate Distinct(s: seq<string>)
  {
    forall i, j :: 0 <= i < j < |s| ==> s[i] != s[j]
  }

  /** Every route leaving a member of S ends in S. */
  ghost predicate ClosedUnderRoutes(adj: Adjacency, S: set<string>)
  {
    forall u, r :: u in S && r in RoutesOf(adj, u) ==> r.destination in S
  }

  /** The distance of the first route of `routes` that goes to `to`, the weight
      calculatePathDistance takes for a hop; None when no route goes there. */
  function FirstDistance(routes: seq<Route>, to: string): (r: Option<nat>)
    ensures r.None? <==> forall i :: 0 <= i < |routes| ==> routes[i].destination != to
    ensures r.Some? ==> exists i :: 0 <= i < |routes| && routes[i].destination == to &&
                                    routes[i].distance == r.value &&
                                    forall j :: 0 <= j < i ==> routes[j].destination != to
  {
    if routes == [] then None
    else if routes[0].destination == to then Some(routes[0].distance)
    else
      var r := FirstDistance(routes[1..], to);
      assert forall i :: 0 <= i < |routes| - 1 ==> routes[1..][i] == routes[i + 1];
      r
  }

  /** The weight calculatePathDistance adds for the hop u -> v (0 if there is no route). */
  function HopDistance(adj: Adjacency, u: string, v: string): nat
  {
    match FirstDistance(RoutesOf(adj, u), v)
    case Some(w) => w
    case None => 0
  }

  /** The per-hop first-match weights of a vertex sequence. */
  function HopWeights(adj: Adjacency, p: seq<string>): (ws: seq<nat>)
    ensures |p| >= 1 ==> |ws| == |p| - 1
  {
    if |p| < 2 then []
    else HopWeights(adj, p[..|p| - 1]) + [HopDistance(adj, p[|p| - 2], p[|p| - 1])]
  }

  /** The total distance the unweighted path finders report for a path. */
  function PathDistance(adj: Adjacency, p: seq<string>): nat
  {
    Total(HopWeights(adj, p))
  }

  /** How many of the routes go to `to`. */
  function CountTo(routes: seq<Route>, to: string): nat
  {
    if routes == [] then 0
    else CountTo(routes[..|routes| - 1], to) + (if routes[|routes| - 1].destination == to then 1 else 0)
  }

  /** The routes left after deleting every route to `to`, in their original order. */
  function RemoveTo(routes: seq<Route>, to: string): seq<Route>
  {
    if routes == [] then []
    else (if routes[0].destination == to then [] else [routes[0]]) + RemoveTo(routes[1..], to)
  }

  /** Number of stored routes, over all origins, whose destination is `code`. */
  ghost function InDegree(adj: Adjacency, code: string): nat
  {
    Sum(adj.Keys, k => CountTo(RoutesOf(adj, k), code))
  }

  /** Number of stored routes: the sum of all out-degrees. */
  ghost function TotalRoutes(adj: Adjacency): nat
  {
    Sum(adj.Keys, k => |RoutesOf(adj, k)|)
  }

  // ---------------------------------------------------------------------
  // Result specifications of the three path finders.

  /** A found result names a path from start to end and its hop count. */
  ghost predicate FoundPath(adj: Adjacency, start: string, end: string, r: PathResult)
  {
    PathFromTo(adj, r.path, start, end) && r.stops == |r.path| - 1
  }

  /** found is reported exactly when both codes are registered and end is reachable. */
  ghost predicate FoundIffReachable(adj: Adjacency, vertices: set<string>, start: string,
                                    end: string, r: PathResult)
  {
    r.found <==> start in vertices && end in vertices && Reachable(adj, start, end)
  }

  /** What findPathBFS guarantees: the reported path is the least start -> end
      path in shortlex order, so in particular it has the fewest hops. */
  ghost predicate BfsResult(adj: Adjacency, vertices: set<string>, start: string,
                            end: string, r: PathResult)
  {
    r.algorithm == BFS_TAG &&
    FoundIffReachable(adj, vertices, start, end, r) &&
    (r.found ==> FoundPath(adj, start, end, r) && r.totalDistance == PathDistance(adj, r.path) &&
                 forall p :: PathFromTo(adj, p, start, end) ==> PathLeq(r.path, p)) &&
    (!r.found ==> r == NotFound(BFS_TAG))
  }

  /** What findPathDFS guarantees: a correct path, no optimality. */
  ghost predicate DfsResult(adj: Adjacency, vertices: set<string>, start: string,
                            end: string, r: PathResult)
  {
    r.algorithm == DFS_TAG &&
    FoundIffReachable(adj, vertices, start, end, r) &&
    (r.found ==> FoundPath(adj, start, end, r) && r.totalDistance == PathDistance(adj, r.path)) &&
    (!r.found ==> r == NotFound(DFS_TAG))
  }

  /** What findShortestPath guarantees: the reported distance is that of the
      reported path under some choice of parallel routes, and no weighted
      start -> end walk is shorter. */
  ghost predicate DijkstraResult(adj: Adjacency, vertices: set<string>, start: string,
                                 end: string, r: PathResult)
  {
    r.algorithm == DIJKSTRA_TAG &&
    FoundIffReachable(adj, vertices, start, end, r) &&
    (r.found ==> FoundPath(adj, start, end, r) &&
                 (exists ws :: IsWalk(adj, r.path, ws) && Total(ws) == r.totalDistance) &&
                 forall p, ws :: WalkFromTo(adj, p, ws, start, end) ==> r.totalDistance <= Total(ws)) &&
    (!r.found ==> r == NotFound(DIJKSTRA_TAG))
  }

  /** What findAllPaths records: the duplicate-free start -> end paths that
      meet end only at their last airport and take at most maxStops hops;
      when start is end, only the one-airport path, whatever maxStops is. */
  ghost predicate BoundedRoute(adj: Adjacency, start: string, end: string, maxStops: int, q: seq<string>)
  {
    PathFromTo(adj, q, start, end) && Distinct(q) && (forall i :: 0 <= i < |q| - 1 ==> q[i] != end) &&
    (|q| == 1 || |q| - 1 <= maxStops)
  }
}
