# Flight-route graph engine in Dafny

This project models the graph engine of a flight-route planner, `FlightRouteGraph` in
`flight_route_system.cpp`. Airports are vertices keyed by their code. Flights are
directed, weighted routes, and parallel routes between the same pair are allowed. The model
also covers four free text helpers: `parseCSVLine`, which the CSV loaders use, and `trim`,
`toUpperCase` and `isValidAirportCode`, which the menu uses to clean and check airport codes.
Each operation is proved against a
specification of what it computes:

- **Graph store** (`FlightGraph.FlightRouteGraph`). The class has two fields, both Dafny maps:
  - `vertexMap`: code → Airport.
  - `adjacencyList`: code → routes in insertion order.

  The `Valid()` invariant says both maps register the same codes and that every route leads
  to a registered code. Every mutator preserves it.

  The mutators are `AddVertex` (first write wins), `AddEdge` (always appends, even an
  identical route) and `RemoveEdge` (deletes every route to the target and keeps the rest in
  order). The queries are `HasVertex`, `HasEdge`, `Indegree`, `Outdegree` and `GetNeighbors`.
- **Path finders.**
  - `FindPathBFS` returns the least start → end path in shortlex order: the fewest hops, with
    ties broken by `std::string` order. This follows from expanding the neighbour codes as a
    sorted `std::set`.
  - `FindPathDFS` returns a correct path.
  - `FindShortestPath` (Dijkstra with a lazy-deletion priority queue, modelled as a multiset)
    returns a path whose reported distance no weighted start → end walk beats.
  - For all three, `found` holds exactly when both codes are registered and end is reachable.
  - `ReconstructPath` and `CalculatePathDistance` are the shared helpers.
  - `FindPath` dispatches on the method name.
- **Traversals.** `TraverseBFS` and `TraverseDFS` return each airport reachable from the start
  exactly once, start first.
- **Path enumeration.** `FindAllPaths` returns exactly the simple start → end paths within the
  hop bound that meet end only at their last airport.
- **Statistics.** `GetStatistics` returns the airport count, the route count (the sum of all
  out-degrees), and the largest out-degree and smallest non-zero out-degree with an airport
  having each.
- **Text helpers** (`TextUtils`). They cover parseCSVLine, trim, toUpperCase and
  isValidAirportCode.

## Modules

| file | module | content |
|---|---|---|
| set_sum.dfy | SetSum | sums over finite sets, used for degrees and route counts |
| string_order.dfy | StringOrder | `std::string` order, shortlex order on paths, sorted insertion |
| graph_spec.dfy | GraphSpec | entities, paths, walks, reachability, result specifications |
| graph_lemmas.dfy | GraphLemmas | path and walk algebra, degree bookkeeping, cross-algorithm lemmas |
| path_tree.dfy | PathTree | parent chains followed by reconstructPath |
| search_tree.dfy | SearchTree | the invariant shared by the BFS and DFS path finders |
| bfs_proof.dfy, dfs_proof.dfy | BfsProof, DfsProof | loop invariants of findPathBFS and findPathDFS |
| traversal_proof.dfy | TraversalProof | loop invariants of traverseBFS and traverseDFS |
| dijkstra_proof.dfy | DijkstraProof | loop invariants and termination of findShortestPath |
| all_paths.dfy | AllPathsProof | what each call of findAllPathsDFS records |
| flight_graph.dfy | FlightGraph | the class and the loops it runs |
| text_utils.dfy | TextUtils | the free text helpers |
| scenario.dfy | Scenario | the four-airport example and the empty graph |

## Model

| member | source | states |
|---|---|---|
| FlightGraph.FlightRouteGraph.constructor | flight_route_system.cpp:88-91 | a new graph has no airports and no routes |
| FlightGraph.FlightRouteGraph.AddVertex | flight_route_system.cpp:133-142 | an existing code changes neither its record nor its routes; a new code gets its record and an empty route list; Valid() is kept |
| FlightGraph.FlightRouteGraph.AddEdge | flight_route_system.cpp:144-168 | nothing changes unless both ends are registered; otherwise exactly one route is appended to the origin's list, even when an identical one exists; the route count and the target's in-degree each grow by one |
| FlightGraph.EraseRoutesTo | flight_route_system.cpp:190-202 | the erase-while-iterating loop deletes every route to the target and keeps the others in order; found says whether one was deleted |
| FlightGraph.FlightRouteGraph.RemoveEdge | flight_route_system.cpp:178-208 | an unregistered end gives false and no change; otherwise the origin's routes to the target are all gone and the others keep their order; found is true exactly when one existed; afterwards no route joins the pair; the route count drops by the number deleted |
| FlightGraph.FlightRouteGraph.HasVertex | flight_route_system.cpp:215-217 | true exactly when the code is registered, i.e. has an adjacency entry |
| FlightGraph.FlightRouteGraph.HasEdge | flight_route_system.cpp:225-245 | true exactly when the origin is registered and some stored route, of any carrier, goes to the target |
| FlightGraph.FlightRouteGraph.Indegree | flight_route_system.cpp:252-277 | -1 for an unregistered code; otherwise the number of stored routes, over all origins, that end at the code |
| FlightGraph.CountInbound | flight_route_system.cpp:259-272 | the loop over all origins adds up, per origin, the routes ending at the code: the in-degree |
| FlightGraph.CountRoutesTo | flight_route_system.cpp:267-271 | the inner loop counts exactly the routes of one list that end at the code |
| FlightGraph.FlightRouteGraph.Outdegree | flight_route_system.cpp:282-295 | -1 for an unregistered code; otherwise the length of the code's route list |
| FlightGraph.FlightRouteGraph.GetNeighbors | flight_route_system.cpp:299-304 | the code's stored route list, duplicates included, or empty; every route returned leads to a registered airport |
| FlightGraph.FlightRouteGraph.ReconstructPath | flight_route_system.cpp:93-109 | the path is the parent chain from start to end in start-to-end order, or empty when a link is missing |
| FlightGraph.FlightRouteGraph.CalculatePathDistance | flight_route_system.cpp:112-128 | the sum of the first-match route distance for each hop (0 for a hop with no route); for a path of routes this is the total of a walk along it |
| FlightGraph.FirstRouteDistance | flight_route_system.cpp:119-124 | the inner loop takes the distance of the first route to the next airport, or adds nothing when there is none |
| FlightGraph.SortedNeighbors | flight_route_system.cpp:338-341 | the std::set of destination codes: strictly increasing, holding each destination exactly once |
| FlightGraph.ExpandNeighbors | flight_route_system.cpp:343-349 | each unvisited neighbour, in increasing order, is marked visited, gets current as parent and is queued at the back |
| FlightGraph.FlightRouteGraph.FindPathBFS | flight_route_system.cpp:308-354 | the algorithm tag is set; found exactly when both codes are registered and end is reachable; a found path runs from start to end over stored routes, stops is hops, the distance is the first-match sum, and no start → end path is shortlex-smaller; not found gives the default result |
| FlightGraph.FlightRouteGraph.FindPathDFS | flight_route_system.cpp:357-403 | as FindPathBFS without the optimality clause |
| FlightGraph.AllUnreached | flight_route_system.cpp:432-434 | every registered airport starts at infinity (INT_MAX) and no other key is present |
| FlightGraph.RelaxRoutes | flight_route_system.cpp:454-463 | relaxing each route of u in order keeps the Dijkstra invariant; no infinity comes back, and while none is removed the finite distances plus the queue size never grow |
| FlightGraph.Settle | flight_route_system.cpp:440-463 | popping a current, non-stale entry and relaxing its airport's routes keeps the Dijkstra invariant and decreases the termination measure |
| FlightGraph.ShortestDistances | flight_route_system.cpp:431-464 | when the loop stops, the parent links form start-rooted chains of stored routes whose totals are the distances; end is infinite exactly when unreachable, and otherwise no start → end walk is shorter |
| FlightGraph.FlightRouteGraph.FindShortestPath | flight_route_system.cpp:418-477 | found exactly when both codes are registered and end is reachable; a found path runs from start to end, stops is hops, the distance is the total of a walk along the path, and no start → end walk is shorter; not found gives the default result |
| FlightGraph.FlightRouteGraph.FindPath | flight_route_system.cpp:406-415 | an unknown method name gives the empty path; for BFS, DFS and DIJKSTRA the path is non-empty exactly when both codes are registered and end is reachable, and then runs from start to end; BFS gives the shortlex-least path, DIJKSTRA a path with a weight-minimal walk |
| FlightGraph.FlightRouteGraph.TraverseBFS | flight_route_system.cpp:641-663 | no airport twice, start first, and an airport is listed exactly when it is reachable from start; the contract gives the set of airports and the first one, not the queue's level order |
| FlightGraph.FlightRouteGraph.TraverseDFS | flight_route_system.cpp:665-687 | the same guarantees as TraverseBFS, proved for the stack-driven loop; like it, the contract does not fix the output order, so the two rows do not tell BFS from DFS |
| FlightGraph.FlightRouteGraph.Traverse | flight_route_system.cpp:627-639 | empty for an unregistered start or an unknown method name; otherwise the traversal the name selects, with its guarantees |
| FlightGraph.FlightRouteGraph.FindAllPaths | flight_route_system.cpp:815-826 | a sequence is listed exactly when it is a start → end path of stored routes with no repeated airport, meeting end only at its last airport, and with at most maxStops hops (or the one-airport path when start is end) |
| FlightGraph.FlightRouteGraph.FindAllPathsDFS | flight_route_system.cpp:828-852 | the entries already listed stay in place; each new entry extends the current path; every bounded extension of the current path is listed |
| AllPathsProof.BoundedRouteMonotone | flight_route_system.cpp:835-837 | a route listed under hop bound k is listed under bound k + 1 |
| FlightGraph.FlightRouteGraph.GetStatistics | flight_route_system.cpp:854-873 | the airport count; the route count as the sum of all out-degrees; the maximum out-degree, at least every out-degree, with an origin having it; the least non-zero out-degree with an origin having it, or none when no origin has a route |
| FlightGraph.StatsStep | flight_route_system.cpp:861-872 | one iteration of the statistics loop keeps the running sums, maximum and minimum correct for the origins seen |
| GraphLemmas.BfsUnique | flight_route_system.cpp:308-354 | two results meeting the BFS guarantee for the same query are equal: the shortlex-least path fixes findPathBFS's answer, including its stops and distance |
| GraphLemmas.BfsNoMoreStopsThanDfs | flight_route_system.cpp:308-403 | when DFS finds a path, BFS finds one with no more stops |
| GraphLemmas.DijkstraNoLongerThanBfs | flight_route_system.cpp:308-354 | when BFS finds a path, Dijkstra finds one whose distance is no larger |
| Scenario.BfsExample | flight_route_system.cpp:308-354 | on A→B (100), B→D (100), A→C (50), C→D (40) every BFS result from A to D is A, B, D with 2 stops and distance 200 |
| Scenario.DijkstraExample | flight_route_system.cpp:418-477 | on the same graph every Dijkstra result from A to D is A, C, D with 2 stops and distance 90 |
| Scenario.Example | flight_route_system.cpp:133-168 | building the example with addVertex and addEdge, then searching, gives those two results |
| Scenario.RemoveExample | flight_route_system.cpp:178-208 | after removeEdge(A, B) on the example the edge is gone and A's out-degree is 1 |
| Scenario.EmptyGraph | flight_route_system.cpp:252-296 | on the empty graph the searches find nothing, traverse gives nothing, removeEdge and hasEdge give false, and the degrees give -1 |
| TextUtils.ParseCsvLine | flight_route_system.cpp:974-994 | the fields are those of the left-to-right scan: a quote toggles quoting, an unquoted comma ends a field, CR and LF are dropped |
| TextUtils.ParseJoin | flight_route_system.cpp:974-994 | parsing fields written with commas between them, none holding a quote, comma, CR or LF, gives back the same fields |
| TextUtils.FieldsShape | flight_route_system.cpp:974-994 | a line has one field more than it has commas outside quotes, and no field holds a quote, CR or LF |
| TextUtils.Trim | flight_route_system.cpp:1002-1007 | the result is "" exactly when the input is all blanks (space, tab, LF, CR); otherwise it is the slice of the input between a blank prefix and a blank suffix, starting and ending with a non-blank |
| TextUtils.TrimIdempotent | flight_route_system.cpp:1002-1007 | trimming a trimmed string changes nothing |
| TextUtils.ToUpperCase | flight_route_system.cpp:996-999 | each character passes through toupper in the C locale |
| TextUtils.IsValidAirportCode | flight_route_system.cpp:1010-1016 | true exactly when the code has three characters, each an ASCII letter |
| TextUtils.UpperCaseCode | flight_route_system.cpp:996-1016 | upper-casing keeps a code valid or invalid, and a second pass changes nothing |

## Left out

- calculateDistance (floating-point Haversine), loadAirports, loadRoutes and loadDataset are left out. The loaders do file I/O with `stoi`/`stod` and exceptions; they would only call addVertex and addEdge per record.
- The display functions, comparePathFindingAlgorithms, validateAirportInput, getAirportInfo, the menu and main are left out. They are console I/O.
- The `cerr` diagnostics of the mutators are left out; only return values and state changes are modelled.
- avgDegree of getStatistics is left out because it is a double. Airport latitude and longitude are carried as `real` values that nothing computes with.
- AddEdge: distances are `nat`, and `distance[u] + route.distance` in findShortestPath is unbounded. The source's 32-bit `int` wrap-around and its negative distances are not modelled. INT_MAX is modelled as the separate value `Inf`, so a genuine distance of INT_MAX is not confused with "unreached".
- FindShortestPath: the order in which `std::priority_queue` breaks ties between equal distances is not modelled. Any least entry may be popped, so the path is proved optimal but not pinned to the one the source picks among equal-weight paths.
- FindAllPaths: the contract states which sequences are listed, not how many times or in what order. The source lists a path once per choice of parallel routes along it, so duplicates are possible.
- FindAllPathsDFS: the source pushes onto and pops from a shared `path` vector and `visited` set around each recursive call. The model passes them by value, so "each call leaves them as it found them" holds by construction rather than being proved of the push/pop code.
- ReconstructPath: the source pushes codes from end back to start and then reverses. The model prepends, which gives the same sequence. A ghost ranking of the parent map stands for the acyclicity without which the source loop need not end.
- Unordered-map iteration order is nondeterministic in the model, so Indegree, GetStatistics and AllUnreached visit keys in an arbitrary order. GetStatistics therefore reports *an* origin having the maximum or minimum degree, not a specific one.
- `adjacencyList[x]` inserts an empty list for a missing key in the source, in traverseBFS/DFS, calculatePathDistance and findAllPathsDFS. The model reads a missing key as the empty list without inserting it; no observable result depends on the insertion.
- the `routeExists` scan in addEdge has no effect on the graph and is not modelled.
- ToUpperCase: modelled for the C locale only (ASCII letters). Other locales are not modelled.
- IsAlpha: `isalpha` on a negative `char` is undefined behaviour in C++; the model's characters have no sign.
- TraverseBFS, TraverseDFS: the contracts give the set of airports output and that start comes first, not the order of the rest (the queue's level order, the stack's order), so they do not distinguish the two traversals.

## Notes on the source

- traverseBFS and traverseDFS (flight_route_system.cpp:641-687) expand the raw route list in insertion order, unlike findPathBFS and findPathDFS, which first collect the destinations into a sorted set. A description of the traversals as sorted and de-duplicated does not match this code. The model follows the code; the traversal contracts hold whatever the expansion order.
- findAllPaths does not check that start and end are registered. The model keeps this: with start equal to end the one-airport path is listed even for an unregistered code.
