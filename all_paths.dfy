/** Why findAllPathsDFS records exactly the bounded routes: a call whose
    current path is p records exactly the extensions of p. */
module AllPathsProof {
  import opened GraphSpec
  import opened GraphLemmas

  /** The paths a call with current path p may record: routes to end that
      start with p, revisit nothing, meet end only at their last airport,
      and stay within maxStops hops unless they are p itself. */
  ghost predicate Extension(adj: Adjacency, end: string, maxStops: int, p: seq<string>, q: seq<string>)
  {
    |p| <= |q| && q[..|p|] == p && IsPath(adj, q) && Distinct(q) && q[|q| - 1] == end &&
    (forall i :: 0 <= i < |q| - 1 ==> q[i] != end) && (q == p || |q| - 1 <= maxStops)
  }

  /** The current path of a call: a duplicate-free path, end nowhere but
      perhaps last, and `visited` holding exactly its airports. */
  ghost predicate SearchPath(adj: Adjacency, end: string, p: seq<string>, visited: set<string>)
  {
    p != [] && IsPath(adj, p) && Distinct(p) && (forall i :: 0 <= i < |p| - 1 ==> p[i] != end) &&
    (forall v :: v in visited <==> v in p)
  }

  /** The destinations of a list of routes. */
  ghost function Destinations(routes: seq<Route>): set<string>
  {
    set r | r in routes :: r.destination
  }

  /** The outermost call, on [start], records exactly the bounded routes. */
  lemma StartExtensions(adj: Adjacency, start: string, end: string, maxStops: int, q: seq<string>)
    ensures Extension(adj, end, maxStops, [start], q) <==> BoundedRoute(adj, start, end, maxStops, q)
  {
    if BoundedRoute(adj, start, end, maxStops, q) {
      assert q[..1] == [q[0]];
      if |q| == 1 {
        assert q == [start];
      }
    }
  }

  lemma StartSearchPath(adj: Adjacency, end: string, start: string)
    ensures SearchPath(adj, end, [start], {start})
  {
  }

  /** At end, the current path is the only extension. */
  lemma EndExtensions(adj: Adjacency, end: string, maxStops: int, p: seq<string>, visited: set<string>,
                      q: seq<string>)
    requires SearchPath(adj, end, p, visited) && p[|p| - 1] == end
    ensures Extension(adj, end, maxStops, p, q) <==> q == p
  {
    if Extension(adj, end, maxStops, p, q) {
      assert q[|p| - 1] == p[|p| - 1];
      assert |q| - 1 <= |p| - 1;
      assert q == q[..|p|];
    }
  }

  /** Away from end, every extension is longer than p, by a route out of
      p's last airport to one not on p. */
  lemma NextHop(adj: Adjacency, end: string, maxStops: int, p: seq<string>, visited: set<string>,
                q: seq<string>)
    requires SearchPath(adj, end, p, visited) && p[|p| - 1] != end
    requires Extension(adj, end, maxStops, p, q)
    ensures |q| > |p| && |p| - 1 < maxStops
    ensures q[|p|] in Destinations(RoutesOf(adj, p[|p| - 1])) && q[|p|] !in visited
  {
    assert q[|p| - 1] == p[|p| - 1];
    assert HasRoute(adj, q[|p| - 1], q[|p|]);
    var r :| r in RoutesOf(adj, q[|p| - 1]) && r.destination == q[|p|];
    forall i | 0 <= i < |p|
      ensures p[i] != q[|p|]
    {
      assert p[i] == q[i];
    }
  }

  /** Out of stops away from end: nothing to record. */
  lemma NoStopsLeft(adj: Adjacency, end: string, maxStops: int, p: seq<string>, visited: set<string>,
                    q: seq<string>)
    requires SearchPath(adj, end, p, visited) && p[|p| - 1] != end && |p| - 1 >= maxStops
    ensures !Extension(adj, end, maxStops, p, q)
  {
    if Extension(adj, end, maxStops, p, q) {
      NextHop(adj, end, maxStops, p, visited, q);
    }
  }

  /** Stepping to an unvisited destination y gives a current path again. */
  lemma ChildSearchPath(adj: Adjacency, end: string, p: seq<string>, visited: set<string>, y: string)
    requires SearchPath(adj, end, p, visited) && p[|p| - 1] != end
    requires y in Destinations(RoutesOf(adj, p[|p| - 1])) && y !in visited
    ensures SearchPath(adj, end, p + [y], visited + {y})
  {
    var r :| r in RoutesOf(adj, p[|p| - 1]) && r.destination == y;
    PathExtend(adj, p, p[0], p[|p| - 1], y);
    var c := p + [y];
    forall i, j | 0 <= i < j < |c|
      ensures c[i] != c[j]
    {
      if j == |p| {
        assert c[i] == p[i] && p[i] in p;
      } else {
        assert c[i] == p[i] && c[j] == p[j];
      }
    }
    forall i | 0 <= i < |c| - 1
      ensures c[i] != end
    {
      assert c[i] == p[i];
    }
  }

  /** The extensions of p + [y] are the extensions of p that go on to y. */
  lemma ChildExtensions(adj: Adjacency, end: string, maxStops: int, p: seq<string>, visited: set<string>,
                        y: string, q: seq<string>)
    requires SearchPath(adj, end, p, visited) && p[|p| - 1] != end && |p| - 1 < maxStops
    ensures Extension(adj, end, maxStops, p + [y], q) <==>
            Extension(adj, end, maxStops, p, q) && |q| > |p| && q[|p|] == y
  {
    if Extension(adj, end, maxStops, p + [y], q) {
      assert q[..|p|] == (p + [y])[..|p|] == p;
      assert q[|p|] == (p + [y])[|p|];
    }
    if Extension(adj, end, maxStops, p, q) && |q| > |p| && q[|p|] == y {
      assert q[..|p| + 1] == q[..|p|] + [q[|p|]];
    }
  }

  lemma DestinationsAppend(routes: seq<Route>, j: nat)
    requires j < |routes|
    ensures Destinations(routes[..j + 1]) == Destinations(routes[..j]) + {routes[j].destination}
  {
    assert routes[..j + 1] == routes[..j] + [routes[j]];
  }

  /** The paths findAllPathsDFS must have recorded once routes[..j] are looked at. */
  ghost predicate CoveredUpTo(adj: Adjacency, end: string, maxStops: int, p: seq<string>,
                              routes: seq<Route>, j: nat, result: seq<seq<string>>)
    requires j <= |routes|
  {
    forall q :: Extension(adj, end, maxStops, p, q) && |q| > |p| && q[|p|] in Destinations(routes[..j])
                ==> q in result
  }

  /** A route to an airport already on the path adds no path to record. */
  lemma SkipVisited(adj: Adjacency, end: string, maxStops: int, p: seq<string>, visited: set<string>,
                    routes: seq<Route>, j: nat, result: seq<seq<string>>)
    requires SearchPath(adj, end, p, visited) && p[|p| - 1] != end
    requires j < |routes| && routes[j].destination in visited
    requires CoveredUpTo(adj, end, maxStops, p, routes, j, result)
    ensures CoveredUpTo(adj, end, maxStops, p, routes, j + 1, result)
  {
    DestinationsAppend(routes, j);
    forall q | Extension(adj, end, maxStops, p, q) && |q| > |p| && q[|p|] in Destinations(routes[..j + 1])
      ensures q in result
    {
      NextHop(adj, end, maxStops, p, visited, q);
    }
  }

  /** After the recursive call for routes[j]: its paths are recorded too. */
  lemma ChildCovered(adj: Adjacency, end: string, maxStops: int, p: seq<string>,
                     routes: seq<Route>, j: nat, before: seq<seq<string>>, after: seq<seq<string>>)
    requires j < |routes| && CoveredUpTo(adj, end, maxStops, p, routes, j, before)
    requires forall q :: q in before ==> q in after
    requires forall q :: Extension(adj, end, maxStops, p, q) && |q| > |p| && q[|p|] == routes[j].destination
                         ==> q in after
    ensures CoveredUpTo(adj, end, maxStops, p, routes, j + 1, after)
  {
    DestinationsAppend(routes, j);
  }

  /** After the recursive call for route destination y: what the loop of
      findAllPathsDFS knows about its recorded paths still holds, now
      counting y among the destinations followed. */
  lemma ChildStep(adj: Adjacency, end: string, maxStops: int, p: seq<string>, visited: set<string>,
                  y: string, allPaths: seq<seq<string>>, before: seq<seq<string>>, after: seq<seq<string>>)
    requires SearchPath(adj, end, p, visited) && p[|p| - 1] != end && |p| - 1 < maxStops
    requires |allPaths| <= |before| && before[..|allPaths|] == allPaths
    requires forall i :: |allPaths| <= i < |before| ==> Extension(adj, end, maxStops, p, before[i])
    requires |before| <= |after| && after[..|before|] == before
    requires forall i :: |before| <= i < |after| ==> Extension(adj, end, maxStops, p + [y], after[i])
    requires forall q :: Extension(adj, end, maxStops, p + [y], q) ==> q in after
    ensures |allPaths| <= |after| && after[..|allPaths|] == allPaths
    ensures forall i :: |allPaths| <= i < |after| ==> Extension(adj, end, maxStops, p, after[i])
    ensures forall q :: Extension(adj, end, maxStops, p, q) && |q| > |p| && q[|p|] == y ==> q in after
    ensures forall q :: q in before ==> q in after
  {
    assert after[..|allPaths|] == after[..|before|][..|allPaths|];
    forall i | |allPaths| <= i < |after|
      ensures Extension(adj, end, maxStops, p, after[i])
    {
      if i < |before| {
        assert after[i] == before[i];
      } else {
        ChildExtensions(adj, end, maxStops, p, visited, y, after[i]);
      }
    }
    forall q | Extension(adj, end, maxStops, p, q) && |q| > |p| && q[|p|] == y
      ensures q in after
    {
      ChildExtensions(adj, end, maxStops, p, visited, y, q);
    }
    forall q | q in before
      ensures q in after
    {
      var k :| 0 <= k < |before| && before[k] == q;
      assert after[k] == q;
    }
  }

  /** Raising the hop bound keeps every route recorded under the lower one. */
  lemma BoundedRouteMonotone(adj: Adjacency, start: string, end: string, maxStops: int, q: seq<string>)
    requires BoundedRoute(adj, start, end, maxStops, q)
    ensures BoundedRoute(adj, start, end, maxStops + 1, q)
  {
  }
}
