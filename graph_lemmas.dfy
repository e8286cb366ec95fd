/** Facts about paths, walks, first-match distances and route deletion that
    the algorithms' proofs, and the comparisons between them, rest on. */
module GraphLemmas {
  import opened SetSum
  import opened StringOrder
  import opened GraphSpec

  lemma TotalAppend(ws: seq<nat>, w: nat)
    ensures Total(ws + [w]) == Total(ws) + w
  {
    assert (ws + [w])[..|ws|] == ws;
  }

  /** A distance prefix never weighs more than the whole. */
  lemma {:induction false} TotalPrefix(ws: seq<nat>, k: nat)
    requires k <= |ws|
    ensures Total(ws[..k]) <= Total(ws)
    decreases |ws|
  {
    if k < |ws| {
      var init := ws[..|ws| - 1];
      assert init[..k] == ws[..k];
      TotalPrefix(init, k);
    } else {
      assert ws[..k] == ws;
    }
  }

  lemma PathPrefix(adj: Adjacency, p: seq<string>, k: nat)
    requires IsPath(adj, p) && 1 <= k <= |p|
    ensures IsPath(adj, p[..k])
  {
    forall i | 0 <= i < k - 1
      ensures HasRoute(adj, p[..k][i], p[..k][i + 1])
    {
      assert p[..k][i] == p[i] && p[..k][i + 1] == p[i + 1];
    }
  }

  lemma WalkPrefix(adj: Adjacency, p: seq<string>, ws: seq<nat>, k: nat)
    requires IsWalk(adj, p, ws) && k <= |ws|
    ensures IsWalk(adj, p[..k + 1], ws[..k])
  {
    forall i | 0 <= i < k
      ensures HasRouteOfLength(adj, p[..k + 1][i], p[..k + 1][i + 1], ws[..k][i])
    {
      assert p[..k + 1][i] == p[i] && p[..k + 1][i + 1] == p[i + 1] && ws[..k][i] == ws[i];
    }
  }

  /** Appending a stored route to a path gives a path. */
  lemma PathExtend(adj: Adjacency, p: seq<string>, s: string, u: string, v: string)
    requires PathFromTo(adj, p, s, u) && HasRoute(adj, u, v)
    ensures PathFromTo(adj, p + [v], s, v)
  {
    var q := p + [v];
    forall i | 0 <= i < |q| - 1
      ensures HasRoute(adj, q[i], q[i + 1])
    {
      if i < |p| - 1 {
        assert q[i] == p[i] && q[i + 1] == p[i + 1];
      }
    }
  }

  /** Every vertex reachable from a member of a route-closed set is in it. */
  lemma {:induction false} ClosedContainsReachable(adj: Adjacency, S: set<string>, p: seq<string>,
                                                   s: string, t: string)
    requires ClosedUnderRoutes(adj, S) && s in S && PathFromTo(adj, p, s, t)
    ensures t in S
    decreases |p|
  {
    if |p| > 1 {
      var u := p[|p| - 2];
      PathPrefix(adj, p, |p| - 1);
      ClosedContainsReachable(adj, S, p[..|p| - 1], s, u);
      assert HasRoute(adj, u, t);
      var r :| r in RoutesOf(adj, u) && r.destination == t;
    }
  }

  /** A walk forgets to a path. */
  lemma WalkIsPath(adj: Adjacency, p: seq<string>, ws: seq<nat>)
    requires IsWalk(adj, p, ws)
    ensures IsPath(adj, p)
  {
    forall i | 0 <= i < |p| - 1
      ensures HasRoute(adj, p[i], p[i + 1])
    {
      assert HasRouteOfLength(adj, p[i], p[i + 1], ws[i]);
    }
  }

  /** The first-match distance of a hop that has a route is the distance of one of its routes. */
  lemma HopDistanceIsRoute(adj: Adjacency, u: string, v: string)
    requires HasRoute(adj, u, v)
    ensures HasRouteOfLength(adj, u, v, HopDistance(adj, u, v))
  {
    var routes := RoutesOf(adj, u);
    var r :| r in routes && r.destination == v;
    var k :| 0 <= k < |routes| && routes[k] == r;
    var fd := FirstDistance(routes, v);
    assert fd.Some?;
    var i :| 0 <= i < |routes| && routes[i].destination == v && routes[i].distance == fd.value;
    assert routes[i] in routes;
  }

  /** A walk extended by one weighted route is a walk. */
  lemma WalkExtend(adj: Adjacency, p: seq<string>, ws: seq<nat>, v: string, w: nat)
    requires IsWalk(adj, p, ws) && |p| >= 1 && HasRouteOfLength(adj, p[|p| - 1], v, w)
    ensures IsWalk(adj, p + [v], ws + [w])
  {
    var p', ws' := p + [v], ws + [w];
    forall i | 0 <= i < |ws'|
      ensures HasRouteOfLength(adj, p'[i], p'[i + 1], ws'[i])
    {
      if i < |ws| {
        assert p'[i] == p[i] && p'[i + 1] == p[i + 1] && ws'[i] == ws[i];
      }
    }
  }

  /** The weights calculatePathDistance uses for a path are those of real routes:
      the reported distance of a path is the distance of a weighted walk. */
  lemma {:induction false} HopWeightsWalk(adj: Adjacency, p: seq<string>)
    requires IsPath(adj, p)
    ensures IsWalk(adj, p, HopWeights(adj, p))
    decreases |p|
  {
    if |p| >= 2 {
      var init := p[..|p| - 1];
      PathPrefix(adj, p, |p| - 1);
      HopWeightsWalk(adj, init);
      HopDistanceIsRoute(adj, p[|p| - 2], p[|p| - 1]);
      assert init[|init| - 1] == p[|p| - 2];
      WalkExtend(adj, init, HopWeights(adj, init), p[|p| - 1], HopDistance(adj, p[|p| - 2], p[|p| - 1]));
      assert p == init + [p[|p| - 1]];
    }
  }

  /** A vertex sequence is a path exactly when it has a weighted walk. */
  lemma PathHasWalk(adj: Adjacency, p: seq<string>)
    requires IsPath(adj, p)
    ensures exists ws :: IsWalk(adj, p, ws) && Total(ws) == PathDistance(adj, p)
  {
    HopWeightsWalk(adj, p);
  }

  /** A scan that meets its first route to `to` at index j has found the
      first-match distance. */
  lemma FirstDistanceAt(routes: seq<Route>, to: string, j: nat)
    requires j < |routes| && routes[j].destination == to
    requires forall k :: 0 <= k < j ==> routes[k].destination != to
    ensures FirstDistance(routes, to) == Some(routes[j].distance)
  {
    var r := FirstDistance(routes, to);
    var i :| 0 <= i < |routes| && routes[i].destination == to && routes[i].distance == r.value &&
             forall k :: 0 <= k < i ==> routes[k].destination != to;
    assert i == j;
  }

  // ---------------------------------------------------------------------
  // Route deletion.

  lemma {:induction false} RemoveToAppend(a: seq<Route>, b: seq<Route>, to: string)
    ensures RemoveTo(a + b, to) == RemoveTo(a, to) + RemoveTo(b, to)
    decreases |a|
  {
    if a != [] {
      assert (a + b)[1..] == a[1..] + b;
      RemoveToAppend(a[1..], b, to);
    } else {
      assert a + b == b;
    }
  }

  /** Deleting the routes to `to` keeps exactly the other routes. */
  lemma {:induction false} RemoveToMembers(s: seq<Route>, to: string)
    ensures forall r :: r in RemoveTo(s, to) <==> r in s && r.destination != to
    decreases |s|
  {
    if s != [] {
      RemoveToMembers(s[1..], to);
      assert s == [s[0]] + s[1..];
    }
  }

  /** Counting the other way round: CountTo from the front. */
  lemma {:induction false} CountToCons(r: Route, s: seq<Route>, to: string)
    ensures CountTo([r] + s, to) == (if r.destination == to then 1 else 0) + CountTo(s, to)
    decreases |s|
  {
    if s != [] {
      var s' := s[..|s| - 1];
      assert ([r] + s)[..|[r] + s| - 1] == [r] + s';
      CountToCons(r, s', to);
    } else {
      assert ([r] + s)[..0] == [];
    }
  }

  /** Deleting the routes to `to` removes exactly CountTo of them. */
  lemma {:induction false} RemoveToLength(s: seq<Route>, to: string)
    ensures |RemoveTo(s, to)| + CountTo(s, to) == |s|
    decreases |s|
  {
    if s != [] {
      RemoveToLength(s[1..], to);
      assert s == [s[0]] + s[1..];
      CountToCons(s[0], s[1..], to);
    }
  }

  /** Some route goes to `to` exactly when CountTo is positive. */
  lemma {:induction false} CountToPositive(s: seq<Route>, to: string)
    ensures CountTo(s, to) > 0 <==> exists r :: r in s && r.destination == to
    decreases |s|
  {
    if s != [] {
      var s' := s[..|s| - 1];
      CountToPositive(s', to);
      assert s == s' + [s[|s| - 1]];
      assert forall r :: r in s <==> r in s' || r == s[|s| - 1];
    }
  }

  // ---------------------------------------------------------------------
  // Route counts under the two mutators.

  /** Appending one route to a registered origin adds one route to the total. */
  lemma TotalRoutesAppend(adj: Adjacency, from: string, r: Route)
    requires from in adj
    ensures TotalRoutes(adj[from := adj[from] + [r]]) == TotalRoutes(adj) + 1
  {
    var adj' := adj[from := adj[from] + [r]];
    assert adj'.Keys == adj.Keys;
    SumUpdate(adj.Keys, k => |RoutesOf(adj, k)|, k => |RoutesOf(adj', k)|, from);
  }

  /** Deleting the routes from `from` to `to` removes CountTo of them from the total. */
  lemma TotalRoutesRemove(adj: Adjacency, from: string, to: string)
    requires from in adj
    ensures TotalRoutes(adj[from := RemoveTo(adj[from], to)]) + CountTo(adj[from], to) == TotalRoutes(adj)
  {
    var adj' := adj[from := RemoveTo(adj[from], to)];
    assert adj'.Keys == adj.Keys;
    RemoveToLength(adj[from], to);
    SumUpdate(adj.Keys, k => |RoutesOf(adj, k)|, k => |RoutesOf(adj', k)|, from);
  }

  /** Appending a route to `to` raises the in-degree of `to` by one and leaves
      every other in-degree as it was. */
  lemma InDegreeAppend(adj: Adjacency, from: string, r: Route, code: string)
    requires from in adj
    ensures InDegree(adj[from := adj[from] + [r]], code) ==
            InDegree(adj, code) + (if r.destination == code then 1 else 0)
  {
    var adj' := adj[from := adj[from] + [r]];
    assert adj'.Keys == adj.Keys;
    assert (adj[from] + [r])[..|adj[from] + [r]| - 1] == adj[from];
    SumUpdate(adj.Keys, k => CountTo(RoutesOf(adj, k), code), k => CountTo(RoutesOf(adj', k), code), from);
  }

  // ---------------------------------------------------------------------
  // Comparisons between the three path finders.

  /** BfsResult fixes the result: two results for the same query are equal,
      since each found path is no later than the other in shortlex order. */
  lemma BfsUnique(adj: Adjacency, vertices: set<string>, start: string, end: string,
                  r1: PathResult, r2: PathResult)
    requires BfsResult(adj, vertices, start, end, r1) && BfsResult(adj, vertices, start, end, r2)
    ensures r1 == r2
  {
    if r1.found {
      assert PathFromTo(adj, r2.path, start, end) && PathFromTo(adj, r1.path, start, end);
      PathLeqAntisymmetric(r1.path, r2.path);
    }
  }

  /** BFS never reports more stops than DFS, and finds a route whenever DFS does. */
  lemma BfsNoMoreStopsThanDfs(adj: Adjacency, vertices: set<string>, start: string, end: string,
                              b: PathResult, d: PathResult)
    requires BfsResult(adj, vertices, start, end, b) && DfsResult(adj, vertices, start, end, d)
    requires d.found
    ensures b.found && b.stops <= d.stops
  {
    assert PathFromTo(adj, d.path, start, end);
    assert PathLeq(b.path, d.path);
  }

  /** Dijkstra's distance is never longer than the distance BFS reports. */
  lemma DijkstraNoLongerThanBfs(adj: Adjacency, vertices: set<string>, start: string, end: string,
                                s: PathResult, b: PathResult)
    requires DijkstraResult(adj, vertices, start, end, s) && BfsResult(adj, vertices, start, end, b)
    requires b.found
    ensures s.found && s.totalDistance <= b.totalDistance
  {
    HopWeightsWalk(adj, b.path);
    assert WalkFromTo(adj, b.path, HopWeights(adj, b.path), start, end);
  }

  /** The first position of p outside S, when there is one. */
  lemma FirstOutside(p: seq<string>, S: set<string>) returns (k: nat)
    requires exists i :: 0 <= i < |p| && p[i] !in S
    ensures k < |p| && p[k] !in S && forall i :: 0 <= i < k ==> p[i] in S
  {
    k := 0;
    while p[k] in S
      invariant k < |p| && forall i :: 0 <= i < k ==> p[i] in S
      invariant exists i :: k <= i < |p| && p[i] !in S
      decreases |p| - k
    {
      k := k + 1;
    }
  }

  /** One more hop adds its first-match weight to the weights of the prefix. */
  lemma HopWeightsStep(adj: Adjacency, path: seq<string>, i: nat)
    requires i + 1 < |path|
    ensures Total(HopWeights(adj, path[..i + 2])) ==
            Total(HopWeights(adj, path[..i + 1])) + HopDistance(adj, path[i], path[i + 1])
  {
    var next := path[..i + 2];
    assert next[..|next| - 1] == path[..i + 1];
    assert next[|next| - 2] == path[i] && next[|next| - 1] == path[i + 1];
    TotalAppend(HopWeights(adj, path[..i + 1]), HopDistance(adj, path[i], path[i + 1]));
  }
}
