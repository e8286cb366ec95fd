/** What traverseBFS and traverseDFS know between steps. Both keep a list of
    airports already output, a container of airports discovered but not yet
    output (a queue or a stack; which end is popped does not matter here),
    and a visited set that is their union. */
module TraversalProof {
  import opened GraphSpec
  import opened GraphLemmas

  /** One more route reaches one more vertex. */
  lemma ReachableStep(adj: Adjacency, start: string, u: string, v: string)
    requires Reachable(adj, start, u) && HasRoute(adj, u, v)
    ensures Reachable(adj, start, v)
  {
    var p :| PathFromTo(adj, p, start, u);
    PathExtend(adj, p, start, u, v);
  }

  lemma ReachableSelf(adj: Adjacency, start: string)
    ensures Reachable(adj, start, start)
  {
    assert PathFromTo(adj, [start], start, start);
  }

  /** The sets involved: output and pending are duplicate-free and disjoint,
      visited is their union, and everything visited is reachable. */
  ghost predicate Bookkeeping(adj: Adjacency, start: string, result: seq<string>,
                              pending: seq<string>, visited: set<string>)
  {
    Distinct(result) && Distinct(pending) &&
    (forall v :: v in result ==> v !in pending) &&
    (forall v :: v in visited <==> v in result || v in pending) &&
    (forall v :: v in visited ==> Reachable(adj, start, v))
  }

  /** Between two pops: every route out of an output airport leads to a
      visited one, and the start airport is output first. */
  ghost predicate TravInv(adj: Adjacency, start: string, result: seq<string>,
                          pending: seq<string>, visited: set<string>)
  {
    Bookkeeping(adj, start, result, pending, visited) &&
    (forall u, r :: u in result && r in RoutesOf(adj, u) ==> r.destination in visited) &&
    (if result == [] then pending == [start] else result[0] == start)
  }

  /** While the routes of the airport just output are scanned: the first i of
      them lead to visited airports. */
  ghost predicate TravMid(adj: Adjacency, start: string, result: seq<string>, pending: seq<string>,
                          visited: set<string>, routes: seq<Route>, i: nat)
  {
    |result| >= 1 && result[0] == start && i <= |routes| &&
    routes == RoutesOf(adj, result[|result| - 1]) &&
    Bookkeeping(adj, start, result, pending, visited) &&
    (forall u, r :: u in result[..|result| - 1] && r in RoutesOf(adj, u) ==> r.destination in visited) &&
    (forall k :: 0 <= k < i ==> routes[k].destination in visited)
  }

  lemma TravStart(adj: Adjacency, start: string)
    ensures TravInv(adj, start, [], [start], {start})
  {
    ReachableSelf(adj, start);
  }

  /** Taking out the element at k keeps a sequence duplicate-free and removes
      exactly that element. */
  lemma RemoveAtDistinct(s: seq<string>, k: nat)
    requires Distinct(s) && k < |s|
    ensures Distinct(s[..k] + s[k + 1..])
    ensures forall v :: v in s[..k] + s[k + 1..] <==> v in s && v != s[k]
  {
    var s' := s[..k] + s[k + 1..];
    assert s == s[..k] + [s[k]] + s[k + 1..];
    forall i, j | 0 <= i < j < |s'| ensures s'[i] != s'[j] {
      var i' := if i < k then i else i + 1;
      var j' := if j < k then j else j + 1;
      assert s'[i] == s[i'] && s'[j] == s[j'];
    }
  }

  /** Appending an element not yet present keeps a sequence duplicate-free. */
  lemma PushDistinct(s: seq<string>, c: string)
    requires Distinct(s) && c !in s
    ensures Distinct(s + [c])
  {
    var s' := s + [c];
    forall i, j | 0 <= i < j < |s'| ensures s'[i] != s'[j] {
      if j == |s| {
        assert s'[i] == s[i];
      }
    }
  }

  /** Output the airport at position k of the pending container. */
  lemma TravPop(adj: Adjacency, start: string, result: seq<string>, pending: seq<string>,
                visited: set<string>, k: nat)
    requires TravInv(adj, start, result, pending, visited) && k < |pending|
    requires k == 0 || k == |pending| - 1
    ensures TravMid(adj, start, result + [pending[k]], pending[..k] + pending[k + 1..], visited,
                    RoutesOf(adj, pending[k]), 0)
  {
    var c := pending[k];
    var result' := result + [c];
    var pending' := pending[..k] + pending[k + 1..];
    assert result'[..|result'| - 1] == result;
    RemoveAtDistinct(pending, k);
    PushDistinct(result, c);
    if result == [] {
      assert c == start;
    }
  }

  /** Look at route i of the airport just output. */
  lemma TravVisit(adj: Adjacency, start: string, result: seq<string>, pending: seq<string>,
                  visited: set<string>, routes: seq<Route>, i: nat)
    requires TravMid(adj, start, result, pending, visited, routes, i) && i < |routes|
    ensures var d := routes[i].destination;
            if d in visited then TravMid(adj, start, result, pending, visited, routes, i + 1)
            else TravMid(adj, start, result, pending + [d], visited + {d}, routes, i + 1)
  {
    var d := routes[i].destination;
    var u := result[|result| - 1];
    assert u in visited;
    assert routes[i] in RoutesOf(adj, u);
    ReachableStep(adj, start, u, d);
    if d !in visited {
      PushDistinct(pending, d);
    }
  }

  /** All routes of the airport just output have been looked at. */
  lemma TravFinish(adj: Adjacency, start: string, result: seq<string>, pending: seq<string>,
                   visited: set<string>, routes: seq<Route>)
    requires TravMid(adj, start, result, pending, visited, routes, |routes|)
    ensures TravInv(adj, start, result, pending, visited)
  {
    var last := result[|result| - 1];
    forall u, r | u in result && r in RoutesOf(adj, u)
      ensures r.destination in visited
    {
      if u == last {
        var k :| 0 <= k < |routes| && routes[k] == r;
      } else {
        var j :| 0 <= j < |result| && result[j] == u;
        assert result[..|result| - 1][j] == u;
      }
    }
  }

  /** With nothing pending, exactly the reachable airports have been output. */
  lemma TravDone(adj: Adjacency, start: string, result: seq<string>, visited: set<string>)
    requires TravInv(adj, start, result, [], visited)
    ensures Distinct(result) && |result| >= 1 && result[0] == start
    ensures forall v :: v in result <==> Reachable(adj, start, v)
  {
    assert ClosedUnderRoutes(adj, visited);
    forall v | Reachable(adj, start, v)
      ensures v in result
    {
      var p :| PathFromTo(adj, p, start, v);
      ClosedContainsReachable(adj, visited, p, start, v);
    }
  }
}
