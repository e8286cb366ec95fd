/** The bookkeeping findPathBFS and findPathDFS share: a search tree grown
    by expanding one airport at a time over its sorted set of neighbour
    codes, each neighbour not yet visited becoming a child of the airport
    being expanded. */
module SearchTree {
  import opened StringOrder
  import opened GraphSpec
  import opened GraphLemmas
  import opened PathTree

  /** Visited airports are the expanded ones and the pending ones, never both. */
  ghost predicate Frontier(visited: set<string>, expanded: set<string>, pending: seq<string>)
  {
    (forall v :: v in visited <==> v in expanded || v in pending) &&
    (forall v :: v in pending ==> v !in expanded)
  }

  /** Every route out of an expanded airport leads to a visited one. */
  ghost predicate ExpandedClosed(adj: Adjacency, expanded: set<string>, visited: set<string>)
  {
    forall u, r :: u in expanded && r in RoutesOf(adj, u) ==> r.destination in visited
  }

  /** Every parent link points at an expanded airport. */
  ghost predicate ParentsExpanded(parent: map<string, string>, expanded: set<string>)
  {
    forall v :: v in parent ==> parent[v] in expanded
  }

  /** Midway through expanding cur over its sorted neighbours N: the first j
      have been looked at, and the new children C (those not visited before
      the expansion) have been appended to what was pending (`rest`), with
      cur as their parent and cur's tree path extended as their path. */
  ghost predicate Expanding(cur: string, N: seq<string>, j: nat,
                            visited0: set<string>, parent0: map<string, string>,
                            tree0: map<string, seq<string>>, rest: seq<string>, C: seq<string>,
                            visited: set<string>, parent: map<string, string>,
                            tree: map<string, seq<string>>, pending: seq<string>)
  {
    j <= |N| && cur in tree0 &&
    (forall v :: v in parent0 ==> v in visited0) && (forall v :: v in tree0 ==> v in visited0) &&
    pending == rest + C &&
    StrictlySorted(C) &&
    (forall v :: v in visited <==> v in visited0 || v in C) &&
    (forall c :: c in C ==> c !in visited0 && c in N[..j]) &&
    (forall k :: 0 <= k < j ==> N[k] in visited) &&
    (forall v :: v in parent <==> v in parent0 || v in C) &&
    (forall v :: v in parent0 ==> parent[v] == parent0[v]) &&
    (forall c :: c in C ==> parent[c] == cur) &&
    (forall v :: v in tree <==> v in tree0 || v in C) &&
    (forall v :: v in tree0 ==> tree[v] == tree0[v]) &&
    (forall c :: c in C ==> tree[c] == tree0[cur] + [c])
  }

  lemma ExpandBegin(cur: string, N: seq<string>, visited0: set<string>, parent0: map<string, string>,
                    tree0: map<string, seq<string>>, rest: seq<string>)
    requires cur in tree0
    requires (forall v :: v in parent0 ==> v in visited0) && (forall v :: v in tree0 ==> v in visited0)
    ensures Expanding(cur, N, 0, visited0, parent0, tree0, rest, [], visited0, parent0, tree0, rest)
  {
    assert rest + [] == rest;
  }

  /** Looking at neighbour j: an unvisited one becomes a child. */
  lemma ExpandStep(cur: string, N: seq<string>, j: nat,
                   visited0: set<string>, parent0: map<string, string>,
                   tree0: map<string, seq<string>>, rest: seq<string>, C: seq<string>,
                   visited: set<string>, parent: map<string, string>,
                   tree: map<string, seq<string>>, pending: seq<string>)
    requires StrictlySorted(N) && j < |N|
    requires Expanding(cur, N, j, visited0, parent0, tree0, rest, C, visited, parent, tree, pending)
    ensures var x := N[j];
            if x in visited then
              Expanding(cur, N, j + 1, visited0, parent0, tree0, rest, C, visited, parent, tree, pending)
            else
              Expanding(cur, N, j + 1, visited0, parent0, tree0, rest, C + [x], visited + {x},
                        parent[x := cur], tree[x := tree[cur] + [x]], pending + [x])
  {
    var x := N[j];
    assert N[..j + 1] == N[..j] + [x];
    if x !in visited {
      forall c | c in C
        ensures StrLess(c, x)
      {
        var k :| 0 <= k < j && N[..j][k] == c;
        assert N[k] == c;
      }
      assert (rest + C) + [x] == rest + (C + [x]);
    }
  }

  /** The tree stays a search tree once cur's expansion is complete. */
  lemma FinishTree(adj: Adjacency, start: string, cur: string, N: seq<string>,
                   visited0: set<string>, parent0: map<string, string>,
                   tree0: map<string, seq<string>>, rest: seq<string>, C: seq<string>,
                   visited: set<string>, parent: map<string, string>,
                   tree: map<string, seq<string>>, pending: seq<string>)
    requires TreeOk(adj, start, visited0, parent0, tree0) && cur in visited0
    requires forall y :: y in N <==> HasRoute(adj, cur, y)
    requires Expanding(cur, N, |N|, visited0, parent0, tree0, rest, C, visited, parent, tree, pending)
    ensures TreeOk(adj, start, visited, parent, tree)
  {
    assert N[..|N|] == N;
    forall v | v in visited
      ensures PathFromTo(adj, tree[v], start, v)
    {
      if v !in visited0 {
        PathExtend(adj, tree0[cur], start, cur, v);
      }
    }
  }

  /** cur has left the pending container and its new children have joined it. */
  lemma FinishFrontierPopped(cur: string, N: seq<string>, expanded0: set<string>,
                             visited0: set<string>, parent0: map<string, string>,
                             tree0: map<string, seq<string>>, rest: seq<string>, C: seq<string>,
                             visited: set<string>, parent: map<string, string>,
                             tree: map<string, seq<string>>, pending: seq<string>)
    requires forall v :: v in visited0 <==> v in expanded0 || v == cur || v in rest
    requires cur !in expanded0 && cur !in rest && forall v :: v in rest ==> v !in expanded0
    requires Expanding(cur, N, |N|, visited0, parent0, tree0, rest, C, visited, parent, tree, pending)
    ensures Frontier(visited, expanded0 + {cur}, pending)
  {
  }

  /** Every route of cur now leads to a visited airport. */
  lemma FinishClosed(adj: Adjacency, cur: string, N: seq<string>, expanded0: set<string>,
                     visited0: set<string>, parent0: map<string, string>,
                     tree0: map<string, seq<string>>, rest: seq<string>, C: seq<string>,
                     visited: set<string>, parent: map<string, string>,
                     tree: map<string, seq<string>>, pending: seq<string>)
    requires ExpandedClosed(adj, expanded0, visited0)
    requires forall y :: y in N <==> HasRoute(adj, cur, y)
    requires Expanding(cur, N, |N|, visited0, parent0, tree0, rest, C, visited, parent, tree, pending)
    ensures ExpandedClosed(adj, expanded0 + {cur}, visited)
  {
    forall u, r | u in expanded0 + {cur} && r in RoutesOf(adj, u)
      ensures r.destination in visited
    {
      if u == cur {
        assert HasRoute(adj, cur, r.destination);
        var k :| 0 <= k < |N| && N[k] == r.destination;
      }
    }
  }

  lemma FinishParents(cur: string, N: seq<string>, expanded0: set<string>,
                      visited0: set<string>, parent0: map<string, string>,
                      tree0: map<string, seq<string>>, rest: seq<string>, C: seq<string>,
                      visited: set<string>, parent: map<string, string>,
                      tree: map<string, seq<string>>, pending: seq<string>)
    requires ParentsExpanded(parent0, expanded0)
    requires Expanding(cur, N, |N|, visited0, parent0, tree0, rest, C, visited, parent, tree, pending)
    ensures ParentsExpanded(parent, expanded0 + {cur})
  {
  }

  /** With nothing pending, the expanded airports are closed under routes:
      an end that was never expanded is not reachable. */
  lemma Exhausted(adj: Adjacency, start: string, end: string, visited: set<string>,
                  expanded: set<string>)
    requires Frontier(visited, expanded, []) && ExpandedClosed(adj, expanded, visited)
    requires start in expanded && end !in expanded
    ensures !Reachable(adj, start, end)
  {
    if Reachable(adj, start, end) {
      var p :| PathFromTo(adj, p, start, end);
      ClosedContainsReachable(adj, expanded, p, start, end);
    }
  }
}
