/** What findPathDFS knows between two pops of its stack: the search tree,
    the stack holding each discovered but unexpanded airport once, and the
    closure of the expanded airports. DFS makes no optimality promise. */
module DfsProof {
  import opened StringOrder
  import opened GraphSpec
  import opened GraphLemmas
  import opened PathTree
  import opened SearchTree

  /** The invariant of findPathDFS's loop; P is the set of expanded airports. */
  ghost predicate DfsInv(adj: Adjacency, start: string, end: string, visited: set<string>,
                         parent: map<string, string>, tree: map<string, seq<string>>,
                         P: set<string>, s: seq<string>)
  {
    TreeOk(adj, start, visited, parent, tree) && Frontier(visited, P, s) && Distinct(s) &&
    ExpandedClosed(adj, P, visited) && end !in P
  }

  lemma DfsBegin(adj: Adjacency, start: string, end: string)
    ensures DfsInv(adj, start, end, {start}, map[], map[start := [start]], {}, [start])
  {
    assert PathFromTo(adj, [start], start, start);
  }

  /** Expanding the top of the stack over its sorted neighbour set N keeps the invariant. */
  lemma DfsExpand(adj: Adjacency, start: string, end: string,
                  visited0: set<string>, parent0: map<string, string>,
                  tree0: map<string, seq<string>>, P0: set<string>, s0: seq<string>,
                  N: seq<string>, C: seq<string>,
                  visited: set<string>, parent: map<string, string>,
                  tree: map<string, seq<string>>, s: seq<string>)
    requires DfsInv(adj, start, end, visited0, parent0, tree0, P0, s0) && s0 != []
    requires s0[|s0| - 1] != end
    requires forall y :: y in N <==> HasRoute(adj, s0[|s0| - 1], y)
    requires Expanding(s0[|s0| - 1], N, |N|, visited0, parent0, tree0, s0[..|s0| - 1], C,
                       visited, parent, tree, s)
    ensures DfsInv(adj, start, end, visited, parent, tree, P0 + {s0[|s0| - 1]}, s)
  {
    var cur := s0[|s0| - 1];
    var rest := s0[..|s0| - 1];
    assert s0 == rest + [cur];
    FinishTree(adj, start, cur, N, visited0, parent0, tree0, rest, C, visited, parent, tree, s);
    FinishClosed(adj, cur, N, P0, visited0, parent0, tree0, rest, C, visited, parent, tree, s);
    PopDistinct(s0);
    FinishFrontierPopped(cur, N, P0, visited0, parent0, tree0, rest, C, visited, parent, tree, s);
    AppendDistinct(rest, C, visited0);
  }

  /** The popped top of a duplicate-free stack is not left in it. */
  lemma PopDistinct(s0: seq<string>)
    requires Distinct(s0) && s0 != []
    ensures Distinct(s0[..|s0| - 1]) && s0[|s0| - 1] !in s0[..|s0| - 1]
  {
    var rest := s0[..|s0| - 1];
    forall i | 0 <= i < |rest| ensures rest[i] != s0[|s0| - 1] {
      assert rest[i] == s0[i];
    }
  }

  /** Pushing new, strictly increasing children keeps the stack duplicate-free. */
  lemma AppendDistinct(rest: seq<string>, C: seq<string>, visited0: set<string>)
    requires Distinct(rest) && StrictlySorted(C)
    requires forall v :: v in rest ==> v in visited0
    requires forall c :: c in C ==> c !in visited0
    ensures Distinct(rest + C)
  {
    var s := rest + C;
    forall i, j | 0 <= i < j < |s| ensures s[i] != s[j] {
      if j < |rest| {
        assert s[i] == rest[i] && s[j] == rest[j];
      } else if i >= |rest| {
        assert s[i] == C[i - |rest|] && s[j] == C[j - |rest|];
        StrLessIrreflexive(s[i]);
      } else {
        assert s[i] == rest[i] && s[j] == C[j - |rest|];
        assert rest[i] in rest;
      }
    }
  }

  /** An empty stack: the goal is unreachable. */
  lemma DfsExhausted(adj: Adjacency, start: string, end: string, visited: set<string>,
                     parent: map<string, string>, tree: map<string, seq<string>>, P: set<string>)
    requires DfsInv(adj, start, end, visited, parent, tree, P, [])
    ensures !Reachable(adj, start, end)
  {
    Exhausted(adj, start, end, visited, P);
  }
}
