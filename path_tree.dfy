/** Parent maps as the path finders leave them, and the path that
    reconstructPath reads off such a map by following parent links from the
    goal back to the start. */
module PathTree {
  import opened GraphSpec
  import opened GraphLemmas

  /** A ghost ranking under which every parent link goes strictly down:
      following parent links from any vertex ends. */
  ghost predicate RankedParents(parent: map<string, string>, rank: map<string, nat>)
  {
    forall v :: v in parent ==> v in rank && parent[v] in rank && rank[parent[v]] < rank[v]
  }

  /** The vertex sequence from start to v along parent links, or None when
      the links from v stop before reaching start. */
  ghost function Chain(parent: map<string, string>, rank: map<string, nat>, start: string, v: string)
    : (r: Option<seq<string>>)
    requires RankedParents(parent, rank)
    ensures r.Some? ==> |r.value| >= 1 && r.value[0] == start && r.value[|r.value| - 1] == v
    ensures r.Some? ==> forall i :: 0 < i < |r.value| ==>
                          r.value[i] != start && r.value[i] in parent && parent[r.value[i]] == r.value[i - 1]
    decreases if v in rank then rank[v] else 0
  {
    if v == start then Some([start])
    else if v !in parent then None
    else
      match Chain(parent, rank, start, parent[v])
      case None => None
      case Some(p) => Some(p + [v])
  }

  /** Appends a suffix to an optional sequence. */
  function Extend(o: Option<seq<string>>, suffix: seq<string>): Option<seq<string>>
  {
    match o
    case None => None
    case Some(p) => Some(p + suffix)
  }

  lemma ExtendEmpty(o: Option<seq<string>>)
    ensures Extend(o, []) == o
  {
    if o.Some? {
      assert o.value + [] == o.value;
    }
  }

  lemma ExtendAssociative(o: Option<seq<string>>, a: seq<string>, b: seq<string>)
    ensures Extend(Extend(o, a), b) == Extend(o, a + b)
  {
    if o.Some? {
      assert o.value + a + b == o.value + (a + b);
    }
  }

  /** The ranking by tree-path length used for breadth- and depth-first search. */
  ghost function TreeRank(tree: map<string, seq<string>>): map<string, nat>
  {
    map v | v in tree :: |tree[v]|
  }

  /** A search tree: every reached vertex has a recorded path from start,
      its parent's path extended by itself, and every recorded path is a
      path of the graph. */
  ghost predicate TreeOk(adj: Adjacency, start: string, visited: set<string>,
                         parent: map<string, string>, tree: map<string, seq<string>>)
  {
    (forall v :: v in tree <==> v in visited) &&
    start in visited && tree[start] == [start] && start !in parent &&
    (forall v :: v in parent ==> v in visited) &&
    (forall v :: v in visited && v != start ==>
                   v in parent && parent[v] in visited && tree[v] == tree[parent[v]] + [v]) &&
    (forall v :: v in visited ==> PathFromTo(adj, tree[v], start, v))
  }

  lemma TreeRanked(adj: Adjacency, start: string, visited: set<string>,
                   parent: map<string, string>, tree: map<string, seq<string>>)
    requires TreeOk(adj, start, visited, parent, tree)
    ensures RankedParents(parent, TreeRank(tree))
  {
  }

  /** Following the parent links of a search tree gives exactly the recorded path. */
  lemma {:induction false} ChainOfTree(adj: Adjacency, start: string, visited: set<string>,
                                       parent: map<string, string>, tree: map<string, seq<string>>, v: string)
    requires TreeOk(adj, start, visited, parent, tree)
    requires v in visited
    ensures RankedParents(parent, TreeRank(tree))
    ensures Chain(parent, TreeRank(tree), start, v) == Some(tree[v])
    decreases |tree[v]|
  {
    TreeRanked(adj, start, visited, parent, tree);
    if v != start {
      ChainOfTree(adj, start, visited, parent, tree, parent[v]);
    }
  }
}
