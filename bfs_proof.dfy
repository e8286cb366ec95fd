/** Why findPathBFS returns the least start -> end path in shortlex order.
    The queue holds tree paths in strictly increasing shortlex order, no two
    of them more than one hop apart in length. Every expanded airport's tree
    path is the least path to it. Every queued airport's tree path is the
    least among the paths whose inner airports have all been expanded. The
    sorted neighbour set is what makes the lexicographic tie-break hold. */
module BfsProof {
  import opened StringOrder
  import opened GraphSpec
  import opened GraphLemmas
  import opened PathTree
  import opened SearchTree

  /** Every airport of p except the last is in S. */
  ghost predicate Through(p: seq<string>, S: set<string>)
  {
    forall i :: 0 <= i < |p| - 1 ==> p[i] in S
  }

  /** The tree path to u is the least path to u. */
  ghost predicate OptimalFor(adj: Adjacency, start: string, tree: map<string, seq<string>>, u: string)
  {
    u in tree && forall p :: PathFromTo(adj, p, start, u) ==> PathLeq(tree[u], p)
  }

  /** The tree path to w is the least of the paths to w through S. */
  ghost predicate OptimalAmong(adj: Adjacency, start: string, tree: map<string, seq<string>>,
                               w: string, S: set<string>)
  {
    w in tree && forall p :: PathFromTo(adj, p, start, w) && Through(p, S) ==> PathLeq(tree[w], p)
  }

  ghost predicate QueueSorted(tree: map<string, seq<string>>, q: seq<string>)
  {
    (forall v :: v in q ==> v in tree) &&
    forall i, j :: 0 <= i < j < |q| ==> PathLess(tree[q[i]], tree[q[j]])
  }

  /** No queued tree path is more than one hop longer than the front one. */
  ghost predicate QueueBand(tree: map<string, seq<string>>, q: seq<string>)
  {
    (forall v :: v in q ==> v in tree) &&
    (q != [] ==> forall w :: w in q ==> |tree[w]| <= |tree[q[0]]| + 1)
  }

  /** Expanded airports come before queued ones. */
  ghost predicate ExpandedFirst(tree: map<string, seq<string>>, P: set<string>, q: seq<string>)
  {
    (forall v :: v in q ==> v in tree) && (forall u :: u in P ==> u in tree) &&
    forall u, w :: u in P && w in q ==> PathLess(tree[u], tree[w])
  }

  ghost predicate ExpandedOptimal(adj: Adjacency, start: string, tree: map<string, seq<string>>, P: set<string>)
  {
    forall u :: u in P ==> OptimalFor(adj, start, tree, u)
  }

  ghost predicate QueuedOptimal(adj: Adjacency, start: string, tree: map<string, seq<string>>,
                                P: set<string>, q: seq<string>)
  {
    forall w :: w in q ==> OptimalAmong(adj, start, tree, w, P)
  }

  /** The invariant of findPathBFS's loop; P is the set of expanded airports. */
  ghost predicate BfsInv(adj: Adjacency, start: string, end: string, visited: set<string>,
                         parent: map<string, string>, tree: map<string, seq<string>>,
                         P: set<string>, q: seq<string>)
  {
    TreeOk(adj, start, visited, parent, tree) && Frontier(visited, P, q) &&
    QueueSorted(tree, q) && QueueBand(tree, q) && ExpandedFirst(tree, P, q) &&
    ParentsExpanded(parent, P) && ExpandedClosed(adj, P, visited) &&
    ExpandedOptimal(adj, start, tree, P) && QueuedOptimal(adj, start, tree, P, q) &&
    (start in P || (P == {} && q == [start])) && end !in P
  }

  // ---------------------------------------------------------------------
  // Sequence helpers.

  lemma LastBefore(p: seq<string>, x: string) returns (i: nat)
    requires exists i :: 0 <= i < |p| - 1 && p[i] == x
    ensures i < |p| - 1 && p[i] == x && forall l :: i < l < |p| - 1 ==> p[l] != x
  {
    i := |p| - 2;
    while p[i] != x
      invariant 0 <= i < |p| - 1 && forall l :: i < l < |p| - 1 ==> p[l] != x
      invariant exists k :: 0 <= k <= i && p[k] == x
      decreases i
    {
      i := i - 1;
    }
  }

  lemma PathSuffix(adj: Adjacency, p: seq<string>, k: nat)
    requires IsPath(adj, p) && k < |p|
    ensures IsPath(adj, p[k..])
  {
    forall i | 0 <= i < |p[k..]| - 1
      ensures HasRoute(adj, p[k..][i], p[k..][i + 1])
    {
      assert p[k..][i] == p[k + i] && p[k..][i + 1] == p[k + i + 1];
    }
  }

  /** Two paths that meet glue into one. */
  lemma PathConcat(adj: Adjacency, a: seq<string>, b: seq<string>)
    requires IsPath(adj, a) && IsPath(adj, b) && a[|a| - 1] == b[0]
    ensures IsPath(adj, a + b[1..])
  {
    var c := a + b[1..];
    forall i | 0 <= i < |c| - 1
      ensures HasRoute(adj, c[i], c[i + 1])
    {
      if i < |a| - 1 {
        assert c[i] == a[i] && c[i + 1] == a[i + 1];
      } else {
        assert c[i] == b[i - |a| + 1] && c[i + 1] == b[i - |a| + 2];
      }
    }
  }

  /** Appending the same suffix keeps shortlex order. */
  lemma {:induction false} PathLeqAppendSeq(a: seq<string>, b: seq<string>, s: seq<string>)
    requires PathLeq(a, b)
    ensures PathLeq(a + s, b + s)
    decreases |s|
  {
    if s == [] {
      assert a + s == a && b + s == b;
    } else {
      var s' := s[..|s| - 1];
      var x := s[|s| - 1];
      PathLeqAppendSeq(a, b, s');
      PathLeqAppend(a + s', b + s', x);
      assert a + s == (a + s') + [x] && b + s == (b + s') + [x];
    }
  }

  /** A route out of an expanded airport lands on a visited one. */
  lemma LastHopVisited(adj: Adjacency, P: set<string>, visited: set<string>, p: seq<string>)
    requires ExpandedClosed(adj, P, visited) && IsPath(adj, p) && |p| >= 2 && p[|p| - 2] in P
    ensures p[|p| - 1] in visited
  {
    assert HasRoute(adj, p[|p| - 2], p[|p| - 1]);
    var r :| r in RoutesOf(adj, p[|p| - 2]) && r.destination == p[|p| - 1];
  }

  /** Every airport on the tree path of an expanded airport was expanded. */
  lemma {:induction false} TreeInside(adj: Adjacency, start: string, visited: set<string>,
                                      parent: map<string, string>, tree: map<string, seq<string>>,
                                      P: set<string>, v: string)
    requires TreeOk(adj, start, visited, parent, tree) && ParentsExpanded(parent, P)
    requires start in P && v in P && v in visited
    ensures forall i :: 0 <= i < |tree[v]| ==> tree[v][i] in P
    decreases |tree[v]|
  {
    if v != start {
      var u := parent[v];
      TreeInside(adj, start, visited, parent, tree, P, u);
      assert tree[v] == tree[u] + [v];
    }
  }

  // ---------------------------------------------------------------------
  // The invariant.

  lemma BfsBegin(adj: Adjacency, start: string, end: string)
    ensures BfsInv(adj, start, end, {start}, map[], map[start := [start]], {}, [start])
  {
    var tree := map[start := [start]];
    assert PathFromTo(adj, [start], start, start);
    forall p | PathFromTo(adj, p, start, start) && Through(p, {})
      ensures PathLeq(tree[start], p)
    {
      if |p| > 1 {
        assert false;
      }
      assert p == [start];
    }
  }

  /** A path to the front of the queue leaves the expanded airports at some
      queued airport y; its prefix to y is no better than y's tree path, which
      is no better than the front's. */
  lemma FrontNoWorse(adj: Adjacency, start: string, visited: set<string>, tree: map<string, seq<string>>,
                     P: set<string>, q: seq<string>, p: seq<string>)
    requires Frontier(visited, P, q) && start in visited && ExpandedClosed(adj, P, visited)
    requires QueueSorted(tree, q) && QueuedOptimal(adj, start, tree, P, q) && q != []
    requires PathFromTo(adj, p, start, q[0])
    ensures PathLeq(tree[q[0]], p)
  {
    var cur := q[0];
    assert p[|p| - 1] !in P;
    var k := FirstOutside(p, P);
    var y := p[k];
    var pk := p[..k + 1];
    PathPrefix(adj, p, k + 1);
    assert Through(pk, P) by {
      forall i | 0 <= i < k ensures pk[i] in P {
        assert pk[i] == p[i];
      }
    }
    if k > 0 {
      assert pk[|pk| - 2] == p[k - 1];
      LastHopVisited(adj, P, visited, pk);
    }
    assert y in q;
    assert PathFromTo(adj, pk, start, y);
    assert PathLeq(tree[y], pk);
    PrefixPathLeq(p, k + 1);
    var i :| 0 <= i < |q| && q[i] == y;
    if i > 0 {
      assert PathLess(tree[q[0]], tree[q[i]]);
    }
    PathLeqTransitive(tree[cur], tree[y], pk);
    PathLeqTransitive(tree[cur], pk, p);
  }

  /** The front of the queue has its least path as tree path. */
  lemma FrontOptimal(adj: Adjacency, start: string, end: string, visited: set<string>,
                     parent: map<string, string>, tree: map<string, seq<string>>,
                     P: set<string>, q: seq<string>)
    requires BfsInv(adj, start, end, visited, parent, tree, P, q) && q != []
    ensures OptimalFor(adj, start, tree, q[0])
  {
    forall p | PathFromTo(adj, p, start, q[0])
      ensures PathLeq(tree[q[0]], p)
    {
      FrontNoWorse(adj, start, visited, tree, P, q, p);
    }
  }

  /** The state after cur = q0[0] has been expanded over its sorted
      neighbour set N, the old state being a BFS state. */
  ghost predicate ExpandDone(adj: Adjacency, start: string, end: string,
                             visited0: set<string>, parent0: map<string, string>,
                             tree0: map<string, seq<string>>, P0: set<string>, q0: seq<string>,
                             N: seq<string>, C: seq<string>,
                             visited: set<string>, parent: map<string, string>,
                             tree: map<string, seq<string>>, q: seq<string>)
  {
    BfsInv(adj, start, end, visited0, parent0, tree0, P0, q0) && q0 != [] && q0[0] != end &&
    (forall y :: y in N <==> HasRoute(adj, q0[0], y)) &&
    Expanding(q0[0], N, |N|, visited0, parent0, tree0, q0[1..], C, visited, parent, tree, q)
  }

  /** A child of the front comes after every queued airport. */
  lemma ChildAfterQueued(adj: Adjacency, start: string, visited: set<string>,
                         parent: map<string, string>, tree: map<string, seq<string>>,
                         P: set<string>, q: seq<string>, w: string, x: string)
    requires TreeOk(adj, start, visited, parent, tree) && ParentsExpanded(parent, P)
    requires QueueBand(tree, q) && ExpandedFirst(tree, P, q) && q != [] && w in q
    ensures PathLess(tree[w], tree[q[0]] + [x])
  {
    var cur := q[0];
    if |tree[w]| == |tree[cur]| + 1 {
      var pw := parent[w];
      assert tree[w] == tree[pw] + [w];
      assert PathLess(tree[pw], tree[cur]);
      PathLessDifferentParent(tree[pw], tree[cur], w, x);
    }
  }

  lemma FinishFrontier(P0: set<string>, N: seq<string>,
                       visited0: set<string>, parent0: map<string, string>,
                       tree0: map<string, seq<string>>, q0: seq<string>, C: seq<string>,
                       visited: set<string>, parent: map<string, string>,
                       tree: map<string, seq<string>>, q: seq<string>)
    requires Frontier(visited0, P0, q0) && QueueSorted(tree0, q0) && q0 != []
    requires Expanding(q0[0], N, |N|, visited0, parent0, tree0, q0[1..], C, visited, parent, tree, q)
    ensures Frontier(visited, P0 + {q0[0]}, q)
  {
    var cur := q0[0];
    assert q0 == [cur] + q0[1..];
    forall v | v in q0[1..]
      ensures v != cur
    {
      var i :| 0 <= i < |q0[1..]| && q0[1..][i] == v;
      assert PathLess(tree0[q0[0]], tree0[q0[i + 1]]);
      PathLessIrreflexive(tree0[cur]);
    }
  }

  lemma FinishSorted(adj: Adjacency, start: string, P0: set<string>, N: seq<string>,
                     visited0: set<string>, parent0: map<string, string>,
                     tree0: map<string, seq<string>>, q0: seq<string>, C: seq<string>,
                     visited: set<string>, parent: map<string, string>,
                     tree: map<string, seq<string>>, q: seq<string>)
    requires TreeOk(adj, start, visited0, parent0, tree0) && ParentsExpanded(parent0, P0)
    requires QueueSorted(tree0, q0) && QueueBand(tree0, q0) && ExpandedFirst(tree0, P0, q0) && q0 != []
    requires Expanding(q0[0], N, |N|, visited0, parent0, tree0, q0[1..], C, visited, parent, tree, q)
    ensures QueueSorted(tree, q)
  {
    var cur := q0[0];
    var rest := q0[1..];
    forall i, j | 0 <= i < j < |q|
      ensures PathLess(tree[q[i]], tree[q[j]])
    {
      if j < |rest| {
        assert q[i] == q0[i + 1] && q[j] == q0[j + 1];
      } else if i >= |rest| {
        assert q[i] == C[i - |rest|] && q[j] == C[j - |rest|];
        PathLessSameParent(tree0[cur], C[i - |rest|], C[j - |rest|]);
      } else {
        assert q[i] == q0[i + 1] && q[j] == C[j - |rest|];
        ChildAfterQueued(adj, start, visited0, parent0, tree0, P0, q0, q0[i + 1], C[j - |rest|]);
      }
    }
  }

  lemma FinishBand(N: seq<string>, visited0: set<string>, parent0: map<string, string>,
                   tree0: map<string, seq<string>>, q0: seq<string>, C: seq<string>,
                   visited: set<string>, parent: map<string, string>,
                   tree: map<string, seq<string>>, q: seq<string>)
    requires QueueSorted(tree0, q0) && QueueBand(tree0, q0) && q0 != []
    requires Expanding(q0[0], N, |N|, visited0, parent0, tree0, q0[1..], C, visited, parent, tree, q)
    ensures QueueBand(tree, q)
  {
    if q != [] {
      if |q0| > 1 {
        assert q[0] == q0[1];
        assert PathLess(tree0[q0[0]], tree0[q0[1]]);
        forall w | w in q
          ensures |tree[w]| <= |tree[q[0]]| + 1
        {
          if w in q0[1..] {
            assert w in q0;
          }
        }
      } else {
        assert q == C;
      }
    }
  }

  lemma FinishFirst(P0: set<string>, N: seq<string>,
                    visited0: set<string>, parent0: map<string, string>,
                    tree0: map<string, seq<string>>, q0: seq<string>, C: seq<string>,
                    visited: set<string>, parent: map<string, string>,
                    tree: map<string, seq<string>>, q: seq<string>)
    requires QueueSorted(tree0, q0) && ExpandedFirst(tree0, P0, q0) && q0 != []
    requires Expanding(q0[0], N, |N|, visited0, parent0, tree0, q0[1..], C, visited, parent, tree, q)
    ensures ExpandedFirst(tree, P0 + {q0[0]}, q)
  {
    var cur := q0[0];
    forall u, w | u in P0 + {cur} && w in q
      ensures PathLess(tree[u], tree[w])
    {
      if w in C {
        assert tree[w] == tree0[cur] + [w];
        if u != cur {
          assert PathLess(tree0[u], tree0[cur]);
          PathLessTransitive(tree0[u], tree0[cur], tree0[cur] + [w]);
        }
      } else {
        var i :| 0 <= i < |q0[1..]| && q0[1..][i] == w;
        assert w == q0[i + 1];
        if u == cur {
          assert PathLess(tree0[q0[0]], tree0[q0[i + 1]]);
        }
      }
    }
  }

  lemma FinishExpandedOptimal(adj: Adjacency, start: string, P0: set<string>, N: seq<string>,
                              visited0: set<string>, parent0: map<string, string>,
                              tree0: map<string, seq<string>>, q0: seq<string>, C: seq<string>,
                              visited: set<string>, parent: map<string, string>,
                              tree: map<string, seq<string>>, q: seq<string>)
    requires ExpandedOptimal(adj, start, tree0, P0) && q0 != [] && OptimalFor(adj, start, tree0, q0[0])
    requires Expanding(q0[0], N, |N|, visited0, parent0, tree0, q0[1..], C, visited, parent, tree, q)
    ensures ExpandedOptimal(adj, start, tree, P0 + {q0[0]})
  {
    forall u | u in P0 + {q0[0]}
      ensures OptimalFor(adj, start, tree, u)
    {
      assert OptimalFor(adj, start, tree0, u);
      assert tree[u] == tree0[u];
    }
  }

  /** A path through the expanded airports only ends at a visited one. */
  lemma AvoidingCur(adj: Adjacency, start: string, P0: set<string>, visited0: set<string>,
                    w: string, p: seq<string>)
    requires ExpandedClosed(adj, P0, visited0) && start in visited0
    requires PathFromTo(adj, p, start, w) && Through(p, P0)
    ensures w in visited0
  {
    if |p| >= 2 {
      LastHopVisited(adj, P0, visited0, p);
    }
  }

  /** A path whose last hop leaves cur is no better than the tree path cur's
      expansion gives its last airport. */
  lemma ViaCurLast(adj: Adjacency, start: string, tree0: map<string, seq<string>>, cur: string,
                   w: string, p: seq<string>)
    requires OptimalFor(adj, start, tree0, cur)
    requires PathFromTo(adj, p, start, w) && |p| >= 2 && p[|p| - 2] == cur
    ensures PathLeq(tree0[cur] + [w], p)
  {
    var pc := p[..|p| - 1];
    PathPrefix(adj, p, |p| - 1);
    assert pc[0] == start && pc[|pc| - 1] == cur;
    assert PathFromTo(adj, pc, start, cur);
    assert PathLeq(tree0[cur], pc);
    assert p == pc + [w];
    PathLeqAppend(tree0[cur], pc, w);
  }

  /** Replacing the part of p up to an expanded airport p[j] by a no worse
      path t to p[j] through expanded airports gives a path no worse than p
      that still runs through expanded airports. */
  lemma Detour(adj: Adjacency, start: string, P0: set<string>, t: seq<string>,
               w: string, p: seq<string>, j: nat) returns (p': seq<string>)
    requires PathFromTo(adj, p, start, w) && j < |p| - 1
    requires PathFromTo(adj, t, start, p[j]) && PathLeq(t, p[..j + 1])
    requires forall k :: 0 <= k < |t| ==> t[k] in P0
    requires forall l :: j <= l < |p| - 1 ==> p[l] in P0
    ensures PathFromTo(adj, p', start, w) && Through(p', P0) && PathLeq(p', p)
  {
    var tail := p[j + 1..];
    var py := p[..j + 1];
    p' := t + tail;
    PathSuffix(adj, p, j);
    assert p[j..][1..] == tail;
    PathConcat(adj, t, p[j..]);
    assert Through(p', P0) by {
      forall k | 0 <= k < |p'| - 1 ensures p'[k] in P0 {
        if k < |t| {
          assert p'[k] == t[k];
        } else {
          assert p'[k] == p[j + 1 + k - |t|];
        }
      }
    }
    assert |tail| == |p| - (j + 1) >= 1;
    assert tail[|tail| - 1] == p[|p| - 1];
    assert p'[|p'| - 1] == tail[|tail| - 1];
    PathLeqAppendSeq(t, py, tail);
    assert py + tail == p;
  }

  /** A path that leaves cur earlier continues through expanded airports
      only: it ends at an airport visited before, and a queued one's tree
      path is no worse. */
  lemma ViaCurEarlier(adj: Adjacency, start: string, visited0: set<string>, parent0: map<string, string>,
                      tree0: map<string, seq<string>>, P0: set<string>, q0: seq<string>,
                      w: string, p: seq<string>, i: nat)
    requires TreeOk(adj, start, visited0, parent0, tree0) && ParentsExpanded(parent0, P0)
    requires ExpandedClosed(adj, P0, visited0) && ExpandedOptimal(adj, start, tree0, P0)
    requires QueuedOptimal(adj, start, tree0, P0, q0)
    requires start in P0 || P0 == {}
    requires PathFromTo(adj, p, start, w) && i < |p| - 2
    requires forall l :: i < l < |p| - 1 ==> p[l] in P0
    ensures w in visited0
    ensures w in q0 ==> PathLeq(tree0[w], p)
  {
    LastHopVisited(adj, P0, visited0, p);
    if w in q0 {
      assert p[i + 1] in P0;
      ViaCurEarlierQueued(adj, start, visited0, parent0, tree0, P0, w, p, i);
    }
  }

  /** ViaCurEarlier for a queued w: the path detours through expanded airports only. */
  lemma ViaCurEarlierQueued(adj: Adjacency, start: string, visited0: set<string>, parent0: map<string, string>,
                            tree0: map<string, seq<string>>, P0: set<string>, w: string, p: seq<string>, i: nat)
    requires TreeOk(adj, start, visited0, parent0, tree0) && ParentsExpanded(parent0, P0)
    requires ExpandedOptimal(adj, start, tree0, P0) && OptimalAmong(adj, start, tree0, w, P0)
    requires PathFromTo(adj, p, start, w) && i < |p| - 2 && start in P0
    requires forall l :: i < l < |p| - 1 ==> p[l] in P0
    ensures PathLeq(tree0[w], p)
  {
    var y := p[i + 1];
    TreeInside(adj, start, visited0, parent0, tree0, P0, y);
    PathPrefix(adj, p, i + 2);
    assert PathFromTo(adj, p[..i + 2], start, y);
    assert OptimalFor(adj, start, tree0, y);
    DetourLeq(adj, start, tree0, P0, tree0[y], w, p, i + 1);
  }

  /** A path to w whose part from p[j] on runs through expanded airports is
      no better than w's tree path, once a no worse expanded path t to p[j] exists. */
  lemma DetourLeq(adj: Adjacency, start: string, tree0: map<string, seq<string>>, P0: set<string>,
                  t: seq<string>, w: string, p: seq<string>, j: nat)
    requires OptimalAmong(adj, start, tree0, w, P0)
    requires PathFromTo(adj, p, start, w) && j < |p| - 1
    requires PathFromTo(adj, t, start, p[j]) && PathLeq(t, p[..j + 1])
    requires forall k :: 0 <= k < |t| ==> t[k] in P0
    requires forall l :: j <= l < |p| - 1 ==> p[l] in P0
    ensures PathLeq(tree0[w], p)
  {
    var p' := Detour(adj, start, P0, t, w, p, j);
    PathLeqTransitive(tree0[w], p', p);
  }

  /** One path through the expanded airports and cur: if it ends at a new
      child, it is no better than the child's tree path; if it ends at an
      airport queued before, no better than that airport's tree path. */
  lemma QueuedCase(adj: Adjacency, start: string, visited0: set<string>, parent0: map<string, string>,
                   tree0: map<string, seq<string>>, P0: set<string>, q0: seq<string>,
                   w: string, p: seq<string>)
    requires TreeOk(adj, start, visited0, parent0, tree0) && ParentsExpanded(parent0, P0)
    requires ExpandedClosed(adj, P0, visited0) && ExpandedOptimal(adj, start, tree0, P0)
    requires QueuedOptimal(adj, start, tree0, P0, q0)
    requires QueueBand(tree0, q0) && ExpandedFirst(tree0, P0, q0) && q0 != []
    requires OptimalFor(adj, start, tree0, q0[0]) && (start in P0 || P0 == {})
    requires PathFromTo(adj, p, start, w) && Through(p, P0 + {q0[0]})
    ensures w !in visited0 ==> PathLeq(tree0[q0[0]] + [w], p)
    ensures w in q0 ==> PathLeq(tree0[w], p)
  {
    if exists i :: 0 <= i < |p| - 1 && p[i] == q0[0] {
      QueuedViaCur(adj, start, visited0, parent0, tree0, P0, q0, w, p);
    } else {
      QueuedAvoiding(adj, start, visited0, parent0, tree0, P0, q0, w, p);
    }
  }

  /** QueuedCase for a path that passes through the airport being expanded. */
  lemma QueuedViaCur(adj: Adjacency, start: string, visited0: set<string>, parent0: map<string, string>,
                     tree0: map<string, seq<string>>, P0: set<string>, q0: seq<string>,
                     w: string, p: seq<string>)
    requires TreeOk(adj, start, visited0, parent0, tree0) && ParentsExpanded(parent0, P0)
    requires ExpandedClosed(adj, P0, visited0) && ExpandedOptimal(adj, start, tree0, P0)
    requires QueuedOptimal(adj, start, tree0, P0, q0)
    requires QueueBand(tree0, q0) && ExpandedFirst(tree0, P0, q0) && q0 != []
    requires OptimalFor(adj, start, tree0, q0[0]) && (start in P0 || P0 == {})
    requires PathFromTo(adj, p, start, w) && Through(p, P0 + {q0[0]})
    requires exists i :: 0 <= i < |p| - 1 && p[i] == q0[0]
    ensures w !in visited0 ==> PathLeq(tree0[q0[0]] + [w], p)
    ensures w in q0 ==> PathLeq(tree0[w], p)
  {
    var cur := q0[0];
    var i := LastBefore(p, cur);
    if i == |p| - 2 {
      ViaCurLast(adj, start, tree0, cur, w, p);
      if w in q0 {
        ChildAfterQueued(adj, start, visited0, parent0, tree0, P0, q0, w, w);
        PathLessLeqTransitive(tree0[w], tree0[cur] + [w], p);
      }
    } else {
      ViaCurEarlier(adj, start, visited0, parent0, tree0, P0, q0, w, p, i);
    }
  }

  /** QueuedCase for a path that avoids the airport being expanded. */
  lemma QueuedAvoiding(adj: Adjacency, start: string, visited0: set<string>, parent0: map<string, string>,
                       tree0: map<string, seq<string>>, P0: set<string>, q0: seq<string>,
                       w: string, p: seq<string>)
    requires TreeOk(adj, start, visited0, parent0, tree0)
    requires ExpandedClosed(adj, P0, visited0) && QueuedOptimal(adj, start, tree0, P0, q0) && q0 != []
    requires PathFromTo(adj, p, start, w) && Through(p, P0 + {q0[0]})
    requires forall i :: 0 <= i < |p| - 1 ==> p[i] != q0[0]
    ensures w in visited0
    ensures w in q0 ==> PathLeq(tree0[w], p)
  {
    AvoidingCur(adj, start, P0, visited0, w, p);
    if w in q0 {
      assert OptimalAmong(adj, start, tree0, w, P0);
    }
  }

  /** The heart of the argument: a queued tree path stays least among the
      paths through the expanded airports now that cur is one of them. */
  lemma FinishQueuedOptimal(adj: Adjacency, start: string, P0: set<string>, N: seq<string>,
                            visited0: set<string>, parent0: map<string, string>,
                            tree0: map<string, seq<string>>, q0: seq<string>, C: seq<string>,
                            visited: set<string>, parent: map<string, string>,
                            tree: map<string, seq<string>>, q: seq<string>)
    requires TreeOk(adj, start, visited0, parent0, tree0) && ParentsExpanded(parent0, P0)
    requires ExpandedClosed(adj, P0, visited0) && ExpandedOptimal(adj, start, tree0, P0)
    requires QueuedOptimal(adj, start, tree0, P0, q0)
    requires QueueBand(tree0, q0) && ExpandedFirst(tree0, P0, q0) && q0 != []
    requires OptimalFor(adj, start, tree0, q0[0]) && (start in P0 || P0 == {})
    requires Expanding(q0[0], N, |N|, visited0, parent0, tree0, q0[1..], C, visited, parent, tree, q)
    ensures QueuedOptimal(adj, start, tree, P0 + {q0[0]}, q)
  {
    forall w, p | w in q && PathFromTo(adj, p, start, w) && Through(p, P0 + {q0[0]})
      ensures PathLeq(tree[w], p)
    {
      QueuedCase(adj, start, visited0, parent0, tree0, P0, q0, w, p);
      if w !in C {
        assert w in q0;
      }
    }
  }

  /** One full expansion step keeps the invariant. */
  lemma BfsExpand(adj: Adjacency, start: string, end: string,
                  visited0: set<string>, parent0: map<string, string>,
                  tree0: map<string, seq<string>>, P0: set<string>, q0: seq<string>,
                  N: seq<string>, C: seq<string>,
                  visited: set<string>, parent: map<string, string>,
                  tree: map<string, seq<string>>, q: seq<string>)
    requires ExpandDone(adj, start, end, visited0, parent0, tree0, P0, q0, N, C, visited, parent, tree, q)
    ensures BfsInv(adj, start, end, visited, parent, tree, P0 + {q0[0]}, q)
  {
    var cur := q0[0];
    FrontOptimal(adj, start, end, visited0, parent0, tree0, P0, q0);
    FinishTree(adj, start, cur, N, visited0, parent0, tree0, q0[1..], C, visited, parent, tree, q);
    FinishFrontier(P0, N, visited0, parent0, tree0, q0, C, visited, parent, tree, q);
    FinishSorted(adj, start, P0, N, visited0, parent0, tree0, q0, C, visited, parent, tree, q);
    FinishBand(N, visited0, parent0, tree0, q0, C, visited, parent, tree, q);
    FinishFirst(P0, N, visited0, parent0, tree0, q0, C, visited, parent, tree, q);
    FinishParents(cur, N, P0, visited0, parent0, tree0, q0[1..], C, visited, parent, tree, q);
    FinishClosed(adj, cur, N, P0, visited0, parent0, tree0, q0[1..], C, visited, parent, tree, q);
    FinishExpandedOptimal(adj, start, P0, N, visited0, parent0, tree0, q0, C, visited, parent, tree, q);
    FinishQueuedOptimal(adj, start, P0, N, visited0, parent0, tree0, q0, C, visited, parent, tree, q);
  }

  /** An empty queue: the goal is unreachable. */
  lemma BfsExhausted(adj: Adjacency, start: string, end: string, visited: set<string>,
                     parent: map<string, string>, tree: map<string, seq<string>>, P: set<string>)
    requires BfsInv(adj, start, end, visited, parent, tree, P, [])
    ensures !Reachable(adj, start, end)
  {
    Exhausted(adj, start, end, visited, P);
  }
}
