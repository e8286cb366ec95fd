/** Why findShortestPath reports the least total distance. The priority queue
    is a multiset of entries; an entry whose distance exceeds the airport's
    current tentative distance is stale. `done` is the set of airports whose
    current entry has been popped and whose routes have been relaxed; `order`
    numbers them in the order they were finished, which ranks the parent
    links. Route distances are natural numbers. */
module DijkstraProof {
  import opened SetSum
  import opened GraphSpec
  import opened GraphLemmas
  import opened PathTree

  /** A tentative distance; Inf is the INT_MAX every airport starts at. */
  datatype Dist = Inf | Fin(n: nat)

  // ---------------------------------------------------------------------
  // Termination: relaxations make an infinite distance finite or lower a
  // finite one.

  function InfValue(dist: map<string, Dist>, v: string): nat
  {
    if v in dist && dist[v].Inf? then 1 else 0
  }

  function InfOf(dist: map<string, Dist>): string -> nat
  {
    v => InfValue(dist, v)
  }

  /** How many airports are still at INT_MAX. */
  ghost function InfCount(dist: map<string, Dist>): nat
  {
    Sum(dist.Keys, InfOf(dist))
  }

  function FinValue(dist: map<string, Dist>, v: string): nat
  {
    if v in dist && dist[v].Fin? then dist[v].n else 0
  }

  function FinOf(dist: map<string, Dist>): string -> nat
  {
    v => FinValue(dist, v)
  }

  /** The total of the finite tentative distances. */
  ghost function FinSum(dist: map<string, Dist>): nat
  {
    Sum(dist.Keys, FinOf(dist))
  }

  lemma LowerInf(dist: map<string, Dist>, v: string, b: nat)
    requires v in dist && dist[v].Inf?
    ensures InfCount(dist[v := Fin(b)]) < InfCount(dist)
  {
    var d := dist[v := Fin(b)];
    assert d.Keys == dist.Keys;
    SumUpdate(dist.Keys, InfOf(dist), InfOf(d), v);
  }

  lemma LowerFin(dist: map<string, Dist>, v: string, b: nat)
    requires v in dist && dist[v].Fin? && b < dist[v].n
    ensures InfCount(dist[v := Fin(b)]) == InfCount(dist)
    ensures FinSum(dist[v := Fin(b)]) < FinSum(dist)
  {
    var d := dist[v := Fin(b)];
    assert d.Keys == dist.Keys;
    SumUpdate(dist.Keys, InfOf(dist), InfOf(d), v);
    SumUpdate(dist.Keys, FinOf(dist), FinOf(d), v);
  }

  // ---------------------------------------------------------------------
  // The invariant, conjunct by conjunct.

  /** Tentative distances exist for exactly the registered airports; start is
      at 0; every route leads to a registered airport. */
  ghost predicate Keys(adj: Adjacency, V: set<string>, start: string, end: string, dist: map<string, Dist>)
  {
    (forall v :: v in dist <==> v in V) && start in V && end in V && dist[start] == Fin(0) &&
    (forall u, r :: r in RoutesOf(adj, u) ==> r.destination in V)
  }

  /** Every entry is at or above its airport's finite tentative distance. */
  ghost predicate EntriesSound(dist: map<string, Dist>, pq: multiset<NodeDistance>)
  {
    forall e :: e in pq ==> e.airport in dist && dist[e.airport].Fin? && dist[e.airport].n <= e.distance
  }

  /** Every unfinished airport with a finite distance has its current entry queued. */
  ghost predicate EntriesComplete(dist: map<string, Dist>, pq: multiset<NodeDistance>, done: set<string>)
  {
    forall v :: v in dist && dist[v].Fin? && v !in done ==> NodeDistance(v, dist[v].n) in pq
  }

  /** Finished airports have finite distances no larger than any queued entry. */
  ghost predicate DoneFirst(dist: map<string, Dist>, pq: multiset<NodeDistance>, done: set<string>)
  {
    (forall v :: v in done ==> v in dist && dist[v].Fin?) &&
    forall v, e :: v in done && e in pq ==> dist[v].n <= e.distance
  }

  /** Every route out of S has been relaxed. */
  ghost predicate RoutesRelaxed(adj: Adjacency, dist: map<string, Dist>, S: set<string>)
  {
    forall u, r :: u in S && r in RoutesOf(adj, u) ==>
      u in dist && dist[u].Fin? && r.destination in dist && dist[r.destination].Fin? &&
      dist[r.destination].n <= dist[u].n + r.distance
  }

  /** A finished airport's distance is no larger than that of any walk to it. */
  ghost predicate DoneOptimal(adj: Adjacency, start: string, dist: map<string, Dist>, done: set<string>)
  {
    forall v, p, ws :: v in done && WalkFromTo(adj, p, ws, start, v) ==>
      v in dist && dist[v].Fin? && dist[v].n <= Total(ws)
  }

  /** A parent link leaves a finished airport by a route whose distance is
      the difference of the two tentative distances. */
  ghost predicate ParentsSound(adj: Adjacency, dist: map<string, Dist>, parent: map<string, string>,
                               done: set<string>)
  {
    forall v :: v in parent ==>
      v in dist && dist[v].Fin? && parent[v] in done && parent[v] in dist && dist[parent[v]].Fin? &&
      dist[parent[v]].n <= dist[v].n &&
      HasRouteOfLength(adj, parent[v], v, dist[v].n - dist[parent[v]].n)
  }

  /** Every airport but start with a finite distance has a parent. */
  ghost predicate ParentsComplete(start: string, dist: map<string, Dist>, parent: map<string, string>)
  {
    forall v :: v in dist && dist[v].Fin? && v != start ==> v in parent
  }

  /** order numbers the finished airports below n, a finished airport after its parent. */
  ghost predicate Ordered(parent: map<string, string>, done: set<string>, order: map<string, nat>, n: nat)
  {
    (forall v :: v in done <==> v in order) &&
    (forall v :: v in order ==> order[v] < n) &&
    (forall v :: v in parent && v in order && parent[v] in order ==> order[parent[v]] < order[v])
  }

  ghost predicate Base(adj: Adjacency, V: set<string>, start: string, end: string,
                       dist: map<string, Dist>, parent: map<string, string>, pq: multiset<NodeDistance>,
                       done: set<string>, order: map<string, nat>, n: nat)
  {
    Keys(adj, V, start, end, dist) && EntriesSound(dist, pq) && EntriesComplete(dist, pq, done) &&
    DoneFirst(dist, pq, done) && DoneOptimal(adj, start, dist, done) &&
    ParentsSound(adj, dist, parent, done) && ParentsComplete(start, dist, parent) &&
    Ordered(parent, done, order, n) && end !in done && start !in parent
  }

  /** The invariant of findShortestPath's loop. */
  ghost predicate DijkstraInv(adj: Adjacency, V: set<string>, start: string, end: string,
                              dist: map<string, Dist>, parent: map<string, string>, pq: multiset<NodeDistance>,
                              done: set<string>, order: map<string, nat>, n: nat)
  {
    Base(adj, V, start, end, dist, parent, pq, done, order, n) && RoutesRelaxed(adj, dist, done)
  }

  /** The first j routes of u have been relaxed. */
  ghost predicate Relaxed(dist: map<string, Dist>, u: string, routes: seq<Route>, j: nat)
  {
    u in dist && dist[u].Fin? && j <= |routes| &&
    forall k :: 0 <= k < j ==>
      routes[k].destination in dist && dist[routes[k].destination].Fin? &&
      dist[routes[k].destination].n <= dist[u].n + routes[k].distance
  }

  /** No finished airport is farther than u. */
  ghost predicate DoneBelow(dist: map<string, Dist>, done: set<string>, u: string)
  {
    u in dist && dist[u].Fin? &&
    forall v :: v in done ==> v in dist && dist[v].Fin? && dist[v].n <= dist[u].n
  }

  /** Midway through relaxing the routes of u. */
  ghost predicate RelaxMid(adj: Adjacency, V: set<string>, start: string, end: string,
                           dist: map<string, Dist>, parent: map<string, string>, pq: multiset<NodeDistance>,
                           done: set<string>, order: map<string, nat>, n: nat,
                           u: string, routes: seq<Route>, j: nat)
  {
    Base(adj, V, start, end, dist, parent, pq, done, order, n) &&
    u in done && routes == RoutesOf(adj, u) &&
    RoutesRelaxed(adj, dist, done - {u}) && Relaxed(dist, u, routes, j) && DoneBelow(dist, done, u)
  }

  // ---------------------------------------------------------------------
  // The steps.

  lemma DijkstraBegin(adj: Adjacency, V: set<string>, start: string, end: string, dist0: map<string, Dist>)
    requires (forall v :: v in dist0 <==> v in V) && (forall v :: v in dist0 ==> dist0[v] == Inf)
    requires start in V && end in V && forall u, r :: r in RoutesOf(adj, u) ==> r.destination in V
    ensures DijkstraInv(adj, V, start, end, dist0[start := Fin(0)], map[], multiset{NodeDistance(start, 0)},
                        {}, map[], 0)
  {
  }

  /** A non-empty queue has an entry of least distance. */
  lemma {:induction false} MinEntry(pq: multiset<NodeDistance>) returns (e: NodeDistance)
    requires pq != multiset{}
    ensures e in pq && forall f :: f in pq ==> e.distance <= f.distance
    decreases |pq|
  {
    var x :| x in pq;
    var rest := pq - multiset{x};
    assert pq == rest + multiset{x};
    assert forall f :: f in pq ==> f in rest || f == x;
    if rest == multiset{} {
      e := x;
    } else {
      var m := MinEntry(rest);
      e := if m.distance <= x.distance then m else x;
    }
  }

  /** Any walk to an unfinished airport is at least as long as some queued entry. */
  lemma WalkEntry(adj: Adjacency, V: set<string>, start: string, end: string,
                  dist: map<string, Dist>, pq: multiset<NodeDistance>, done: set<string>,
                  p: seq<string>, ws: seq<nat>, t: string) returns (e: NodeDistance)
    requires Keys(adj, V, start, end, dist) && EntriesComplete(dist, pq, done) && DoneFirst(dist, pq, done)
    requires RoutesRelaxed(adj, dist, done) && DoneOptimal(adj, start, dist, done)
    requires WalkFromTo(adj, p, ws, start, t) && t !in done
    ensures e in pq && e.distance <= Total(ws)
  {
    var k := FirstOutside(p, done);
    var y := p[k];
    if k == 0 {
      e := NodeDistance(start, 0);
    } else {
      var x := p[k - 1];
      WalkPrefix(adj, p, ws, k - 1);
      assert p[..k][0] == start && p[..k][k - 1] == x;
      assert WalkFromTo(adj, p[..k], ws[..k - 1], start, x);
      assert dist[x].n <= Total(ws[..k - 1]);
      assert HasRouteOfLength(adj, x, y, ws[k - 1]);
      var r :| r in RoutesOf(adj, x) && r.destination == y && r.distance == ws[k - 1];
      assert dist[y].n <= dist[x].n + ws[k - 1];
      assert ws[..k] == ws[..k - 1] + [ws[k - 1]];
      TotalAppend(ws[..k - 1], ws[k - 1]);
      TotalPrefix(ws, k);
      e := NodeDistance(y, dist[y].n);
    }
  }

  /** Popping a stale entry changes nothing else. */
  lemma PopStale(adj: Adjacency, V: set<string>, start: string, end: string,
                 dist: map<string, Dist>, parent: map<string, string>, pq: multiset<NodeDistance>,
                 done: set<string>, order: map<string, nat>, n: nat, e: NodeDistance)
    requires DijkstraInv(adj, V, start, end, dist, parent, pq, done, order, n) && e in pq
    requires e.distance > dist[e.airport].n
    ensures DijkstraInv(adj, V, start, end, dist, parent, pq - multiset{e}, done, order, n)
  {
  }

  /** The entry popped is of least distance: every walk to its airport is
      at least that long. */
  lemma PopOptimal(adj: Adjacency, V: set<string>, start: string, end: string,
                   dist: map<string, Dist>, pq: multiset<NodeDistance>, done: set<string>, e: NodeDistance)
    requires Keys(adj, V, start, end, dist) && EntriesComplete(dist, pq, done) && DoneFirst(dist, pq, done)
    requires RoutesRelaxed(adj, dist, done) && DoneOptimal(adj, start, dist, done)
    requires e in pq && forall f :: f in pq ==> e.distance <= f.distance
    requires e.airport !in done
    ensures forall p, ws :: WalkFromTo(adj, p, ws, start, e.airport) ==> e.distance <= Total(ws)
  {
    forall p, ws | WalkFromTo(adj, p, ws, start, e.airport)
      ensures e.distance <= Total(ws)
    {
      var f := WalkEntry(adj, V, start, end, dist, pq, done, p, ws, e.airport);
    }
  }

  /** Taking u's least entry out of the queue and finishing u keeps the
      entry conjuncts. */
  lemma PopEntries(dist: map<string, Dist>, pq: multiset<NodeDistance>, done: set<string>, e: NodeDistance)
    requires EntriesSound(dist, pq) && EntriesComplete(dist, pq, done) && DoneFirst(dist, pq, done)
    requires e in pq && forall f :: f in pq ==> e.distance <= f.distance
    requires e.airport in dist && dist[e.airport].Fin? && e.distance <= dist[e.airport].n
    ensures EntriesSound(dist, pq - multiset{e})
    ensures EntriesComplete(dist, pq - multiset{e}, done + {e.airport})
    ensures DoneFirst(dist, pq - multiset{e}, done + {e.airport})
    ensures DoneBelow(dist, done + {e.airport}, e.airport)
  {
    forall v | v in dist && dist[v].Fin? && v !in done + {e.airport}
      ensures NodeDistance(v, dist[v].n) in pq - multiset{e}
    {
      assert NodeDistance(v, dist[v].n) != e;
    }
  }

  /** Finishing u, whose distance is final, keeps the parent and order conjuncts. */
  lemma PopParents(adj: Adjacency, start: string, dist: map<string, Dist>, parent: map<string, string>,
                   done: set<string>, order: map<string, nat>, n: nat, u: string)
    requires ParentsSound(adj, dist, parent, done) && Ordered(parent, done, order, n) && u !in done
    ensures ParentsSound(adj, dist, parent, done + {u})
    ensures Ordered(parent, done + {u}, order[u := n], n + 1)
  {
  }

  /** Popping the current entry of an unfinished airport u: its distance is
      final, and u is finished. */
  lemma PopNew(adj: Adjacency, V: set<string>, start: string, end: string,
               dist: map<string, Dist>, parent: map<string, string>, pq: multiset<NodeDistance>,
               done: set<string>, order: map<string, nat>, n: nat, e: NodeDistance)
    requires DijkstraInv(adj, V, start, end, dist, parent, pq, done, order, n)
    requires e in pq && forall f :: f in pq ==> e.distance <= f.distance
    requires e.airport != end && e.airport !in done && e.distance <= dist[e.airport].n
    ensures RelaxMid(adj, V, start, end, dist, parent, pq - multiset{e}, done + {e.airport},
                     order[e.airport := n], n + 1, e.airport, RoutesOf(adj, e.airport), 0)
  {
    var u := e.airport;
    assert done + {u} - {u} == done;
    PopOptimal(adj, V, start, end, dist, pq, done, e);
    PopEntries(dist, pq, done, e);
    PopParents(adj, start, dist, parent, done, order, n, u);
  }

  /** Popping the current entry of an airport already finished. */
  lemma PopDone(adj: Adjacency, V: set<string>, start: string, end: string,
                dist: map<string, Dist>, parent: map<string, string>, pq: multiset<NodeDistance>,
                done: set<string>, order: map<string, nat>, n: nat, e: NodeDistance)
    requires DijkstraInv(adj, V, start, end, dist, parent, pq, done, order, n)
    requires e in pq && e.airport in done && e.distance <= dist[e.airport].n
    ensures RelaxMid(adj, V, start, end, dist, parent, pq - multiset{e}, done,
                     order, n, e.airport, RoutesOf(adj, e.airport), 0)
  {
  }

  /** Route j of u gives v no shorter distance: only the count of relaxed
      routes moves. */
  lemma SkipRelaxed(dist: map<string, Dist>, u: string, routes: seq<Route>, j: nat)
    requires Relaxed(dist, u, routes, j) && j < |routes| && routes[j].destination in dist
    requires dist[routes[j].destination].Fin?
    requires dist[routes[j].destination].n <= dist[u].n + routes[j].distance
    ensures Relaxed(dist, u, routes, j + 1)
  {
  }

  lemma RelaxSkip(adj: Adjacency, V: set<string>, start: string, end: string,
                  dist: map<string, Dist>, parent: map<string, string>, pq: multiset<NodeDistance>,
                  done: set<string>, order: map<string, nat>, n: nat,
                  u: string, routes: seq<Route>, j: nat)
    requires RelaxMid(adj, V, start, end, dist, parent, pq, done, order, n, u, routes, j) && j < |routes|
    requires routes[j].destination in dist && dist[routes[j].destination].Fin?
    requires dist[routes[j].destination].n <= dist[u].n + routes[j].distance
    ensures RelaxMid(adj, V, start, end, dist, parent, pq, done, order, n, u, routes, j + 1)
  {
    SkipRelaxed(dist, u, routes, j);
  }

  /** Route j of u leads to a registered airport. */
  lemma RouteTarget(adj: Adjacency, V: set<string>, start: string, end: string,
                    dist: map<string, Dist>, u: string, routes: seq<Route>, j: nat)
    requires Keys(adj, V, start, end, dist) && routes == RoutesOf(adj, u) && j < |routes|
    ensures routes[j].destination in dist
  {
    assert routes[j] in RoutesOf(adj, u);
  }

  /** The conditions under which relaxing route r of u, leading to v, with
      candidate distance alt changes anything. */
  ghost predicate Improves(dist: map<string, Dist>, u: string, r: Route, v: string, alt: nat)
  {
    u in dist && dist[u].Fin? && alt == dist[u].n + r.distance &&
    r.destination == v && v in dist && (dist[v].Inf? || alt < dist[v].n)
  }

  lemma UpdateParents(adj: Adjacency, dist: map<string, Dist>, parent: map<string, string>,
                      done: set<string>, u: string, r: Route, v: string, alt: nat)
    requires ParentsSound(adj, dist, parent, done) && Improves(dist, u, r, v, alt)
    requires u in done && v !in done && r in RoutesOf(adj, u)
    ensures ParentsSound(adj, dist[v := Fin(alt)], parent[v := u], done)
  {
    var dist' := dist[v := Fin(alt)];
    var parent' := parent[v := u];
    forall w | w in parent'
      ensures HasRouteOfLength(adj, parent'[w], w, dist'[w].n - dist'[parent'[w]].n)
    {
      if w == v {
        assert HasRouteOfLength(adj, u, v, r.distance);
      } else {
        assert parent'[w] == parent[w] && dist'[w] == dist[w] && dist'[parent[w]] == dist[parent[w]];
      }
    }
  }

  lemma UpdateEntries(dist: map<string, Dist>, pq: multiset<NodeDistance>, done: set<string>,
                      u: string, r: Route, v: string, alt: nat)
    requires EntriesSound(dist, pq) && EntriesComplete(dist, pq, done) && DoneFirst(dist, pq, done)
    requires DoneBelow(dist, done, u) && Improves(dist, u, r, v, alt) && v !in done
    ensures EntriesSound(dist[v := Fin(alt)], pq + multiset{NodeDistance(v, alt)})
    ensures EntriesComplete(dist[v := Fin(alt)], pq + multiset{NodeDistance(v, alt)}, done)
    ensures DoneFirst(dist[v := Fin(alt)], pq + multiset{NodeDistance(v, alt)}, done)
  {
  }

  lemma UpdateRelaxed(adj: Adjacency, dist: map<string, Dist>, done: set<string>,
                      u: string, routes: seq<Route>, j: nat, v: string, alt: nat)
    requires RoutesRelaxed(adj, dist, done - {u}) && Relaxed(dist, u, routes, j) && j < |routes|
    requires Improves(dist, u, routes[j], v, alt) && v !in done && v != u
    ensures RoutesRelaxed(adj, dist[v := Fin(alt)], done - {u})
    ensures Relaxed(dist[v := Fin(alt)], u, routes, j + 1)
  {
  }

  /** Lowering the distance of an unfinished v other than start, and making
      u its parent, keeps the remaining conjuncts. */
  lemma UpdateFrame(adj: Adjacency, V: set<string>, start: string, end: string,
                    dist: map<string, Dist>, parent: map<string, string>,
                    done: set<string>, order: map<string, nat>, n: nat, u: string, v: string, alt: nat)
    requires Keys(adj, V, start, end, dist) && DoneOptimal(adj, start, dist, done)
    requires ParentsComplete(start, dist, parent) && Ordered(parent, done, order, n)
    requires DoneBelow(dist, done, u) && start !in parent
    requires v in dist && v !in done && v != start
    ensures Keys(adj, V, start, end, dist[v := Fin(alt)])
    ensures DoneOptimal(adj, start, dist[v := Fin(alt)], done)
    ensures ParentsComplete(start, dist[v := Fin(alt)], parent[v := u])
    ensures Ordered(parent[v := u], done, order, n)
    ensures DoneBelow(dist[v := Fin(alt)], done, u) || u == v
    ensures start !in parent[v := u]
  {
  }

  lemma RelaxUpdate(adj: Adjacency, V: set<string>, start: string, end: string,
                    dist: map<string, Dist>, parent: map<string, string>, pq: multiset<NodeDistance>,
                    done: set<string>, order: map<string, nat>, n: nat,
                    u: string, routes: seq<Route>, j: nat, v: string, alt: nat)
    requires RelaxMid(adj, V, start, end, dist, parent, pq, done, order, n, u, routes, j) && j < |routes|
    requires v == routes[j].destination && alt == dist[u].n + routes[j].distance
    requires v in dist && (dist[v].Inf? || alt < dist[v].n)
    ensures RelaxMid(adj, V, start, end, dist[v := Fin(alt)], parent[v := u],
                     pq + multiset{NodeDistance(v, alt)}, done, order, n, u, routes, j + 1)
  {
    var r := routes[j];
    assert r in RoutesOf(adj, u);
    assert Improves(dist, u, r, v, alt);
    assert v !in done;
    assert v != start;
    UpdateParents(adj, dist, parent, done, u, r, v, alt);
    UpdateFrame(adj, V, start, end, dist, parent, done, order, n, u, v, alt);
    UpdateEntries(dist, pq, done, u, r, v, alt);
    UpdateRelaxed(adj, dist, done, u, routes, j, v, alt);
  }

  /** Once all routes of u are relaxed, every route out of a finished airport is. */
  lemma FinishRelaxed(adj: Adjacency, dist: map<string, Dist>, done: set<string>,
                      u: string, routes: seq<Route>)
    requires RoutesRelaxed(adj, dist, done - {u}) && Relaxed(dist, u, routes, |routes|)
    requires routes == RoutesOf(adj, u)
    ensures RoutesRelaxed(adj, dist, done)
  {
    forall x, r | x in done && r in RoutesOf(adj, x)
      ensures x in dist && dist[x].Fin? && r.destination in dist && dist[r.destination].Fin? &&
              dist[r.destination].n <= dist[x].n + r.distance
    {
      if x == u {
        var k :| 0 <= k < |routes| && routes[k] == r;
      }
    }
  }

  /** All routes of u relaxed: the invariant holds again. */
  lemma RelaxFinish(adj: Adjacency, V: set<string>, start: string, end: string,
                    dist: map<string, Dist>, parent: map<string, string>, pq: multiset<NodeDistance>,
                    done: set<string>, order: map<string, nat>, n: nat,
                    u: string, routes: seq<Route>)
    requires RelaxMid(adj, V, start, end, dist, parent, pq, done, order, n, u, routes, |routes|)
    ensures DijkstraInv(adj, V, start, end, dist, parent, pq, done, order, n)
  {
    FinishRelaxed(adj, dist, done, u, routes);
  }

  /** What findShortestPath knows once its loop is over, whichever way it
      ended: the parent links are sound, an unreached end is unreachable,
      and a reached end's distance is that of no walk longer than any. */
  ghost predicate Settled(adj: Adjacency, V: set<string>, start: string, end: string,
                          dist: map<string, Dist>, parent: map<string, string>,
                          done: set<string>, order: map<string, nat>, n: nat)
  {
    Keys(adj, V, start, end, dist) && ParentsSound(adj, dist, parent, done) &&
    ParentsComplete(start, dist, parent) && Ordered(parent, done, order, n) && start !in parent &&
    (dist[end].Inf? ==> !Reachable(adj, start, end)) &&
    (dist[end].Fin? ==> forall p, ws :: WalkFromTo(adj, p, ws, start, end) ==> dist[end].n <= Total(ws))
  }

  /** Popping an entry of end: end's tentative distance is no larger than
      that of any walk to it. */
  lemma EndFinal(adj: Adjacency, V: set<string>, start: string, end: string,
                 dist: map<string, Dist>, parent: map<string, string>, pq: multiset<NodeDistance>,
                 done: set<string>, order: map<string, nat>, n: nat, e: NodeDistance)
    requires DijkstraInv(adj, V, start, end, dist, parent, pq, done, order, n)
    requires e in pq && e.airport == end && forall f :: f in pq ==> e.distance <= f.distance
    ensures dist[end].Fin? && Settled(adj, V, start, end, dist, parent, done, order, n)
  {
    forall p, ws | WalkFromTo(adj, p, ws, start, end)
      ensures dist[end].n <= Total(ws)
    {
      var f := WalkEntry(adj, V, start, end, dist, pq, done, p, ws, end);
    }
  }

  /** An empty queue: end was never reached, and is unreachable. */
  lemma QueueExhausted(adj: Adjacency, V: set<string>, start: string, end: string,
                       dist: map<string, Dist>, parent: map<string, string>,
                       done: set<string>, order: map<string, nat>, n: nat)
    requires DijkstraInv(adj, V, start, end, dist, parent, multiset{}, done, order, n)
    ensures dist[end].Inf? && !Reachable(adj, start, end)
    ensures Settled(adj, V, start, end, dist, parent, done, order, n)
  {
    if Reachable(adj, start, end) {
      var p :| PathFromTo(adj, p, start, end);
      PathHasWalk(adj, p);
      var ws :| IsWalk(adj, p, ws) && Total(ws) == PathDistance(adj, p);
      var f := WalkEntry(adj, V, start, end, dist, multiset{}, done, p, ws, end);
    }
  }

  // ---------------------------------------------------------------------
  // The parent links.

  ghost function DijkstraRank(V: set<string>, done: set<string>, order: map<string, nat>, n: nat)
    : map<string, nat>
  {
    map v | v in V :: if v in done && v in order then order[v] else n
  }

  lemma DijkstraRanked(adj: Adjacency, V: set<string>, dist: map<string, Dist>, parent: map<string, string>,
                       done: set<string>, order: map<string, nat>, n: nat)
    requires (forall v :: v in dist <==> v in V)
    requires ParentsSound(adj, dist, parent, done) && Ordered(parent, done, order, n)
    ensures RankedParents(parent, DijkstraRank(V, done, order, n))
  {
  }

  /** Following parent links from an airport with a finite distance leads back
      to start along a walk of exactly that distance. */
  lemma {:induction false} ChainWalk(adj: Adjacency, start: string,
                                     dist: map<string, Dist>, parent: map<string, string>,
                                     done: set<string>, rank: map<string, nat>, v: string)
      returns (ws: seq<nat>)
    requires start in dist && dist[start] == Fin(0) && ParentsSound(adj, dist, parent, done)
    requires ParentsComplete(start, dist, parent) && RankedParents(parent, rank) && start !in parent
    requires v in dist && dist[v].Fin?
    ensures Chain(parent, rank, start, v).Some?
    ensures IsWalk(adj, Chain(parent, rank, start, v).value, ws)
    ensures Total(ws) == dist[v].n
    decreases if v in rank then rank[v] else 0
  {
    if v == start {
      ws := [];
    } else {
      var u := parent[v];
      assert v in parent;
      var w := dist[v].n - dist[u].n;
      assert HasRouteOfLength(adj, u, v, w);
      var wu := ChainWalk(adj, start, dist, parent, done, rank, u);
      ChainWalkStep(adj, start, parent, rank, u, v, wu, w);
      ws := wu + [w];
    }
  }

  /** One parent link extends the walk along the chain to the parent. */
  lemma ChainWalkStep(adj: Adjacency, start: string, parent: map<string, string>, rank: map<string, nat>,
                      u: string, v: string, wu: seq<nat>, w: nat)
    requires RankedParents(parent, rank) && v != start && v in parent && parent[v] == u
    requires Chain(parent, rank, start, u).Some? && IsWalk(adj, Chain(parent, rank, start, u).value, wu)
    requires HasRouteOfLength(adj, u, v, w)
    ensures Chain(parent, rank, start, v).Some?
    ensures IsWalk(adj, Chain(parent, rank, start, v).value, wu + [w])
    ensures Total(wu + [w]) == Total(wu) + w
  {
    var pu := Chain(parent, rank, start, u).value;
    assert Chain(parent, rank, start, v) == Some(pu + [v]);
    WalkExtend(adj, pu, wu, v, w);
    TotalAppend(wu, w);
  }

  /** The result findShortestPath reports for a reached end: the path read
      off the parent links, whose hops add up to end's distance. */
  lemma ReportFound(adj: Adjacency, V: set<string>, start: string, end: string,
                    dist: map<string, Dist>, parent: map<string, string>,
                    done: set<string>, order: map<string, nat>, n: nat,
                    rank: map<string, nat>, path: seq<string>)
    requires Settled(adj, V, start, end, dist, parent, done, order, n) && dist[end].Fin?
    requires RankedParents(parent, rank)
    requires Chain(parent, rank, start, end).Some? ==> path == Chain(parent, rank, start, end).value
    requires Chain(parent, rank, start, end).None? ==> path == []
    ensures DijkstraResult(adj, V, start, end, PathResult(path, |path| - 1, dist[end].n, DIJKSTRA_TAG, true))
  {
    var ws := ChainWalk(adj, start, dist, parent, done, rank, end);
    WalkIsPath(adj, path, ws);
    assert PathFromTo(adj, path, start, end);
  }
}
