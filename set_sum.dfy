/** Sums of natural-valued functions over finite sets of airport codes.
    The graph is stored in hash maps that are iterated in no fixed order;
    these sums give the totals (in-degree, route count, Dijkstra's
    termination measure) their order-independent meaning. */
module SetSum {

  /** Some element of a non-empty set. */
  ghost function Pick(s: set<string>): (k: string)
    requires s != {}
    ensures k in s
  {
    var k :| k in s; k
  }

  /** The sum of f over the elements of s. */
  ghost function Sum(s: set<string>, f: string -> nat): nat
    decreases s
  {
    if s == {} then 0 else var k := Pick(s); f(k) + Sum(s - {k}, f)
  }

  /** Any element can be split off first, not just the one Pick chooses. */
  lemma {:induction false} SumSplit(s: set<string>, f: string -> nat, k: string)
    requires k in s
    ensures Sum(s, f) == f(k) + Sum(s - {k}, f)
    decreases s
  {
    var j := Pick(s);
    if j != k {
      SumSplit(s - {j}, f, k);
      SumSplit(s - {k}, f, j);
      assert s - {j} - {k} == s - {k} - {j};
    }
  }

  /** Adding one new element adds its value. */
  lemma SumAdd(s: set<string>, f: string -> nat, k: string)
    requires k !in s
    ensures Sum(s + {k}, f) == Sum(s, f) + f(k)
  {
    SumSplit(s + {k}, f, k);
    assert s + {k} - {k} == s;
  }

  /** Functions that agree on s have the same sum over s. */
  lemma {:induction false} SumExt(s: set<string>, f: string -> nat, g: string -> nat)
    requires forall x :: x in s ==> f(x) == g(x)
    ensures Sum(s, f) == Sum(s, g)
    decreases s
  {
    if s != {} {
      var k := Pick(s);
      SumExt(s - {k}, f, g);
    }
  }

  /** Changing f at a single element k of s changes the sum by the difference. */
  lemma SumUpdate(s: set<string>, f: string -> nat, g: string -> nat, k: string)
    requires k in s
    requires forall x :: x in s && x != k ==> f(x) == g(x)
    ensures Sum(s, g) + f(k) == Sum(s, f) + g(k)
  {
    SumSplit(s, f, k);
    SumSplit(s, g, k);
    SumExt(s - {k}, f, g);
  }

  /** Pointwise smaller functions have smaller sums. */
  lemma {:induction false} SumMono(s: set<string>, f: string -> nat, g: string -> nat)
    requires forall x :: x in s ==> f(x) <= g(x)
    ensures Sum(s, f) <= Sum(s, g)
    decreases s
  {
    if s != {} {
      var k := Pick(s);
      SumMono(s - {k}, f, g);
    }
  }
}
