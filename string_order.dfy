/** The order std::set<std::string> keeps its elements in (std::string's
    operator<: the first differing character decides, a proper prefix is
    smaller), and the shortlex order on vertex sequences that breadth-first
    search with sorted neighbour expansion produces: fewer vertices first,
    then lexicographic by vertex code. */
module StringOrder {

  /** std::string operator< on codes. */
  predicate StrLess(a: string, b: string)
  {
    if a == [] then b != []
    else if b == [] then false
    else if a[0] == b[0] then StrLess(a[1..], b[1..])
    else a[0] < b[0]
  }

  lemma {:induction false} StrLessIrreflexive(a: string)
    ensures !StrLess(a, a)
  {
    if a != [] { StrLessIrreflexive(a[1..]); }
  }

  lemma {:induction false} StrLessTransitive(a: string, b: string, c: string)
    requires StrLess(a, b) && StrLess(b, c)
    ensures StrLess(a, c)
  {
    if a != [] && b != [] && c != [] && a[0] == b[0] && b[0] == c[0] {
      StrLessTransitive(a[1..], b[1..], c[1..]);
    }
  }

  lemma {:induction false} StrLessTotal(a: string, b: string)
    ensures a == b || StrLess(a, b) || StrLess(b, a)
  {
    if a != [] && b != [] && a[0] == b[0] {
      StrLessTotal(a[1..], b[1..]);
      if a[1..] == b[1..] {
        assert a == [a[0]] + a[1..] && b == [b[0]] + b[1..];
      }
    }
  }

  lemma StrLessAsymmetric(a: string, b: string)
    requires StrLess(a, b)
    ensures !StrLess(b, a)
  {
    if StrLess(b, a) {
      StrLessTransitive(a, b, a);
      StrLessIrreflexive(a);
    }
  }

  /** Strictly increasing under StrLess: the iteration order of a std::set. */
  ghost predicate StrictlySorted(s: seq<string>)
  {
    forall i, j :: 0 <= i < j < |s| ==> StrLess(s[i], s[j])
  }

  /** Lexicographic order on two vertex sequences of the same length. */
  predicate LexLess(p: seq<string>, q: seq<string>)
    requires |p| == |q|
  {
    if p == [] then false
    else if p[0] == q[0] then LexLess(p[1..], q[1..])
    else StrLess(p[0], q[0])
  }

  /** Shortlex: fewer vertices, or as many and lexicographically smaller. */
  predicate PathLess(p: seq<string>, q: seq<string>)
  {
    |p| < |q| || (|p| == |q| && LexLess(p, q))
  }

  predicate PathLeq(p: seq<string>, q: seq<string>)
  {
    p == q || PathLess(p, q)
  }

  lemma {:induction false} LexLessIrreflexive(p: seq<string>)
    ensures !LexLess(p, p)
  {
    if p != [] { LexLessIrreflexive(p[1..]); }
  }

  lemma {:induction false} LexLessTransitive(p: seq<string>, q: seq<string>, r: seq<string>)
    requires |p| == |q| == |r|
    requires LexLess(p, q) && LexLess(q, r)
    ensures LexLess(p, r)
  {
    if p[0] == q[0] && q[0] == r[0] {
      LexLessTransitive(p[1..], q[1..], r[1..]);
    } else if p[0] == q[0] {
      assert StrLess(p[0], r[0]);
    } else if q[0] == r[0] {
      assert StrLess(p[0], r[0]);
    } else {
      StrLessTransitive(p[0], q[0], r[0]);
      if p[0] == r[0] {
        StrLessAsymmetric(p[0], q[0]);
      }
    }
  }

  /** Appending to equal-length sequences: the earlier difference decides,
      and only if there is none does the appended vertex. */
  lemma {:induction false} LexLessAppend(p: seq<string>, q: seq<string>, x: string, y: string)
    requires |p| == |q|
    ensures LexLess(p + [x], q + [y]) <==> LexLess(p, q) || (p == q && StrLess(x, y))
  {
    if p == [] {
      assert q == [];
      assert (p + [x])[1..] == [] && (q + [y])[1..] == [];
      StrLessIrreflexive(x);
    } else {
      assert (p + [x])[1..] == p[1..] + [x] && (q + [y])[1..] == q[1..] + [y];
      LexLessAppend(p[1..], q[1..], x, y);
      if p[0] == q[0] && p[1..] == q[1..] {
        assert p == [p[0]] + p[1..] && q == [q[0]] + q[1..];
      }
    }
  }

  lemma PathLessIrreflexive(p: seq<string>)
    ensures !PathLess(p, p)
  {
    LexLessIrreflexive(p);
  }

  lemma PathLessTransitive(p: seq<string>, q: seq<string>, r: seq<string>)
    requires PathLess(p, q) && PathLess(q, r)
    ensures PathLess(p, r)
  {
    if |p| == |q| == |r| {
      LexLessTransitive(p, q, r);
    }
  }

  lemma PathLeqTransitive(p: seq<string>, q: seq<string>, r: seq<string>)
    requires PathLeq(p, q) && PathLeq(q, r)
    ensures PathLeq(p, r)
  {
    if p != q && q != r {
      PathLessTransitive(p, q, r);
    }
  }

  lemma PathLessLeqTransitive(p: seq<string>, q: seq<string>, r: seq<string>)
    requires PathLess(p, q) && PathLeq(q, r)
    ensures PathLess(p, r)
  {
    if q != r {
      PathLessTransitive(p, q, r);
    }
  }

  /** The two orders cannot point both ways. */
  lemma PathLeqAntisymmetric(p: seq<string>, q: seq<string>)
    requires PathLeq(p, q) && PathLeq(q, p)
    ensures p == q
  {
    if p != q {
      PathLessTransitive(p, q, p);
      PathLessIrreflexive(p);
    }
  }

  /** A prefix comes no later than the whole sequence. */
  lemma PrefixPathLeq(p: seq<string>, k: nat)
    requires k <= |p|
    ensures PathLeq(p[..k], p)
  {
    if k == |p| {
      assert p[..k] == p;
    }
  }

  /** Extending both sequences by the same vertex keeps their order. */
  lemma PathLessAppend(p: seq<string>, q: seq<string>, x: string)
    requires PathLess(p, q)
    ensures PathLess(p + [x], q + [x])
  {
    if |p| == |q| {
      LexLessAppend(p, q, x, x);
    }
  }

  lemma PathLeqAppend(p: seq<string>, q: seq<string>, x: string)
    requires PathLeq(p, q)
    ensures PathLeq(p + [x], q + [x])
  {
    if p != q {
      PathLessAppend(p, q, x);
    }
  }

  /** Two one-vertex extensions of the same sequence are ordered by the vertex. */
  lemma PathLessSameParent(p: seq<string>, x: string, y: string)
    requires StrLess(x, y)
    ensures PathLess(p + [x], p + [y])
  {
    LexLessAppend(p, p, x, y);
  }

  /** Extensions of a strictly smaller equal-length sequence stay smaller. */
  lemma PathLessDifferentParent(p: seq<string>, q: seq<string>, x: string, y: string)
    requires |p| == |q| && PathLess(p, q)
    ensures PathLess(p + [x], q + [y])
  {
    LexLessAppend(p, q, x, y);
  }

  // ---------------------------------------------------------------------
  // std::set<std::string>::insert on the set's iteration sequence.

  /** Inserting into a std::set: the result is still strictly increasing and
      holds exactly the old elements and x (an element already present is
      not added again). */
  function InsertSorted(s: seq<string>, x: string): (r: seq<string>)
    requires StrictlySorted(s)
    ensures StrictlySorted(r)
    ensures forall y :: y in r <==> y in s || y == x
    ensures |r| == if x in s then |s| else |s| + 1
    decreases |s|
  {
    if s == [] then [x]
    else if x == s[0] then s
    else if StrLess(x, s[0]) then
      assert forall i :: 0 <= i < |s| ==> s[i] == x || StrLess(x, s[i]) by {
        forall i | 0 <= i < |s| ensures s[i] == x || StrLess(x, s[i]) {
          if i > 0 { StrLessTransitive(x, s[0], s[i]); }
        }
      }
      assert x !in s by {
        forall i | 0 <= i < |s| ensures s[i] != x {
          if i > 0 && s[i] == x { StrLessAsymmetric(x, s[0]); }
        }
      }
      [x] + s
    else
      var rest := InsertSorted(s[1..], x);
      StrLessTotal(x, s[0]);
      assert forall y :: y in s <==> y == s[0] || y in s[1..] by {
        assert s == [s[0]] + s[1..];
      }
      assert s[0] !in s[1..] by {
        forall i | 0 <= i < |s| - 1 ensures s[1..][i] != s[0] {
          assert StrLess(s[0], s[i + 1]);
          StrLessIrreflexive(s[0]);
        }
      }
      assert forall y :: y in rest ==> StrLess(s[0], y) by {
        forall y | y in rest ensures StrLess(s[0], y) {
          if y != x {
            var i :| 0 <= i < |s[1..]| && s[1..][i] == y;
            assert StrLess(s[0], s[i + 1]);
          }
        }
      }
      [s[0]] + rest
  }
}
