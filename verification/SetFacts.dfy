/** Cardinality of subsets of [0, n), and sorting a finite set of integers. */
module SetFacts {
  function Interval(lo: int, hi: int): (r: set<int>)
    ensures forall i: int :: i in r <==> lo <= i < hi
    decreases hi - lo
  {
    if hi <= lo then {} else Interval(lo, hi - 1) + {hi - 1}
  }

  function Indices(n: nat): (r: set<int>)
    ensures forall i: int :: i in r <==> 0 <= i < n
  {
    Interval(0, n)
  }

  lemma {:induction false} IntervalSize(lo: int, hi: int)
    requires lo <= hi
    ensures |Interval(lo, hi)| == hi - lo
    decreases hi - lo
  {
    if lo < hi {
      IntervalSize(lo, hi - 1);
    }
  }

  lemma IntervalPart(lo: int, hi: int, n: nat)
    requires 0 <= lo <= hi <= n
    ensures Interval(lo, hi) <= Indices(n) && |Interval(lo, hi)| == hi - lo
  {
    IntervalSize(lo, hi);
  }

  /** Two sets of one size at the two ends of [0, n). */
  lemma TwoEnds(n: nat, m: nat) returns (a: set<int>, b: set<int>)
    requires m <= n <= 2 * m
    ensures a <= Indices(n) && b <= Indices(n) && |a| == |b| == m && |a * b| == 2 * m - n
    ensures n > m > 0 ==> 0 in a && 0 !in b && n - 1 in b && n - 1 !in a
  {
    var k := n - m;
    a, b := Interval(0, m), Interval(k, n);
    IntervalPart(0, m, n);
    IntervalPart(k, n, n);
    IntervalsMeet(m, k, n);
    EndMembers(m, k, n);
  }

  lemma IntervalsMeet(m: int, k: int, n: int)
    requires 0 <= k <= m <= n
    ensures Interval(0, m) * Interval(k, n) == Interval(k, m) && |Interval(0, m) * Interval(k, n)| == m - k
  {
    IntervalSize(k, m);
    forall i: int ensures i in Interval(0, m) * Interval(k, n) <==> i in Interval(k, m) {
    }
  }

  lemma EndMembers(m: int, k: int, n: int)
    requires 0 <= k <= m <= n
    ensures k > 0 && m > 0 ==> 0 in Interval(0, m) && 0 !in Interval(k, n)
    ensures m < n ==> n - 1 in Interval(k, n) && n - 1 !in Interval(0, m)
  {
  }

  lemma SubsetSize<T>(a: set<T>, b: set<T>)
    requires a <= b
    ensures |a| <= |b|
  {
    assert b == a + (b - a);
  }

  /** Two subsets of [0, n) share at least as many elements as their sizes exceed n. */
  lemma OverlapSize(a: set<int>, b: set<int>, n: nat)
    requires a <= Indices(n) && b <= Indices(n)
    ensures |a * b| >= |a| + |b| - n
  {
    IntervalSize(0, n);
    SubsetSize(a + b, Indices(n));
    assert |a + b| + |a * b| == |a| + |b|;
  }

  lemma Pick<T>(s: set<T>) returns (x: T)
    requires s != {}
    ensures x in s
  {
    x :| x in s;
  }

  /** A set larger than another has an element outside it. */
  lemma PickOutside<T>(a: set<T>, b: set<T>) returns (x: T)
    requires |a| > |b|
    ensures x in a && x !in b
  {
    SubsetSize(a * b, b);
    assert a == (a - b) + (a * b);
    x := Pick(a - b);
  }

  ghost predicate Increasing(s: seq<int>) {
    forall i, j :: 0 <= i < j < |s| ==> s[i] < s[j]
  }

  lemma {:induction false} HasLeast(s: set<int>) returns (m: int)
    requires s != {}
    ensures m in s && forall x :: x in s ==> m <= x
  {
    var y := Pick(s);
    if s == {y} {
      m := y;
    } else {
      var rest := s - {y};
      assert s == rest + {y};
      m := HasLeast(rest);
      if y < m {
        m := y;
      }
    }
  }

  function Least(s: set<int>): (m: int)
    requires s != {}
    ensures m in s && forall x :: x in s ==> m <= x
  {
    assert exists m :: m in s && forall x :: x in s ==> m <= x by {
      var m := HasLeast(s);
    }
    var m :| m in s && forall x :: x in s ==> m <= x;
    m
  }

  /** The elements of a set in increasing order. */
  function Sorted(s: set<int>): (r: seq<int>)
    ensures |r| == |s| && Increasing(r)
    ensures forall x :: x in r <==> x in s
  {
    if s == {} then []
    else
      var m := Least(s);
      [m] + Sorted(s - {m})
  }
}
