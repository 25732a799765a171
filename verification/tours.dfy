/** Shared vocabulary of the TSP solvers: city labels, tours, tour length and
    the precomputed distance matrix. Cities are labelled 1..n; a tour is a
    sequence of labels that returns to its start. */
module Tours {

  /** The distance oracle on city labels. It stands for the Euclidean distance
      between the coordinates of two cities; its arithmetic is not modelled. */
  type Dist = (int, int) -> real

  datatype Option<T> = None | Some(value: T)

  /** The labels 1..n. */
  function Cities(n: int): (r: set<int>)
    ensures forall c :: c in r <==> 1 <= c <= n
    ensures |r| == if n < 0 then 0 else n
  {
    if n <= 0 then {} else Cities(n - 1) + {n}
  }

  /** The labels 2..n: every city except the fixed start city 1. */
  function Interior(n: int): (r: set<int>)
    ensures forall c :: c in r <==> 2 <= c <= n
    ensures |r| == if n < 1 then 0 else n - 1
  {
    if n <= 1 then {} else Interior(n - 1) + {n}
  }

  /** The list [lo, lo+1, ..., hi], as Python's list(range(lo, hi+1)). */
  function Iota(lo: int, hi: int): (r: seq<int>)
    ensures |r| == if hi < lo then 0 else hi - lo + 1
    ensures forall k :: 0 <= k < |r| ==> r[k] == lo + k
    ensures forall x :: x in r <==> lo <= x <= hi
    decreases hi - lo
  {
    if hi < lo then [] else [lo] + Iota(lo + 1, hi)
  }

  predicate NoDup(s: seq<int>) {
    forall i, j :: 0 <= i < j < |s| ==> s[i] != s[j]
  }

  lemma {:induction false} NoDupTail(s: seq<int>)
    requires NoDup(s) && |s| > 0
    ensures NoDup(s[1..]) && s[0] !in s[1..]
  {
    forall k | 0 <= k < |s| - 1
      ensures s[1..][k] != s[0]
    {
      assert s[1..][k] == s[k + 1];
    }
  }

  /** In a list without repeats, each entry occurs once. */
  lemma {:induction false} NoDupCons(x: int, s: seq<int>)
    requires NoDup(s) && x !in s
    ensures NoDup([x] + s)
  {
    forall a, b | 0 <= a < b < |s| + 1
      ensures ([x] + s)[a] != ([x] + s)[b]
    {
      assert ([x] + s)[b] == s[b - 1];
      if a > 0 {
        assert ([x] + s)[a] == s[a - 1];
      }
    }
  }

  lemma {:induction false} NoDupCount(s: seq<int>, x: int)
    requires NoDup(s)
    ensures multiset(s)[x] == if x in s then 1 else 0
  {
    if s != [] {
      assert s == [s[0]] + s[1..];
      NoDupTail(s);
      NoDupCount(s[1..], x);
    }
  }

  /** The list 2..n orders the interior cities. */
  lemma {:induction false} IotaOrdersInterior(n: int)
    ensures NoDup(Iota(2, n))
    ensures multiset(Iota(2, n)) == multiset(Interior(n))
  {
    var s := Iota(2, n);
    forall x
      ensures multiset(s)[x] == multiset(Interior(n))[x]
    {
      NoDupCount(s, x);
    }
  }

  /** A closed tour over n cities: n+1 entries, starting and ending at city 1,
      and every label 1..n exactly once among the first n entries. */
  ghost predicate IsTour(t: seq<int>, n: int) {
    && n >= 1
    && |t| == n + 1
    && t[0] == 1
    && t[n] == 1
    && multiset(t[..n]) == multiset(Cities(n))
  }

  /** Reference definition of path_length: the sum of dist over consecutive
      pairs, so a closed tour pays for its closing edge. */
  function PathLength(dist: Dist, t: seq<int>): real {
    if |t| <= 1 then 0.0
    else PathLength(dist, t[..|t| - 1]) + dist(t[|t| - 2], t[|t| - 1])
  }

  /** path_length as the source computes it: one pass over zip(tour, tour[1:]). */
  method PathLengthLoop(dist: Dist, t: seq<int>) returns (total: real)
    ensures total == PathLength(dist, t)
    ensures |t| <= 1 ==> total == 0.0
  {
    total := 0.0;
    if |t| == 0 {
      return;
    }
    var i := 1;
    while i < |t|
      invariant 1 <= i <= |t|
      invariant total == PathLength(dist, t[..i])
    {
      assert t[..i + 1][..i] == t[..i];
      total := total + dist(t[i - 1], t[i]);
      i := i + 1;
    }
    assert t[..|t|] == t;
  }

  /** Appending one city to a non-empty path adds exactly the new edge. */
  lemma {:induction false} PathLengthSnoc(dist: Dist, s: seq<int>, x: int)
    requires |s| >= 1
    ensures PathLength(dist, s + [x]) == PathLength(dist, s) + dist(s[|s| - 1], x)
  {
    assert (s + [x])[..|s|] == s;
  }

  function Reverse(s: seq<int>): (r: seq<int>)
    ensures |r| == |s|
    ensures forall k :: 0 <= k < |s| ==> r[k] == s[|s| - 1 - k]
    ensures multiset(r) == multiset(s)
  {
    if s == [] then []
    else
      assert s == s[..|s| - 1] + [s[|s| - 1]];
      [s[|s| - 1]] + Reverse(s[..|s| - 1])
  }

  /** Exchanges the entries at positions u and v. */
  function Swap(s: seq<int>, u: int, v: int): (r: seq<int>)
    requires 0 <= u < |s| && 0 <= v < |s|
    ensures |r| == |s|
    ensures r[u] == s[v] && r[v] == s[u]
    ensures forall k :: 0 <= k < |s| && k != u && k != v ==> r[k] == s[k]
    ensures multiset(r) == multiset(s)
  {
    s[u := s[v]][v := s[u]]
  }

  /** A square matrix whose entry (a-1, b-1) is dist(a, b) for labels 1..n. */
  ghost predicate MatrixAgrees(m: seq<seq<real>>, dist: Dist, n: int) {
    && |m| == n
    && (forall r :: 0 <= r < |m| ==> |m[r]| == n)
    && (forall a, b :: 1 <= a <= n && 1 <= b <= n ==> m[a - 1][b - 1] == dist(a, b))
  }

  /** The distance matrix filled in by the FuzzOpt driver. */
  function DistMatrix(dist: Dist, n: nat): (m: seq<seq<real>>)
    ensures MatrixAgrees(m, dist, n)
  {
    seq(n, i => seq(n, j => dist(i + 1, j + 1)))
  }

  /** Every entry of t is a label the matrix has a row and a column for. */
  ghost predicate LabelsFit(m: seq<seq<real>>, t: seq<int>) {
    && (forall r :: 0 <= r < |m| ==> |m[r]| == |m|)
    && (forall k :: 0 <= k < |t| ==> 1 <= t[k] <= |m|)
  }

  /** dist_matrix[a-1, b-1]. */
  function Lookup(m: seq<seq<real>>, a: int, b: int): real
    requires 1 <= a <= |m| && 1 <= b <= |m[a - 1]|
  {
    m[a - 1][b - 1]
  }

  /** Names an element of a non-empty set, for `:|` choices over sets. */
  lemma {:induction false} SetHasElement(a: set<int>)
    ensures a == {} || exists y :: y in a
  {
    if forall y :: y !in a {
      assert a == {};
    }
  }

  lemma {:induction false} SubsetCard(a: set<int>, b: set<int>)
    requires a <= b
    ensures |a| <= |b|
    ensures a != b ==> |a| < |b|
    decreases |a|
  {
    SetHasElement(a);
    if a != {} {
      var y :| y in a;
      SubsetCard(a - {y}, b - {y});
      assert a == (a - {y}) + {y};
      assert b == (b - {y}) + {y};
    }
  }

  /** A set of labels within 1..n that has n members is all of 1..n. */
  lemma {:induction false} FullSubset(a: set<int>, n: nat)
    requires a <= Cities(n) && |a| >= n
    ensures a == Cities(n)
  {
    SubsetCard(a, Cities(n));
  }

  lemma {:induction false} MultisetCancel(a: multiset<int>, b: multiset<int>, x: int)
    requires a + multiset{x} == b + multiset{x} || multiset{x} + a == multiset{x} + b
    ensures a == b
  {
    forall y
      ensures a[y] == b[y]
    {
      assert (a + multiset{x})[y] == (multiset{x} + a)[y];
      assert (b + multiset{x})[y] == (multiset{x} + b)[y];
    }
  }

  /** City 1 together with the interior 2..n makes up all cities. */
  lemma {:induction false} CitiesSplit(n: int)
    requires n >= 1
    ensures multiset(Cities(n)) == multiset{1} + multiset(Interior(n))
  {
    forall y
      ensures multiset(Cities(n))[y] == (multiset{1} + multiset(Interior(n)))[y]
    {
    }
  }

  /** [1] + p + [1] is a tour exactly when p orders the cities 2..n. */
  lemma {:induction false} ClosedTourOfOrdering(p: seq<int>, n: int)
    requires n >= 1 && multiset(p) == multiset(Interior(n))
    ensures IsTour([1] + p + [1], n)
  {
    var t := [1] + p + [1];
    CitiesSplit(n);
    assert |p| == n - 1 by {
      assert |multiset(p)| == |p|;
      assert |multiset(Interior(n))| == |Interior(n)|;
    }
    assert t[..n] == [1] + p;
    assert multiset(t[..n]) == multiset{1} + multiset(p);
  }

  /** The interior of a tour orders the cities 2..n. */
  lemma {:induction false} TourInterior(t: seq<int>, n: int)
    requires IsTour(t, n)
    ensures multiset(t[1..n]) == multiset(Interior(n))
    ensures t == [1] + t[1..n] + [1]
  {
    var mid := t[1..n];
    TourShape(t, n);
    assert multiset(t[..n]) == multiset{1} + multiset(mid);
    CitiesSplit(n);
    MultisetCancel(multiset(mid), multiset(Interior(n)), 1);
  }

  lemma {:induction false} TourShape(t: seq<int>, n: int)
    requires n >= 1 && |t| == n + 1 && t[0] == 1 && t[n] == 1
    ensures t[..n] == [1] + t[1..n]
    ensures t == [1] + t[1..n] + [1]
  {
  }

  /** A rearrangement that fixes both ends of a tour is again a tour. */
  lemma {:induction false} TourRearranged(t: seq<int>, r: seq<int>, n: int)
    requires IsTour(t, n)
    requires |r| == |t| && multiset(r) == multiset(t)
    requires r[0] == t[0] && r[|r| - 1] == t[|t| - 1]
    ensures IsTour(r, n)
  {
    assert t == t[..n] + [t[n]];
    assert r == r[..n] + [r[n]];
    assert multiset(t) == multiset(t[..n]) + multiset{t[n]};
    assert multiset(r) == multiset(r[..n]) + multiset{r[n]};
    MultisetCancel(multiset(r[..n]), multiset(t[..n]), t[n]);
  }
}
