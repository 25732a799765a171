/** held_karp: the exact subset dynamic program. The table is keyed by
    (mask, end); Dp is its meaning, the cheapest path from city 1 through
    exactly the cities of S that ends at j. */
module HeldKarp {
  import opened Tours
  import opened Masks

  /** What held_karp returns, or the ValueError it raises when there is no
      city to close the tour with (n < 2). */
  datatype Outcome = ValueError | Solved(cost: real, tour: seq<int>)

  /** dp[(mask(S), j)]: from 1, through every city of S exactly once, ending at j. */
  function Dp(dist: Dist, n: int, S: set<int>, j: int): real
    requires S <= Interior(n) && j in S
    decreases |S|, 0, 0
  {
    if |S| == 1 then dist(1, j)
    else
      match BestInto(dist, n, S - {j}, j, n)
      case Some(b) => b.0
      case None => 0.0
  }

  /** The least Dp(P, k) + dist(k, j) over the k of P up to m, with the
      minimising k; of equal values the smallest k wins, as Python's min keeps
      the first. None when there is no candidate. */
  function BestInto(dist: Dist, n: int, P: set<int>, j: int, m: int): Option<(real, int)>
    requires P <= Interior(n)
    decreases |P|, 1, m
  {
    if m < 2 then None
    else
      var rest := BestInto(dist, n, P, j, m - 1);
      if m in P then Keep(rest, Dp(dist, n, P, m) + dist(m, j), m) else rest
  }

  /** BestInto is a minimum: there is one exactly when some k <= m lies in P,
      it is attained by the k it names, and no k <= m of P undercuts it. */
  lemma {:induction false} BestIntoMin(dist: Dist, n: int, P: set<int>, j: int, m: int)
    requires P <= Interior(n)
    ensures BestInto(dist, n, P, j, m).None? <==> forall k :: k in P ==> m < k
    ensures var r := BestInto(dist, n, P, j, m);
            r.Some? ==> r.value.1 in P && r.value.1 <= m
                        && r.value.0 == Dp(dist, n, P, r.value.1) + dist(r.value.1, j)
    ensures var r := BestInto(dist, n, P, j, m);
            r.Some? ==> forall k :: k in P && k <= m ==> r.value.0 <= Dp(dist, n, P, k) + dist(k, j)
    decreases m
  {
    if m >= 2 {
      BestIntoMin(dist, n, P, j, m - 1);
    }
  }

  /** One step of BestInto: candidate m against the best below it. */
  lemma {:induction false} BestIntoStep(dist: Dist, n: int, P: set<int>, j: int, m: int)
    requires P <= Interior(n) && m in P
    ensures BestInto(dist, n, P, j, m) == Keep(BestInto(dist, n, P, j, m - 1), Dp(dist, n, P, m) + dist(m, j), m)
    ensures m == 2 ==> BestInto(dist, n, P, j, m - 1) == None
  {
  }

  /** The running minimum after offering candidate value c at end k: the
      earlier best stays unless c is strictly smaller. */
  function Keep(rest: Option<(real, int)>, c: real, k: int): (r: Option<(real, int)>)
    ensures r.Some? && r.value.0 <= c && (rest.Some? ==> r.value.0 <= rest.value.0)
    ensures r == rest || r == Some((c, k))
  {
    if rest.Some? && rest.value.0 <= c then rest else Some((c, k))
  }

  /** q visits exactly the cities of S, once each, and ends at j. */
  ghost predicate PathThrough(q: seq<int>, S: set<int>, j: int) {
    |q| >= 1 && q[|q| - 1] == j && multiset(q) == multiset(S)
  }

  lemma {:induction false} SetMinusMultiset(S: set<int>, j: int)
    requires j in S
    ensures multiset(S - {j}) == multiset(S) - multiset{j}
  {
    forall y
      ensures multiset(S - {j})[y] == (multiset(S) - multiset{j})[y]
    {
    }
  }

  lemma {:induction false} SingletonOf(S: set<int>, j: int)
    requires |S| == 1 && j in S
    ensures S == {j}
  {
    assert |S - {j}| == 0;
    assert S - {j} == {};
  }

  /** A path through S is as long as S; dropping its last city j leaves a
      path through S - {j}. */
  lemma {:induction false} PathThroughInit(q: seq<int>, S: set<int>, j: int)
    requires j in S && PathThrough(q, S, j)
    ensures |q| == |S|
    ensures |S| >= 2 ==> PathThrough(q[..|q| - 1], S - {j}, q[|q| - 2])
  {
    assert |multiset(q)| == |q|;
    assert |multiset(S)| == |S|;
    if |S| >= 2 {
      var q' := q[..|q| - 1];
      assert q == q' + [j];
      SetMinusMultiset(S, j);
      assert multiset(q') == multiset(S - {j});
    }
  }

  /** Dp(S, j) is no more than reaching j last from any other member k of S. */
  lemma {:induction false} DpStep(dist: Dist, n: int, S: set<int>, j: int, k: int)
    requires S <= Interior(n) && j in S && k in S && k != j
    ensures Dp(dist, n, S, j) <= Dp(dist, n, S - {j}, k) + dist(k, j)
  {
    BestIntoMin(dist, n, S - {j}, j, n);
    assert |S - {j}| == |S| - 1;
    assert k in S - {j};
  }

  /** No path through S that ends at j is cheaper than Dp(S, j). */
  lemma {:induction false} DpLowerBound(dist: Dist, n: int, S: set<int>, j: int, q: seq<int>)
    requires S <= Interior(n) && j in S && PathThrough(q, S, j)
    ensures Dp(dist, n, S, j) <= PathLength(dist, [1] + q)
    decreases |S|
  {
    PathThroughInit(q, S, j);
    if |S| == 1 {
      var p := [1] + q;
      assert q == [j];
      assert p[..1] == [1];
      assert PathLength(dist, p) == dist(1, j);
    } else {
      var q' := q[..|q| - 1];
      var k := q'[|q'| - 1];
      assert k in multiset(S - {j});
      DpLowerBound(dist, n, S - {j}, k, q');
      DpStep(dist, n, S, j, k);
      PathLengthDropLast(dist, q);
    }
  }

  /** The path 1, q costs the path without q's last city plus that last edge. */
  lemma {:induction false} PathLengthDropLast(dist: Dist, q: seq<int>)
    requires |q| >= 2
    ensures PathLength(dist, [1] + q)
         == PathLength(dist, [1] + q[..|q| - 1]) + dist(q[|q| - 2], q[|q| - 1])
  {
    var t := [1] + q;
    assert t[..|t| - 1] == [1] + q[..|q| - 1];
    assert t[|t| - 2] == q[|q| - 2];
  }

  /** A path through S ending at j whose length is exactly Dp(S, j). */
  ghost function OptPath(dist: Dist, n: int, S: set<int>, j: int): (q: seq<int>)
    requires S <= Interior(n) && j in S
    ensures PathThrough(q, S, j)
    ensures PathLength(dist, [1] + q) == Dp(dist, n, S, j)
    decreases |S|
  {
    if |S| == 1 then
      SingletonOf(S, j);
      assert ([1] + [j])[..1] == [1];
      [j]
    else
      SetHasElement(S - {j});
      assert |S - {j}| == |S| - 1;
      BestIntoMin(dist, n, S - {j}, j, n);
      var b := BestInto(dist, n, S - {j}, j, n).value;
      var q' := OptPath(dist, n, S - {j}, b.1);
      SetMinusMultiset(S, j);
      assert ([1] + q') + [j] == [1] + (q' + [j]);
      PathLengthSnoc(dist, [1] + q', j);
      q' + [j]
  }

  /** The cost of closing the tour back to 1, as held_karp's final min. */
  function CloseBest(dist: Dist, n: int): Option<(real, int)>
    requires n >= 0
  {
    BestInto(dist, n, Interior(n), 1, n)
  }

  /** best_cost is the cost of a cheapest closed tour, and some tour attains it. */
  lemma {:induction false} HeldKarpOptimal(dist: Dist, n: int)
    requires n >= 2
    ensures CloseBest(dist, n).Some?
    ensures forall t :: IsTour(t, n) ==> CloseBest(dist, n).value.0 <= PathLength(dist, t)
    ensures exists t :: IsTour(t, n) && PathLength(dist, t) == CloseBest(dist, n).value.0
  {
    assert 2 in Interior(n);
    BestIntoMin(dist, n, Interior(n), 1, n);
    forall t | IsTour(t, n)
      ensures CloseBest(dist, n).value.0 <= PathLength(dist, t)
    {
      CloseLowerBound(dist, n, t);
    }
    var t := CloseAttained(dist, n);
  }

  /** No tour is cheaper than the closing minimum. */
  lemma {:induction false} CloseLowerBound(dist: Dist, n: int, t: seq<int>)
    requires n >= 2 && IsTour(t, n)
    ensures CloseBest(dist, n).Some? && CloseBest(dist, n).value.0 <= PathLength(dist, t)
  {
    assert 2 in Interior(n);
    BestIntoMin(dist, n, Interior(n), 1, n);
    TourInterior(t, n);
    var mid := t[1..n];
    var j := mid[|mid| - 1];
    assert j in multiset(Interior(n));
    DpLowerBound(dist, n, Interior(n), j, mid);
    assert t == ([1] + mid) + [1];
    PathLengthSnoc(dist, [1] + mid, 1);
  }

  /** The tour through the optimal path to the chosen end costs exactly the minimum. */
  lemma {:induction false} CloseAttained(dist: Dist, n: int) returns (t: seq<int>)
    requires n >= 2
    ensures CloseBest(dist, n).Some?
    ensures IsTour(t, n) && PathLength(dist, t) == CloseBest(dist, n).value.0
  {
    assert 2 in Interior(n);
    BestIntoMin(dist, n, Interior(n), 1, n);
    var b := CloseBest(dist, n).value;
    var q := OptPath(dist, n, Interior(n), b.1);
    ClosedTourOfOrdering(q, n);
    t := [1] + q + [1];
    assert t == ([1] + q) + [1];
    PathLengthSnoc(dist, [1] + q, 1);
  }

  /** itertools.combinations(xs, k): the k-entry sub-tuples of xs, each in
      xs's order, those holding xs[0] first. */
  function Combinations(xs: seq<int>, k: nat): (r: seq<seq<int>>)
    ensures forall i :: 0 <= i < |r| ==> |r[i]| == k
    decreases |xs|
  {
    if k == 0 then [[]]
    else if xs == [] then []
    else
      Prefixed(xs[0], Combinations(xs[1..], k - 1)) + Combinations(xs[1..], k)
  }

  /** Each tuple of cs with x put in front. */
  function Prefixed(x: int, cs: seq<seq<int>>): (r: seq<seq<int>>)
    ensures |r| == |cs|
    ensures forall i :: 0 <= i < |cs| ==> r[i] == [x] + cs[i]
  {
    seq(|cs|, i requires 0 <= i < |cs| => [x] + cs[i])
  }

  /** c draws its entries from xs and, when xs has no repeats, has none
      either. */
  ghost predicate SubTuple(xs: seq<int>, c: seq<int>) {
    Elems(c) <= Elems(xs) && (NoDup(xs) ==> NoDup(c))
  }

  /** Sub-tuples of a tuple without repeats have no repeats either. */
  lemma {:induction false} CombinationsWithin(xs: seq<int>, k: nat)
    ensures forall i :: 0 <= i < |Combinations(xs, k)| ==> SubTuple(xs, Combinations(xs, k)[i])
    decreases |xs|
  {
    if k > 0 && xs != [] {
      CombinationsWithin(xs[1..], k - 1);
      CombinationsWithin(xs[1..], k);
      CombinationsUnfold(xs, k);
      PrefixedWithin(xs, Combinations(xs[1..], k - 1));
      TailWithin(xs, Combinations(xs[1..], k));
    }
  }

  /** Putting xs[0] in front of sub-tuples of xs[1..] gives sub-tuples of xs. */
  lemma {:induction false} PrefixedWithin(xs: seq<int>, cs: seq<seq<int>>)
    requires xs != [] && forall i :: 0 <= i < |cs| ==> SubTuple(xs[1..], cs[i])
    ensures forall i :: 0 <= i < |cs| ==> SubTuple(xs, Prefixed(xs[0], cs)[i])
  {
    var pre := Prefixed(xs[0], cs);
    assert Elems(xs[1..]) <= Elems(xs) by {
      assert xs == [xs[0]] + xs[1..];
    }
    forall i | 0 <= i < |cs|
      ensures SubTuple(xs, pre[i])
    {
      ElemsCons(xs[0], cs[i]);
      if NoDup(xs) {
        NoDupTail(xs);
        NoDupCons(xs[0], cs[i]);
      }
    }
  }

  /** Sub-tuples of xs[1..] are sub-tuples of xs. */
  lemma {:induction false} TailWithin(xs: seq<int>, cs: seq<seq<int>>)
    requires xs != [] && forall i :: 0 <= i < |cs| ==> SubTuple(xs[1..], cs[i])
    ensures forall i :: 0 <= i < |cs| ==> SubTuple(xs, cs[i])
  {
    assert Elems(xs[1..]) <= Elems(xs) by {
      assert xs == [xs[0]] + xs[1..];
    }
    if NoDup(xs) {
      NoDupTail(xs);
    }
  }

  /** Every k-element subset of a repeat-free xs is the set of some
      combination; i is where it sits. */
  lemma {:induction false} CombinationsComplete(xs: seq<int>, k: nat, S: set<int>) returns (i: nat)
    requires NoDup(xs) && S <= Elems(xs) && |S| == k
    ensures i < |Combinations(xs, k)| && Elems(Combinations(xs, k)[i]) == S
    decreases |xs|, 1
  {
    if k == 0 {
      assert S == {};
      i := 0;
    } else {
      assert xs != [] by {
        SetHasElement(S);
      }
      NoDupTail(xs);
      SubsetOfTail(xs, S);
      if xs[0] in S {
        i := CombinationsWithHead(xs, k, S);
      } else {
        i := CombinationsWithoutHead(xs, k, S);
      }
    }
  }

  /** The case of CombinationsComplete where S holds xs[0]: S sits among the
      combinations that start with xs[0]. */
  lemma {:induction false} CombinationsWithHead(xs: seq<int>, k: nat, S: set<int>) returns (i: nat)
    requires xs != [] && NoDup(xs[1..]) && xs[0] in S && k == |S|
    requires S - {xs[0]} <= Elems(xs[1..])
    ensures i < |Combinations(xs, k)| && Elems(Combinations(xs, k)[i]) == S
    decreases |xs|, 0
  {
    var with := Combinations(xs[1..], k - 1);
    i := CombinationsComplete(xs[1..], k - 1, S - {xs[0]});
    CombinationsUnfold(xs, k);
    var pre := Prefixed(xs[0], with);
    assert pre[i] == [xs[0]] + with[i];
    assert Combinations(xs, k)[i] == pre[i];
    ElemsCons(xs[0], with[i]);
    assert Elems(Combinations(xs, k)[i]) == {xs[0]} + (S - {xs[0]});
    assert {xs[0]} + (S - {xs[0]}) == S;
  }

  /** The case where S lacks xs[0]: S sits among the combinations of the rest. */
  lemma {:induction false} CombinationsWithoutHead(xs: seq<int>, k: nat, S: set<int>) returns (i: nat)
    requires xs != [] && k > 0 && NoDup(xs[1..]) && k == |S|
    requires S <= Elems(xs[1..])
    ensures i < |Combinations(xs, k)| && Elems(Combinations(xs, k)[i]) == S
    decreases |xs|, 0
  {
    var with := Combinations(xs[1..], k - 1);
    var without := Combinations(xs[1..], k);
    var i' := CombinationsComplete(xs[1..], k, S);
    CombinationsUnfold(xs, k);
    i := |with| + i';
    assert Combinations(xs, k)[i] == without[i'];
  }

  lemma {:induction false} CombinationsUnfold(xs: seq<int>, k: nat)
    requires xs != [] && k > 0
    ensures Combinations(xs, k) == Prefixed(xs[0], Combinations(xs[1..], k - 1)) + Combinations(xs[1..], k)
  {
  }

  lemma {:induction false} SubsetOfTail(xs: seq<int>, S: set<int>)
    requires xs != [] && S <= Elems(xs)
    ensures S - {xs[0]} <= Elems(xs[1..])
    ensures xs[0] !in S ==> S <= Elems(xs[1..])
  {
    assert xs == [xs[0]] + xs[1..];
  }

  lemma {:induction false} ElemsCons(x: int, c: seq<int>)
    ensures Elems([x] + c) == {x} + Elems(c)
  {
    assert forall y :: y in [x] + c <==> y == x || y in c;
  }

  /** A value that one k of S - {j} attains and that no k undercuts is Dp(S, j). */
  lemma {:induction false} DpIsMin(dist: Dist, n: int, S: set<int>, j: int, m: real, arg: int)
    requires S <= Interior(n) && j in S && arg in S && arg != j
    requires m == Dp(dist, n, S - {j}, arg) + dist(arg, j)
    requires forall k :: k in S - {j} ==> m <= Dp(dist, n, S - {j}, k) + dist(k, j)
    ensures Dp(dist, n, S, j) == m
  {
    BestIntoMin(dist, n, S - {j}, j, n);
    assert |S - {j}| == |S| - 1;
    assert arg in S - {j};
  }

  /** The table entry for (S, j) is present and holds Dp(S, j). */
  ghost predicate Holds(dist: Dist, n: int, dp: map<(nat, int), real>, S: set<int>, j: int) {
    S <= Interior(n) && j in S && (Mask(S, n), j) in dp && dp[(Mask(S, n), j)] == Dp(dist, n, S, j)
  }

  /** Every subset smaller than size has all its entries. */
  ghost predicate FilledBelow(dist: Dist, n: int, dp: map<(nat, int), real>, size: int) {
    forall S: set<int>, j {:trigger Holds(dist, n, dp, S, j)} ::
      S <= Interior(n) && j in S && |S| < size ==> Holds(dist, n, dp, S, j)
  }

  /** dp2 keeps every correct entry of dp. */
  ghost predicate Extends(dist: Dist, n: int, dp: map<(nat, int), real>, dp2: map<(nat, int), real>) {
    forall S: set<int>, j {:trigger Holds(dist, n, dp2, S, j)} ::
      Holds(dist, n, dp, S, j) ==> Holds(dist, n, dp2, S, j)
  }

  /** Writing Dp(S, j) under S's key leaves every correct entry correct, since
      distinct subsets have distinct keys. */
  lemma {:induction false} WriteExtends(dist: Dist, n: int, dp: map<(nat, int), real>, S: set<int>, j: int)
    requires S <= Interior(n) && j in S
    ensures Extends(dist, n, dp, dp[(Mask(S, n), j) := Dp(dist, n, S, j)])
    ensures Holds(dist, n, dp[(Mask(S, n), j) := Dp(dist, n, S, j)], S, j)
  {
    var dp2 := dp[(Mask(S, n), j) := Dp(dist, n, S, j)];
    forall T: set<int>, k | Holds(dist, n, dp, T, k)
      ensures Holds(dist, n, dp2, T, k)
    {
      if (Mask(T, n), k) == (Mask(S, n), j) {
        MaskInjective(S, T, n);
      }
    }
  }

  lemma {:induction false} ExtendsTrans(dist: Dist, n: int, a: map<(nat, int), real>, b: map<(nat, int), real>, c: map<(nat, int), real>)
    requires Extends(dist, n, a, b) && Extends(dist, n, b, c)
    ensures Extends(dist, n, a, c)
  {
    forall S: set<int>, j | Holds(dist, n, a, S, j)
      ensures Holds(dist, n, c, S, j)
    {
      assert Holds(dist, n, b, S, j);
    }
  }

  lemma {:induction false} ExtendsFilled(dist: Dist, n: int, dp: map<(nat, int), real>, dp2: map<(nat, int), real>, size: int)
    requires FilledBelow(dist, n, dp, size) && Extends(dist, n, dp, dp2)
    ensures FilledBelow(dist, n, dp2, size)
  {
    forall S: set<int>, j | S <= Interior(n) && j in S && |S| < size
      ensures Holds(dist, n, dp2, S, j)
    {
      assert Holds(dist, n, dp, S, j);
    }
  }

  /** A tuple of distinct cities from 2..n, as combinations yields. */
  ghost predicate Tuple(c: seq<int>, n: int) {
    NoDup(c) && forall x :: x in c ==> 2 <= x <= n
  }

  /** m is no more than reaching j from any k of ks that lies in P. */
  ghost predicate Undercuts(dist: Dist, n: int, P: set<int>, j: int, m: real, ks: seq<int>)
    requires P <= Interior(n)
  {
    forall k :: k in ks && k in P ==> m <= Dp(dist, n, P, k) + dist(k, j)
  }

  /** Every entry (prev, k), k in P, is present and holds Dp(P, k). */
  ghost predicate Row(dist: Dist, n: int, dp: map<(nat, int), real>, prev: nat, P: set<int>)
    requires P <= Interior(n)
  {
    forall k :: k in P ==> (prev, k) in dp && dp[(prev, k)] == Dp(dist, n, P, k)
  }

  lemma {:induction false} RowOfFilled(dist: Dist, n: int, dp: map<(nat, int), real>, P: set<int>, size: int)
    requires P <= Interior(n) && |P| < size && FilledBelow(dist, n, dp, size)
    ensures Row(dist, n, dp, Mask(P, n), P)
  {
    forall k | k in P
      ensures (Mask(P, n), k) in dp && dp[(Mask(P, n), k)] == Dp(dist, n, P, k)
    {
      assert Holds(dist, n, dp, P, k);
    }
  }

  /** A lower running minimum still undercuts, and one more candidate it
      undercuts can be appended. */
  lemma {:induction false} UndercutsStep(dist: Dist, n: int, P: set<int>, j: int, m: real, m2: real,
                                         ks: seq<int>, k: int)
    requires P <= Interior(n)
    requires Undercuts(dist, n, P, j, m, ks) && m2 <= m
    requires k in P ==> m2 <= Dp(dist, n, P, k) + dist(k, j)
    ensures Undercuts(dist, n, P, j, m2, ks + [k])
  {
  }

  /** Nothing of P among ks: any value undercuts them vacuously. */
  lemma {:induction false} UndercutsNone(dist: Dist, n: int, P: set<int>, j: int, m: real, ks: seq<int>)
    requires P <= Interior(n)
    requires forall x :: x in ks ==> x !in P
    ensures Undercuts(dist, n, P, j, m, ks)
  {
  }

  /** The loop of Python's min over the generator: the first value is kept
      until a strictly smaller one comes. */
  method MinOver(dist: Dist, n: int, dp: map<(nat, int), real>, c: seq<int>, j: int, prev: nat, ghost P: set<int>)
    returns (m: real, ghost arg: int)
    requires P <= Interior(n) && P == Elems(c) - {j} && P != {}
    requires Row(dist, n, dp, prev, P)
    ensures arg in P && m == Dp(dist, n, P, arg) + dist(arg, j)
    ensures Undercuts(dist, n, P, j, m, c)
  {
    var found := false;
    arg := 0;
    m := 0.0;
    for i := 0 to |c|
      invariant found ==> arg in P && m == Dp(dist, n, P, arg) + dist(arg, j)
      invariant found ==> Undercuts(dist, n, P, j, m, c[..i])
      invariant !found ==> forall ii :: 0 <= ii < i ==> c[ii] == j
    {
      var k := c[i];
      assert c[..i + 1] == c[..i] + [k];
      ghost var m0, found0 := m, found;
      if k != j {
        assert k in P;
        var v := dp[(prev, k)] + dist(k, j);
        if !found || v < m {
          m := v;
          found := true;
          arg := k;
        }
      }
      if found {
        if !found0 {
          assert forall x :: x in c[..i] ==> x == j;
          UndercutsNone(dist, n, P, j, m0, c[..i]);
        }
        UndercutsStep(dist, n, P, j, if found0 then m0 else m, m, c[..i], k);
      }
    }
    assert found by {
      SetHasElement(P);
    }
    assert c[..|c|] == c;
  }

  /** The minimum over the other cities k of the tuple of the entry for
      (the tuple without j, k) plus dist(k, j). */
  method MinInto(dist: Dist, n: int, dp: map<(nat, int), real>, c: seq<int>, j: int, prev: nat, size: int)
    returns (m: real)
    requires Tuple(c, n) && |c| == size >= 2 && j in c
    requires prev == Mask(Elems(c) - {j}, n)
    requires FilledBelow(dist, n, dp, size)
    ensures Elems(c) <= Interior(n)
    ensures m == Dp(dist, n, Elems(c), j)
  {
    ghost var P := Elems(c) - {j};
    NoDupElemsCard(c);
    assert |P| == size - 1;
    RowOfFilled(dist, n, dp, P, size);
    ghost var arg;
    m, arg := MinOver(dist, n, dp, c, j, prev, P);
    DpIsMin(dist, n, Elems(c), j, m, arg);
  }

  /** The entries of every endpoint of the tuples cs[..upto]. */
  ghost predicate TuplesDone(dist: Dist, n: int, dp: map<(nat, int), real>, cs: seq<seq<int>>, upto: int)
    requires 0 <= upto <= |cs|
  {
    forall i, j :: 0 <= i < upto && j in cs[i] ==> Holds(dist, n, dp, Elems(cs[i]), j)
  }

  lemma {:induction false} ExtendsTuplesDone(dist: Dist, n: int, dp: map<(nat, int), real>, dp2: map<(nat, int), real>,
                          cs: seq<seq<int>>, upto: int)
    requires 0 <= upto <= |cs|
    requires TuplesDone(dist, n, dp, cs, upto) && Extends(dist, n, dp, dp2)
    ensures TuplesDone(dist, n, dp2, cs, upto)
  {
    forall i, j | 0 <= i < upto && j in cs[i]
      ensures Holds(dist, n, dp2, Elems(cs[i]), j)
    {
      assert Holds(dist, n, dp, Elems(cs[i]), j);
    }
  }

  /** Writes the entry of every endpoint j of one tuple c. */
  method FillTuple(dist: Dist, n: int, dp: map<(nat, int), real>, c: seq<int>, size: int)
    returns (dp': map<(nat, int), real>)
    requires Tuple(c, n) && |c| == size >= 2
    requires FilledBelow(dist, n, dp, size)
    ensures Extends(dist, n, dp, dp')
    ensures forall j :: j in c ==> Holds(dist, n, dp', Elems(c), j)
  {
    var mask := TupleMask(c);
    TupleMaskIsMask(c, n);
    dp' := dp;
    for ji := 0 to |c|
      invariant Extends(dist, n, dp, dp') && FilledBelow(dist, n, dp', size)
      invariant forall jj :: 0 <= jj < ji ==> Holds(dist, n, dp', Elems(c), c[jj])
    {
      var j := c[ji];
      assert j in c;
      var prev := Xor(mask, Pow2(j - 2));
      PrevMask(Elems(c), n, j);
      var m := MinInto(dist, n, dp', c, j, prev, size);
      WriteExtends(dist, n, dp', Elems(c), j);
      ExtendsTrans(dist, n, dp, dp', dp'[(mask, j) := m]);
      ExtendsFilled(dist, n, dp', dp'[(mask, j) := m], size);
      forall jj | 0 <= jj < ji
        ensures Holds(dist, n, dp'[(mask, j) := m], Elems(c), c[jj])
      {
        assert Holds(dist, n, dp', Elems(c), c[jj]);
      }
      dp' := dp'[(mask, j) := m];
    }
    forall j | j in c
      ensures Holds(dist, n, dp', Elems(c), j)
    {
      var jj :| 0 <= jj < |c| && c[jj] == j;
    }
  }

  /** One round of the size loop: every subset of 2..n with size members. */
  method FillSize(dist: Dist, n: int, dp: map<(nat, int), real>, size: int)
    returns (dp': map<(nat, int), real>)
    requires 2 <= size < n
    requires FilledBelow(dist, n, dp, size)
    ensures Extends(dist, n, dp, dp')
    ensures FilledBelow(dist, n, dp', size + 1)
  {
    var xs := Iota(2, n);
    IotaOrdersInterior(n);
    var cs := Combinations(xs, size);
    CombinationsWithin(xs, size);
    dp' := dp;
    for ci := 0 to |cs|
      invariant Extends(dist, n, dp, dp') && FilledBelow(dist, n, dp', size)
      invariant TuplesDone(dist, n, dp', cs, ci)
    {
      var c := cs[ci];
      assert Elems(c) <= Elems(xs);
      assert Tuple(c, n);
      var next := FillTuple(dist, n, dp', c, size);
      ExtendsTrans(dist, n, dp, dp', next);
      ExtendsFilled(dist, n, dp', next, size);
      ExtendsTuplesDone(dist, n, dp', next, cs, ci);
      dp' := next;
    }
    forall S: set<int>, j | S <= Interior(n) && j in S && |S| < size + 1
      ensures Holds(dist, n, dp', S, j)
    {
      if |S| == size {
        var i := CombinationsComplete(xs, size, S);
        assert j in cs[i];
      }
    }
  }

  /** The base entries dp[(1 << (j - 2), j)] = dist(1, j). */
  method FillBase(dist: Dist, n: int) returns (dp: map<(nat, int), real>)
    ensures FilledBelow(dist, n, dp, 2)
  {
    dp := map[];
    var j := 2;
    while j <= n
      invariant 2 <= j && (j <= n + 1 || j == 2)
      invariant forall k :: 2 <= k < j ==> Holds(dist, n, dp, {k}, k)
    {
      MaskSingleton(j, n);
      WriteExtends(dist, n, dp, {j}, j);
      forall k | 2 <= k < j
        ensures Holds(dist, n, dp[(Pow2(j - 2), j) := dist(1, j)], {k}, k)
      {
        assert Holds(dist, n, dp, {k}, k);
      }
      dp := dp[(Pow2(j - 2), j) := dist(1, j)];
      j := j + 1;
    }
    forall S: set<int>, k | S <= Interior(n) && k in S && |S| < 2
      ensures Holds(dist, n, dp, S, k)
    {
      SingletonOf(S, k);
    }
  }

  /** The closing minimum over the ends j of 2..n of the full subset's entry
      plus dist(j, 1), compared as (value, j) pairs: the cheapest way back to
      1 and the end it is reached from. */
  method Close(dist: Dist, n: int, dp: map<(nat, int), real>) returns (best: real, bestEnd: int)
    requires n >= 2 && Row(dist, n, dp, Pow2(n - 1) - 1, Interior(n))
    ensures CloseBest(dist, n) == Some((best, bestEnd))
  {
    var full := Pow2(n - 1) - 1;
    best, bestEnd := 0.0, 0;
    var j := 2;
    while j <= n
      invariant 2 <= j <= n + 1
      invariant j > 2 ==> BestInto(dist, n, Interior(n), 1, j - 1) == Some((best, bestEnd))
    {
      assert j in Interior(n);
      BestIntoStep(dist, n, Interior(n), 1, j);
      var c := dp[(full, j)] + dist(j, 1);
      ghost var rest := BestInto(dist, n, Interior(n), 1, j - 1);
      assert j == 2 ==> rest == None;
      assert BestInto(dist, n, Interior(n), 1, j) == Keep(rest, c, j);
      // (c, j) < (best, bestEnd) as tuples: j only grows, so only c decides
      if j == 2 || c < best {
        best, bestEnd := c, j;
      }
      j := j + 1;
    }
  }

  /** The base entries, then the size loop: every subset of 2..n has all its entries. */
  method Table(dist: Dist, n: int) returns (dp: map<(nat, int), real>)
    ensures n >= 2 ==> FilledBelow(dist, n, dp, n)
  {
    dp := FillBase(dist, n);
    var size := 2;
    while size < n
      invariant 2 <= size && (size <= n || size == 2)
      invariant FilledBelow(dist, n, dp, size)
    {
      dp := FillSize(dist, n, dp, size);
      size := size + 1;
    }
  }

  /** held_karp: fill the table by increasing subset size, then close the tour
      at the cheapest end. The tour returned is the identity order, not an
      optimal one; only the cost is optimal. */
  method HeldKarp(dist: Dist, n: int) returns (r: Outcome)
    ensures r.ValueError? <==> n < 2
    ensures r.Solved? ==> IsTour(r.tour, n) && r.tour == [1] + Iota(2, n) + [1]
    ensures r.Solved? ==> forall t :: IsTour(t, n) ==> r.cost <= PathLength(dist, t)
    ensures r.Solved? ==> exists t :: IsTour(t, n) && PathLength(dist, t) == r.cost
  {
    var dp := Table(dist, n);
    if n < 2 {
      // the final min has nothing to choose from (for n <= 0 the shift
      // count of full_mask is already negative)
      return ValueError;
    }
    MaskFull(n);
    RowOfFilled(dist, n, dp, Interior(n), n);
    var best, bestEnd := Close(dist, n, dp);
    HeldKarpOptimal(dist, n);
    IotaOrdersInterior(n);
    ClosedTourOfOrdering(Iota(2, n), n);
    r := Solved(best, [1] + Iota(2, n) + [1]);
  }
}
