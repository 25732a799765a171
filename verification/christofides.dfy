/** christofides: the spanning tree of Prim's loop, the odd-degree cities, a
    greedy matching among them, Hierholzer's circuit and the shortcut that keeps
    the first visit of every city. */
module Christofides {
  import opened Tours
  import opened Graph
  import opened Mst
  import opened Euler

  /** The cities whose neighbour list has odd length. */
  function OddVertices(adj: Adjacency): (r: set<int>)
    ensures forall v :: v in r <==> v in adj && |adj[v]| % 2 == 1
  {
    set v | v in adj && |adj[v]| % 2 == 1
  }

  /** The odd-degree cities among 1..m. */
  function OddUpTo(adj: Adjacency, m: int): (r: set<int>)
    ensures forall v :: v in r <==> 1 <= v <= m && |Nbrs(adj, v)| % 2 == 1
    decreases m
  {
    if m <= 0 then {}
    else OddUpTo(adj, m - 1) + (if |Nbrs(adj, m)| % 2 == 1 then {m} else {})
  }

  /** Handshake: the degree sum exceeds the number of odd-degree cities by an
      even number 2 * k. */
  lemma {:induction false} Handshake(adj: Adjacency, m: int) returns (k: int)
    ensures DegreeSum(adj, m) == |OddUpTo(adj, m)| + 2 * k
    decreases m
  {
    if m <= 0 {
      k := 0;
    } else {
      var k0 := Handshake(adj, m - 1);
      OddUpToCard(adj, m);
      var d := |Nbrs(adj, m)|;
      assert d == (if d % 2 == 1 then 1 else 0) + 2 * (d / 2);
      k := k0 + d / 2;
    }
  }

  /** City m adds one to the odd count exactly when its degree is odd. */
  lemma {:induction false} OddUpToCard(adj: Adjacency, m: int)
    requires m > 0
    ensures |OddUpTo(adj, m)| == |OddUpTo(adj, m - 1)| + (if |Nbrs(adj, m)| % 2 == 1 then 1 else 0)
  {
    var s := OddUpTo(adj, m - 1);
    assert m !in s;
    if |Nbrs(adj, m)| % 2 == 1 {
      assert |s + {m}| == |s| + 1;
    } else {
      assert s + {} == s;
    }
  }

  /** With every list belonging to a city 1..n, the odd set is read off 1..n. */
  lemma {:induction false} OddVerticesUpTo(adj: Adjacency, n: int)
    requires KeysWithin(adj, n)
    ensures OddVertices(adj) == OddUpTo(adj, n)
  {
    forall v | v in OddUpTo(adj, n)
      ensures v in OddVertices(adj)
    {
      assert |Nbrs(adj, v)| != 0;
    }
    forall v | v in OddVertices(adj)
      ensures v in OddUpTo(adj, n)
    {
      assert Nbrs(adj, v) == adj[v];
    }
  }

  /** An even degree sum leaves an even number of odd-degree cities. */
  lemma {:induction false} OddCountEven(adj: Adjacency, n: int, h: int)
    requires KeysWithin(adj, n) && DegreeSum(adj, n) == 2 * h
    ensures |OddVertices(adj)| % 2 == 0
  {
    OddVerticesUpTo(adj, n);
    var k := Handshake(adj, n);
    assert |OddVertices(adj)| == DegreeSum(adj, n) - 2 * k;
  }

  /** The endpoints of the pairs, with multiplicity. */
  function Ends(pairs: seq<(int, int)>): (r: multiset<int>)
    ensures |r| == 2 * |pairs|
  {
    if pairs == [] then multiset{}
    else Ends(pairs[..|pairs| - 1]) + multiset{pairs[|pairs| - 1].0, pairs[|pairs| - 1].1}
  }

  /** The members of odd that no pair has taken yet. */
  function Left(odd: set<int>, pairs: seq<(int, int)>): (r: set<int>)
    ensures forall x :: x in r <==> x in odd && Ends(pairs)[x] == 0
  {
    set x | x in odd && Ends(pairs)[x] == 0
  }

  /** Each pair joins two distinct cities still unmatched at its turn, the
      second a nearest one to the first. */
  ghost predicate Greedy(dist: Dist, odd: set<int>, pairs: seq<(int, int)>)
    decreases |pairs|
  {
    pairs == [] ||
    (var before := pairs[..|pairs| - 1];
     var p := pairs[|pairs| - 1];
     var left := Left(odd, before);
     && Greedy(dist, odd, before)
     && p.0 in left && p.1 in left && p.0 != p.1
     && forall x :: x in left && x != p.0 ==> dist(p.0, p.1) <= dist(p.0, x))
  }

  /** What the matching loop leaves: the raised ValueError of `min` over an
      empty set, or the pairs and the graph with their edges added. */
  datatype Matching = Unpaired | Paired(adj: Adjacency, pairs: seq<(int, int)>)

  /** A non-empty set has a member nearest to u. */
  lemma {:induction false} NearestExists(dist: Dist, u: int, S: set<int>) returns (v: int)
    requires S != {}
    ensures v in S && forall x :: x in S ==> dist(u, v) <= dist(u, x)
    decreases |S|
  {
    SetHasElement(S);
    var y :| y in S;
    if S == {y} {
      v := y;
    } else {
      assert S - {y} != {};
      var w := NearestExists(dist, u, S - {y});
      v := if dist(u, y) <= dist(u, w) then y else w;
    }
  }

  /** The matching loop's state: which cities are left, how the degrees have
      grown, and that the pairs so far are greedy. */
  ghost predicate MatchInv(dist: Dist, adj0: Adjacency, odd: set<int>, unmatched: set<int>,
                           pairs: seq<(int, int)>, adj: Adjacency)
  {
    && Counted(odd, unmatched, pairs)
    && Greedy(dist, odd, pairs)
    && DegreesGrown(adj0, pairs, adj)
    && (Symmetric(adj0) && Loopless(adj0) ==> Symmetric(adj) && Loopless(adj))
    && KeysFrom(adj0, odd, adj)
  }

  /** The unmatched cities are the odd ones no pair has taken, and they are as
      many as the odd ones up to an even number. */
  ghost predicate Counted(odd: set<int>, unmatched: set<int>, pairs: seq<(int, int)>)
  {
    && unmatched == Left(odd, pairs)
    && Ends(pairs) + multiset(unmatched) == multiset(odd)
    && (|unmatched| - |odd|) % 2 == 0
  }

  /** Every city has gained one neighbour per pair it ends. */
  ghost predicate DegreesGrown(adj0: Adjacency, pairs: seq<(int, int)>, adj: Adjacency)
  {
    forall v :: |Nbrs(adj, v)| == |Nbrs(adj0, v)| + Ends(pairs)[v]
  }

  /** Every list belongs to a city of the original graph or of odd. */
  ghost predicate KeysFrom(adj0: Adjacency, odd: set<int>, adj: Adjacency)
  {
    forall v :: v in adj ==> v in adj0 || v in odd
  }

  /** One pair (u, v) taken from the unmatched cities keeps the loop state. */
  lemma {:induction false} MatchStep(dist: Dist, adj0: Adjacency, odd: set<int>, unmatched: set<int>,
                                     pairs: seq<(int, int)>, adj: Adjacency, u: int, v: int)
    requires MatchInv(dist, adj0, odd, unmatched, pairs, adj)
    requires u in unmatched && v in unmatched && u != v
    requires forall x :: x in unmatched - {u} ==> dist(u, v) <= dist(u, x)
    ensures MatchInv(dist, adj0, odd, unmatched - {u} - {v}, pairs + [(u, v)], AddEdge(adj, u, v))
  {
    MatchStepCount(odd, unmatched, pairs, u, v);
    GreedyStep(dist, odd, pairs, u, v);
    MatchStepDegrees(adj0, pairs, adj, u, v);
    if Symmetric(adj0) && Loopless(adj0) {
      AddEdgeKeepsSymmetric(adj, u, v);
    }
    KeysFromStep(adj0, odd, adj, u, v);
  }

  lemma {:induction false} EndsSnoc(pairs: seq<(int, int)>, u: int, v: int)
    ensures Ends(pairs + [(u, v)]) == Ends(pairs) + multiset{u, v}
  {
    var pairs' := pairs + [(u, v)];
    assert pairs'[..|pairs'| - 1] == pairs;
  }

  /** A new pair takes its two cities out of the unmatched ones. */
  lemma {:induction false} LeftSnoc(odd: set<int>, pairs: seq<(int, int)>, u: int, v: int)
    ensures Left(odd, pairs + [(u, v)]) == Left(odd, pairs) - {u} - {v}
  {
    EndsSnoc(pairs, u, v);
    forall x
      ensures x in Left(odd, pairs + [(u, v)]) <==> x in Left(odd, pairs) - {u} - {v}
    {
      assert (Ends(pairs) + multiset{u, v})[x] == Ends(pairs)[x] + multiset{u, v}[x];
    }
  }

  /** Pairing a nearest unmatched city with u extends a greedy sequence. */
  lemma {:induction false} GreedyStep(dist: Dist, odd: set<int>, pairs: seq<(int, int)>, u: int, v: int)
    requires Greedy(dist, odd, pairs)
    requires u in Left(odd, pairs) && v in Left(odd, pairs) && u != v
    requires forall x :: x in Left(odd, pairs) - {u} ==> dist(u, v) <= dist(u, x)
    ensures Greedy(dist, odd, pairs + [(u, v)])
  {
    var pairs' := pairs + [(u, v)];
    assert pairs'[..|pairs'| - 1] == pairs;
  }

  /** Taking u and v out of the unmatched set moves them to the pairs' ends. */
  lemma {:induction false} MatchStepCount(odd: set<int>, unmatched: set<int>, pairs: seq<(int, int)>, u: int, v: int)
    requires Counted(odd, unmatched, pairs)
    requires u in unmatched && v in unmatched && u != v
    ensures Counted(odd, unmatched - {u} - {v}, pairs + [(u, v)])
  {
    LeftSnoc(odd, pairs, u, v);
    EndsMove(odd, unmatched, pairs, u, v);
    TwoFewer(unmatched, u, v);
  }

  /** The multiset equation survives moving u and v from the unmatched set
      to the ends. */
  lemma {:induction false} EndsMove(odd: set<int>, unmatched: set<int>, pairs: seq<(int, int)>, u: int, v: int)
    requires Ends(pairs) + multiset(unmatched) == multiset(odd)
    requires u in unmatched && v in unmatched && u != v
    ensures Ends(pairs + [(u, v)]) + multiset(unmatched - {u} - {v}) == multiset(odd)
  {
    EndsSnoc(pairs, u, v);
    assert multiset(unmatched) == multiset(unmatched - {u} - {v}) + multiset{u, v};
  }

  /** Removing two distinct members shrinks a set by two. */
  lemma {:induction false} TwoFewer(s: set<int>, u: int, v: int)
    requires u in s && v in s && u != v
    ensures |s - {u} - {v}| == |s| - 2
  {
    assert |s - {u}| == |s| - 1;
  }

  lemma {:induction false} MatchStepDegrees(adj0: Adjacency, pairs: seq<(int, int)>, adj: Adjacency, u: int, v: int)
    requires DegreesGrown(adj0, pairs, adj)
    ensures DegreesGrown(adj0, pairs + [(u, v)], AddEdge(adj, u, v))
  {
    EndsSnoc(pairs, u, v);
    var a1 := AddArc(adj, u, v);
    forall w
      ensures |Nbrs(AddEdge(adj, u, v), w)| == |Nbrs(adj0, w)| + Ends(pairs + [(u, v)])[w]
    {
      assert |Nbrs(a1, w)| == |Nbrs(adj, w)| + (if w == u then 1 else 0);
      assert |Nbrs(AddArc(a1, v, u), w)| == |Nbrs(a1, w)| + (if w == v then 1 else 0);
      assert (Ends(pairs) + multiset{u, v})[w] == Ends(pairs)[w] + multiset{u, v}[w];
    }
  }

  lemma {:induction false} KeysFromStep(adj0: Adjacency, odd: set<int>, adj: Adjacency, u: int, v: int)
    requires KeysFrom(adj0, odd, adj) && u in odd && v in odd
    ensures KeysFrom(adj0, odd, AddEdge(adj, u, v))
  {
  }

  /** The greedy matching of christofides: pop any unmatched city, pair it with
      a nearest remaining one, add that edge. A ValueError when one city is
      left over. */
  method GreedyMatching(dist: Dist, adj0: Adjacency, odd: set<int>) returns (r: Matching)
    ensures r.Unpaired? <==> |odd| % 2 == 1
    ensures r.Paired? ==> Ends(r.pairs) == multiset(odd) && Greedy(dist, odd, r.pairs)
    ensures r.Paired? ==> forall v :: |Nbrs(r.adj, v)| == |Nbrs(adj0, v)| + (if v in odd then 1 else 0)
    ensures r.Paired? && Symmetric(adj0) && Loopless(adj0) ==> Symmetric(r.adj) && Loopless(r.adj)
    ensures r.Paired? ==> forall v :: v in r.adj ==> v in adj0 || v in odd
  {
    var unmatched := odd;
    var pairs: seq<(int, int)> := [];
    var adj := adj0;
    assert Left(odd, []) == odd;
    while unmatched != {}
      invariant MatchInv(dist, adj0, odd, unmatched, pairs, adj)
      decreases |unmatched|
    {
      var u, v, alone := Pick(dist, unmatched);
      if alone {
        OneLeftOver(odd, unmatched, pairs, u);
        return Unpaired;
      }
      MatchStep(dist, adj0, odd, unmatched, pairs, adj, u, v);
      TwoFewer(unmatched, u, v);
      unmatched := unmatched - {u} - {v};
      pairs := pairs + [(u, v)];
      adj := AddEdge(adj, u, v);
    }
    MatchDone(dist, adj0, odd, pairs, adj);
    r := Paired(adj, pairs);
  }

  /** One turn of the matching loop: `unmatched.pop()` gives u; when nobody
      else is left, `alone` reports the ValueError of `min`, otherwise v is a
      nearest other unmatched city. */
  method Pick(dist: Dist, unmatched: set<int>) returns (u: int, v: int, alone: bool)
    requires unmatched != {}
    ensures alone <==> unmatched == {u}
    ensures u in unmatched
    ensures !alone ==> v in unmatched && v != u && forall x :: x in unmatched - {u} ==> dist(u, v) <= dist(u, x)
  {
    SetHasElement(unmatched);
    u :| u in unmatched;
    if unmatched == {u} {
      return u, u, true;
    }
    alone := false;
    assert unmatched - {u} != {};
    var nearest := NearestExists(dist, u, unmatched - {u});
    v :| v in unmatched - {u} && forall x :: x in unmatched - {u} ==> dist(u, v) <= dist(u, x);
  }

  /** A single city left over means odd has odd size. */
  lemma {:induction false} OneLeftOver(odd: set<int>, unmatched: set<int>, pairs: seq<(int, int)>, u: int)
    requires Counted(odd, unmatched, pairs) && unmatched == {u}
    ensures |odd| % 2 == 1
  {
    assert |unmatched| == 1;
  }

  /** With nobody left unmatched, every odd city ends exactly one pair. */
  lemma {:induction false} MatchDone(dist: Dist, adj0: Adjacency, odd: set<int>, pairs: seq<(int, int)>, adj: Adjacency)
    requires MatchInv(dist, adj0, odd, {}, pairs, adj)
    ensures |odd| % 2 == 0
    ensures Ends(pairs) == multiset(odd) && Greedy(dist, odd, pairs)
    ensures forall v :: |Nbrs(adj, v)| == |Nbrs(adj0, v)| + (if v in odd then 1 else 0)
    ensures Symmetric(adj0) && Loopless(adj0) ==> Symmetric(adj) && Loopless(adj)
    ensures forall v :: v in adj ==> v in adj0 || v in odd
  {
    var none: set<int> := {};
    assert multiset(none) == multiset{};
    assert Ends(pairs) == multiset(odd);
  }

  /** Matching the odd cities leaves every degree even. */
  lemma {:induction false} MatchingEvensDegrees(adj0: Adjacency, adj: Adjacency)
    requires forall v :: |Nbrs(adj, v)| == |Nbrs(adj0, v)| + (if v in OddVertices(adj0) then 1 else 0)
    ensures forall v :: |Nbrs(adj, v)| % 2 == 0
  {
  }

  /** The matched graph still lists only cities 1..n. */
  lemma {:induction false} MatchedKeysWithin(adj0: Adjacency, adj: Adjacency, n: int)
    requires KeysWithin(adj0, n)
    requires forall v :: v in adj ==> v in adj0 || v in OddVertices(adj0)
    ensures KeysWithin(adj, n)
  {
  }

  /** The shortcut of a circuit from city 1 over cities 1..n is a closed
      tour from city 1 without repeats; with a single city it is [1, 1]. */
  lemma {:induction false} ShortcutTour(c: seq<int>, n: int)
    requires n >= 1 && c != [] && c[0] == 1 && Labelled(c, 1, n)
    ensures |Dedup(c) + [1]| >= 2 && (Dedup(c) + [1])[0] == 1
    ensures NoDup((Dedup(c) + [1])[..|Dedup(c)|])
    ensures forall i :: 0 <= i < |Dedup(c) + [1]| ==> 1 <= (Dedup(c) + [1])[i] <= n
    ensures n == 1 ==> Dedup(c) + [1] == [1, 1]
  {
    var t := Dedup(c) + [1];
    DedupHead(c);
    assert t[..|Dedup(c)|] == Dedup(c);
    forall i | 0 <= i < |t|
      ensures 1 <= t[i] <= n
    {
      if i < |t| - 1 {
        assert t[i] in c;
      }
    }
  }

  /** The first half of christofides: Prim's tree with the greedy matching of
      its odd cities added. The matching always pairs everybody, and the
      result is an undirected graph on 1..n whose every degree is even. */
  method MatchedTree(dist: Dist, n: int) returns (adj: Adjacency)
    requires n >= 1
    ensures KeysWithin(adj, n) && Symmetric(adj) && Loopless(adj)
    ensures forall v :: |Nbrs(adj, v)| % 2 == 0
  {
    var tree, sh := Prim(dist, n);
    TreeIsUndirected(tree, sh);
    var odd := OddVertices(tree);
    OddCountEven(tree, n, n - 1);
    var m := GreedyMatching(dist, tree, odd);
    if m.Unpaired? {
      assert false;
      return map[];
    }
    MatchedKeysWithin(tree, m.adj, n);
    MatchingEvensDegrees(tree, m.adj);
    adj := m.adj;
  }

  /** christofides: Prim's tree, greedy matching of its odd cities, the
      Hierholzer circuit from city 1 and its shortcut. The walk never gets
      stuck; the tour starts and ends at city 1, repeats no city in between,
      and its reported cost is its path length. */
  method Christofides(dist: Dist, n: int) returns (cost: real, tour: seq<int>)
    requires n >= 1
    ensures |tour| >= 2 && tour[0] == 1 && tour[|tour| - 1] == 1
    ensures NoDup(tour[..|tour| - 1])
    ensures forall i :: 0 <= i < |tour| ==> 1 <= tour[i] <= n
    ensures cost == PathLength(dist, tour)
    ensures n == 1 ==> tour == [1, 1]
  {
    var adj := MatchedTree(dist, n);
    var w := EulerianTour(adj, n, 1);
    if w.Stuck? {
      assert false;
      return;
    }
    var c := w.circuit;
    tour := Shortcut(c);
    ShortcutTour(c, n);
    cost := PathLengthLoop(dist, tour);
  }
}
