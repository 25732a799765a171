/** Adjacency lists as the solvers keep them: a defaultdict(list) from a city
    to the list of its neighbours, one entry per incident edge. */
module Graph {
  import opened Tours

  type Adjacency = map<int, seq<int>>

  /** adj[v] on a defaultdict: a city that was never touched has no neighbours. */
  function Nbrs(adj: Adjacency, v: int): seq<int> {
    if v in adj then adj[v] else []
  }

  /** The sum of the list lengths of cities 1..m. */
  function DegreeSum(adj: Adjacency, m: int): nat
    decreases m
  {
    if m <= 0 then 0 else DegreeSum(adj, m - 1) + |Nbrs(adj, m)|
  }

  /** adj[u].append(v) */
  function AddArc(adj: Adjacency, u: int, v: int): (r: Adjacency)
    ensures Nbrs(r, u) == Nbrs(adj, u) + [v]
    ensures forall w :: w != u ==> Nbrs(r, w) == Nbrs(adj, w)
    ensures r.Keys == adj.Keys + {u}
  {
    adj[u := Nbrs(adj, u) + [v]]
  }

  /** adj[u].append(v); adj[v].append(u): one undirected edge, recorded at both ends. */
  function AddEdge(adj: Adjacency, u: int, v: int): Adjacency {
    AddArc(AddArc(adj, u, v), v, u)
  }

  /** list.index(x): where x first occurs in s. */
  function FirstIndex(s: seq<int>, x: int): (k: nat)
    requires x in s
    ensures k < |s| && s[k] == x && x !in s[..k]
  {
    if s[0] == x then 0
    else
      assert s == [s[0]] + s[1..];
      1 + FirstIndex(s[1..], x)
  }

  /** Taking out the entry at k leaves the rest of the multiset. */
  lemma {:induction false} SplitAt(s: seq<int>, k: int)
    requires 0 <= k < |s|
    ensures multiset(s[..k] + s[k + 1..]) == multiset(s) - multiset{s[k]}
  {
    assert s == s[..k] + [s[k]] + s[k + 1..];
  }

  /** list.remove(x): drops the first occurrence of x and keeps the order of
      the rest. */
  function RemoveFirst(s: seq<int>, x: int): (r: seq<int>)
    requires x in s
    ensures |r| == |s| - 1
    ensures multiset(r) == multiset(s) - multiset{x}
    ensures r == s[..FirstIndex(s, x)] + s[FirstIndex(s, x) + 1..]
  {
    var k := FirstIndex(s, x);
    SplitAt(s, k);
    s[..k] + s[k + 1..]
  }

  /** Undirected multigraph: v lists x as often as x lists v. */
  ghost predicate Symmetric(adj: Adjacency) {
    forall v, x :: multiset(Nbrs(adj, v))[x] == multiset(Nbrs(adj, x))[v]
  }

  ghost predicate Loopless(adj: Adjacency) {
    forall v :: v !in Nbrs(adj, v)
  }

  /** Every list belongs to a city 1..n. */
  ghost predicate KeysWithin(adj: Adjacency, n: int) {
    forall v :: v in adj ==> 1 <= v <= n
  }

  /** Replacing the list of one city 1..m changes the sum by the change in length. */
  lemma {:induction false} DegreeSumUpdate(adj: Adjacency, k: int, s: seq<int>, m: int)
    ensures DegreeSum(adj[k := s], m)
         == DegreeSum(adj, m) - (if 1 <= k <= m then |Nbrs(adj, k)| else 0) + (if 1 <= k <= m then |s| else 0)
    decreases m
  {
    if m > 0 {
      DegreeSumUpdate(adj, k, s, m - 1);
    }
  }

  lemma {:induction false} AddEdgeDegreeSum(adj: Adjacency, u: int, v: int, n: int)
    requires 1 <= u <= n && 1 <= v <= n
    ensures DegreeSum(AddEdge(adj, u, v), n) == DegreeSum(adj, n) + 2
  {
    var a1 := AddArc(adj, u, v);
    DegreeSumUpdate(adj, u, Nbrs(adj, u) + [v], n);
    DegreeSumUpdate(a1, v, Nbrs(a1, v) + [u], n);
  }

  /** Appending v to u's list adds one to exactly one count. */
  lemma {:induction false} AddArcCount(adj: Adjacency, u: int, v: int, a: int, b: int)
    ensures multiset(Nbrs(AddArc(adj, u, v), a))[b]
         == multiset(Nbrs(adj, a))[b] + (if a == u && b == v then 1 else 0)
  {
    if a == u {
      assert Nbrs(AddArc(adj, u, v), a) == Nbrs(adj, a) + [v];
    }
  }

  /** Adding an edge between two distinct cities keeps the multigraph
      undirected and free of self-loops. */
  lemma {:induction false} AddEdgeKeepsSymmetric(adj: Adjacency, u: int, v: int)
    requires Symmetric(adj) && Loopless(adj) && u != v
    ensures Symmetric(AddEdge(adj, u, v)) && Loopless(AddEdge(adj, u, v))
  {
    var a1 := AddArc(adj, u, v);
    var r := AddEdge(adj, u, v);
    forall a, b
      ensures multiset(Nbrs(r, a))[b] == multiset(Nbrs(r, b))[a]
    {
      AddArcCount(adj, u, v, a, b);
      AddArcCount(a1, v, u, a, b);
      AddArcCount(adj, u, v, b, a);
      AddArcCount(a1, v, u, b, a);
      assert multiset(Nbrs(adj, a))[b] == multiset(Nbrs(adj, b))[a];
    }
    forall a
      ensures a !in Nbrs(r, a)
    {
      AddArcCount(adj, u, v, a, a);
      AddArcCount(a1, v, u, a, a);
      assert a !in Nbrs(adj, a);
    }
  }

  /** v = adj[u].pop(): the last neighbour of u, and the graph without it. */
  function PopArc(adj: Adjacency, u: int): (r: (int, Adjacency))
    requires Nbrs(adj, u) != []
    ensures Nbrs(r.1, u) + [r.0] == Nbrs(adj, u)
    ensures forall w :: w != u ==> Nbrs(r.1, w) == Nbrs(adj, w)
    ensures r.1.Keys == adj.Keys
  {
    var s := Nbrs(adj, u);
    (s[|s| - 1], adj[u := s[..|s| - 1]])
  }

  /** adj[v].remove(u) */
  function DropArc(adj: Adjacency, v: int, u: int): (r: Adjacency)
    requires u in Nbrs(adj, v)
    ensures |Nbrs(r, v)| == |Nbrs(adj, v)| - 1
    ensures multiset(Nbrs(r, v)) == multiset(Nbrs(adj, v)) - multiset{u}
    ensures var k := FirstIndex(Nbrs(adj, v), u); Nbrs(r, v) == Nbrs(adj, v)[..k] + Nbrs(adj, v)[k + 1..]
    ensures forall w :: w != v ==> Nbrs(r, w) == Nbrs(adj, w)
    ensures r.Keys == adj.Keys
  {
    adj[v := RemoveFirst(Nbrs(adj, v), u)]
  }

  /** Popping u's last neighbour v takes one off exactly one count. */
  lemma {:induction false} PopArcCount(adj: Adjacency, u: int, a: int, b: int)
    requires Nbrs(adj, u) != []
    ensures multiset(Nbrs(PopArc(adj, u).1, a))[b]
         == multiset(Nbrs(adj, a))[b] - (if a == u && b == PopArc(adj, u).0 then 1 else 0)
  {
    var p := PopArc(adj, u);
    if a == u {
      assert multiset(Nbrs(adj, a)) == multiset(Nbrs(p.1, a)) + multiset{p.0};
    }
  }

  /** Removing u from v's list takes one off exactly one count. */
  lemma {:induction false} DropArcCount(adj: Adjacency, v: int, u: int, a: int, b: int)
    requires u in Nbrs(adj, v)
    ensures multiset(Nbrs(DropArc(adj, v, u), a))[b]
         == multiset(Nbrs(adj, a))[b] - (if a == v && b == u then 1 else 0)
  {
  }

  /** In an undirected loopless multigraph, the back-arc v -> u of a popped
      arc u -> v is still there to remove. */
  lemma {:induction false} BackArc(adj: Adjacency, u: int)
    requires Symmetric(adj) && Loopless(adj) && Nbrs(adj, u) != []
    ensures u in Nbrs(PopArc(adj, u).1, PopArc(adj, u).0)
  {
    var p := PopArc(adj, u);
    var v := p.0;
    PopArcCount(adj, u, v, u);
    assert v in Nbrs(adj, u);
    assert v != u;
    assert multiset(Nbrs(adj, v))[u] == multiset(Nbrs(adj, u))[v];
  }

  /** Removing both arcs of the popped edge keeps the graph undirected and
      loopless. */
  lemma {:induction false} RemoveEdgeKeepsSymmetric(adj: Adjacency, u: int)
    requires Symmetric(adj) && Loopless(adj) && Nbrs(adj, u) != []
    ensures u in Nbrs(PopArc(adj, u).1, PopArc(adj, u).0)
    ensures Symmetric(DropArc(PopArc(adj, u).1, PopArc(adj, u).0, u))
    ensures Loopless(DropArc(PopArc(adj, u).1, PopArc(adj, u).0, u))
  {
    BackArc(adj, u);
    var p := PopArc(adj, u);
    RemoveEdgeSymmetric(adj, u, p.1, p.0);
    RemoveEdgeLoopless(adj, u, p.1, p.0);
  }

  lemma {:induction false} RemoveEdgeSymmetric(adj: Adjacency, u: int, a1: Adjacency, v: int)
    requires Symmetric(adj) && Nbrs(adj, u) != [] && PopArc(adj, u) == (v, a1) && u in Nbrs(a1, v)
    ensures Symmetric(DropArc(a1, v, u))
  {
    var r := DropArc(a1, v, u);
    forall a, b
      ensures multiset(Nbrs(r, a))[b] == multiset(Nbrs(r, b))[a]
    {
      PopArcCount(adj, u, a, b);
      PopArcCount(adj, u, b, a);
      DropArcCount(a1, v, u, a, b);
      DropArcCount(a1, v, u, b, a);
      assert multiset(Nbrs(adj, a))[b] == multiset(Nbrs(adj, b))[a];
    }
  }

  lemma {:induction false} RemoveEdgeLoopless(adj: Adjacency, u: int, a1: Adjacency, v: int)
    requires Loopless(adj) && Nbrs(adj, u) != [] && PopArc(adj, u) == (v, a1) && u in Nbrs(a1, v)
    ensures Loopless(DropArc(a1, v, u))
  {
    var r := DropArc(a1, v, u);
    forall a
      ensures a !in Nbrs(r, a)
    {
      PopArcCount(adj, u, a, a);
      DropArcCount(a1, v, u, a, a);
      assert a !in Nbrs(adj, a);
    }
  }
}
