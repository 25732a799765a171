/** Prim's algorithm rooted at city 1 with a lazily pruned heap, the preorder
    walk of the resulting tree, and the MST-preorder tour (approx_tsp_tour).
    The same Prim loop opens the Christofides-style solver. */
module Mst {
  import opened Tours
  import opened Graph

  /** A heap entry (weight, from, to). */
  type Entry = (real, int, int)

  /** Python's order on tuples, which is the order heapq pops in. */
  predicate EntryLe(a: Entry, b: Entry) {
    || a.0 < b.0
    || (a.0 == b.0 && (a.1 < b.1 || (a.1 == b.1 && a.2 <= b.2)))
  }

  /** heapq.heappop: takes out a smallest entry. The heap is kept as a bag;
      only which entry comes out matters. */
  method PopMin(heap: seq<Entry>) returns (e: Entry, rest: seq<Entry>)
    requires |heap| > 0
    ensures e in heap
    ensures forall x :: x in heap ==> EntryLe(e, x)
    ensures multiset(rest) + multiset{e} == multiset(heap)
    ensures |rest| == |heap| - 1
    ensures forall x :: x in rest ==> x in heap
    ensures forall x :: x in heap && x != e ==> x in rest
  {
    var k := 0;
    var i := 1;
    while i < |heap|
      invariant 0 <= k < |heap| && 1 <= i <= |heap|
      invariant forall j :: 0 <= j < i ==> EntryLe(heap[k], heap[j])
    {
      if !EntryLe(heap[k], heap[i]) {
        k := i;
      }
      i := i + 1;
    }
    e := heap[k];
    rest := heap[..k] + heap[k + 1..];
    assert heap == heap[..k] + [heap[k]] + heap[k + 1..];
  }

  /** The entries pushed for a newly visited v: (dist(v, w), v, w) for each
      w in lo..n not yet visited, in increasing w. */
  function Pushes(dist: Dist, v: int, visited: set<int>, lo: int, n: int): (r: seq<Entry>)
    ensures forall e :: e in r ==> e.1 == v && lo <= e.2 <= n && e.2 !in visited && e.0 == dist(v, e.2)
    ensures forall w :: lo <= w <= n && w !in visited ==> (dist(v, w), v, w) in r
    decreases n - lo
  {
    if lo > n then []
    else (if lo !in visited then [(dist(v, lo), v, lo)] else []) + Pushes(dist, v, visited, lo + 1, n)
  }

  /** Bookkeeping that Prim's loop does not store but its proof needs: the
      tree parent of every city except the root, and the order (rank) in
      which cities were visited. */
  datatype Shape = Shape(n: int, parent: map<int, int>, rank: map<int, nat>)

  ghost predicate TreeEdge(parent: map<int, int>, v: int, x: int) {
    (v in parent && parent[v] == x) || (x in parent && parent[x] == v)
  }

  /** Parents are visited before their children. */
  ghost predicate Ranked(sh: Shape) {
    && sh.parent.Keys <= sh.rank.Keys
    && forall x {:trigger x in sh.parent} :: x in sh.parent ==> sh.parent[x] in sh.rank && sh.rank[sh.parent[x]] < sh.rank[x]
  }

  /** Visit order of the cities Prim has taken so far: 1 first, every other
      visited city below a parent taken before it. */
  ghost predicate Ordered(visited: set<int>, parent: map<int, int>, rank: map<int, nat>, n: int) {
    && 1 in visited && visited <= Cities(n)
    && rank.Keys == visited && rank[1] == 0
    && (forall x :: x in rank ==> rank[x] < |visited|)
    && parent.Keys == visited - {1}
    && (forall x {:trigger x in parent} :: x in parent ==> parent[x] in visited && rank[parent[x]] < rank[x])
  }

  /** adj lists exactly the tree edges, once each, at both ends. */
  ghost predicate TreeLists(adj: Adjacency, visited: set<int>, parent: map<int, int>) {
    && adj.Keys <= visited
    && (forall v, x {:trigger x in Nbrs(adj, v)} :: x in Nbrs(adj, v) ==> TreeEdge(parent, v, x))
    && (forall x {:trigger x in parent} :: x in parent ==> x in Nbrs(adj, parent[x]) && parent[x] in Nbrs(adj, x))
    && (forall v :: NoDup(Nbrs(adj, v)))
  }

  /** The tree Prim has grown over `visited`. */
  ghost predicate Grown(adj: Adjacency, visited: set<int>, parent: map<int, int>, rank: map<int, nat>, n: int) {
    Ordered(visited, parent, rank, n) && TreeLists(adj, visited, parent)
  }

  /** A spanning tree of cities 1..n rooted at 1. */
  ghost predicate IsRootedTree(adj: Adjacency, sh: Shape) {
    sh.n >= 1 && Grown(adj, Cities(sh.n), sh.parent, sh.rank, sh.n)
  }

  lemma {:induction false} DegreeSumEmpty(m: int)
    ensures DegreeSum(map[], m) == 0
    decreases m
  {
    if m > 0 {
      DegreeSumEmpty(m - 1);
    }
  }

  lemma {:induction false} GrowOrdered(visited: set<int>, parent: map<int, int>, rank: map<int, nat>, n: int, u: int, v: int)
    requires Ordered(visited, parent, rank, n)
    requires u in visited && 1 <= v <= n && v !in visited
    ensures Ordered(visited + {v}, parent[v := u], rank[v := |visited|], n)
  {
    var vis' := visited + {v};
    var par' := parent[v := u];
    var rk' := rank[v := |visited|];
    assert |vis'| == |visited| + 1;
    forall x | x in par'
      ensures par'[x] in vis' && rk'[par'[x]] < rk'[x]
    {
    }
  }

  lemma {:induction false} GrowLists(adj: Adjacency, visited: set<int>, parent: map<int, int>, u: int, v: int)
    requires TreeLists(adj, visited, parent)
    requires parent.Keys <= visited && forall x {:trigger x in parent} :: x in parent ==> parent[x] in visited
    requires u in visited && v !in visited
    ensures TreeLists(AddEdge(adj, u, v), visited + {v}, parent[v := u])
  {
    var adj' := AddEdge(adj, u, v);
    var par' := parent[v := u];
    assert v !in adj;
    assert Nbrs(adj', v) == [u];
    assert Nbrs(adj', u) == Nbrs(adj, u) + [v];
    forall a, x | x in Nbrs(adj', a)
      ensures TreeEdge(par', a, x)
    {
      if a == v {
        assert x == u;
      } else if a == u {
        assert x in Nbrs(adj, a) || x == v;
      } else {
        assert Nbrs(adj', a) == Nbrs(adj, a);
      }
    }
    forall x | x in par'
      ensures x in Nbrs(adj', par'[x]) && par'[x] in Nbrs(adj', x)
    {
      if x != v {
        assert x in Nbrs(adj, parent[x]) && parent[x] in Nbrs(adj, x);
      }
    }
    forall a
      ensures NoDup(Nbrs(adj', a))
    {
      if a == u {
        assert v !in Nbrs(adj, u);
      } else if a != v {
        assert Nbrs(adj', a) == Nbrs(adj, a);
      }
    }
  }

  /** The tree of the root alone. */
  lemma {:induction false} GrownStart(n: int)
    requires n >= 1
    ensures Grown(map[], {1}, map[], map[1 := 0], n)
  {
    assert forall v :: Nbrs(map[], v) == [];
  }

  /** One accepted pop: v joins the tree below u, adding one edge. */
  lemma {:induction false} Grow(adj: Adjacency, visited: set<int>, parent: map<int, int>, rank: map<int, nat>, n: int, u: int, v: int)
    requires Grown(adj, visited, parent, rank, n) && DegreeSum(adj, n) == 2 * (|visited| - 1)
    requires u in visited && 1 <= v <= n && v !in visited
    ensures Grown(AddEdge(adj, u, v), visited + {v}, parent[v := u], rank[v := |visited|], n)
    ensures DegreeSum(AddEdge(adj, u, v), n) == 2 * (|visited + {v}| - 1)
    ensures |visited + {v}| == |visited| + 1 <= n
  {
    GrowOrdered(visited, parent, rank, n, u, v);
    GrowLists(adj, visited, parent, u, v);
    AddEdgeDegreeSum(adj, u, v, n);
    SubsetCard(visited + {v}, Cities(n));
  }

  /** What the heap holds between pops: entries leave the visited tree, and
      every city not yet visited can still be reached from the root. */
  ghost predicate HeapSound(dist: Dist, heap: seq<Entry>, visited: set<int>, n: int) {
    && (forall e :: e in heap ==> e.1 in visited && 1 <= e.2 <= n)
    && (forall x :: 1 <= x <= n && x !in visited ==> (dist(1, x), 1, x) in heap)
  }

  lemma {:induction false} HeapStart(dist: Dist, n: int)
    ensures HeapSound(dist, Pushes(dist, 1, {1}, 2, n), {1}, n)
  {
    var r := Pushes(dist, 1, {1}, 2, n);
    forall x | 1 <= x <= n && x !in {1}
      ensures (dist(1, x), 1, x) in r
    {
      assert 2 <= x <= n && x !in {1};
    }
  }

  lemma {:induction false} HeapAfterPop(dist: Dist, heap: seq<Entry>, e: Entry, rest: seq<Entry>, visited: set<int>, n: int)
    requires HeapSound(dist, heap, visited, n) && e in heap
    requires forall x :: x in rest ==> x in heap
    requires forall x :: x in heap && x != e ==> x in rest
    ensures e.1 in visited && 1 <= e.2 <= n
    ensures HeapSound(dist, rest, if e.2 in visited then visited else visited + {e.2}, n)
  {
  }

  lemma {:induction false} HeapAfterPush(dist: Dist, heap: seq<Entry>, v: int, visited: set<int>, n: int)
    requires HeapSound(dist, heap, visited, n) && v in visited
    ensures HeapSound(dist, heap + Pushes(dist, v, visited, 1, n), visited, n)
  {
  }

  /** The loop stops only once every city is visited. */
  lemma {:induction false} PrimDone(dist: Dist, heap: seq<Entry>, visited: set<int>, n: int)
    requires n >= 0 && HeapSound(dist, heap, visited, n) && visited <= Cities(n)
    requires |heap| == 0 || |visited| >= n
    ensures visited == Cities(n)
  {
    if |heap| == 0 {
      assert Cities(n) <= visited;
    } else {
      FullSubset(visited, n);
    }
  }

  /** The invariant of Prim's loop. */
  ghost predicate PrimInv(dist: Dist, adj: Adjacency, visited: set<int>, parent: map<int, int>, rank: map<int, nat>,
                          heap: seq<Entry>, n: int) {
    && Grown(adj, visited, parent, rank, n)
    && |visited| <= n
    && DegreeSum(adj, n) == 2 * (|visited| - 1)
    && HeapSound(dist, heap, visited, n)
  }

  /** Prim's algorithm (the loops at the head of approx_tsp_tour and of
      christofides): grows a spanning tree from city 1, always taking a
      smallest heap entry and skipping entries that lead to a visited city. */
  method Prim(dist: Dist, n: int) returns (adj: Adjacency, ghost sh: Shape)
    requires n >= 1
    ensures sh.n == n && IsRootedTree(adj, sh)
    ensures DegreeSum(adj, n) == 2 * (n - 1)
  {
    var visited: set<int> := {1};
    adj := map[];
    ghost var parent: map<int, int> := map[];
    ghost var rank: map<int, nat> := map[1 := 0];
    var heap := Pushes(dist, 1, {1}, 2, n);
    DegreeSumEmpty(n);
    GrownStart(n);
    HeapStart(dist, n);
    while |heap| > 0 && |visited| < n
      invariant PrimInv(dist, adj, visited, parent, rank, heap, n)
      decreases n - |visited|, |heap|
    {
      var e, rest := PopMin(heap);
      HeapAfterPop(dist, heap, e, rest, visited, n);
      heap := rest;
      var u, v := e.1, e.2;
      if v in visited {
        continue;
      }
      Grow(adj, visited, parent, rank, n, u, v);
      HeapAfterPush(dist, heap, v, visited + {v}, n);
      adj := AddEdge(adj, u, v);
      parent := parent[v := u];
      rank := rank[v := |visited|];
      visited := visited + {v};
      heap := heap + Pushes(dist, v, visited, 1, n);
    }
    PrimDone(dist, heap, visited, n);
    sh := Shape(n, parent, rank);
  }

  /** The tree's parent of u; 0, which is no city, stands for Python's None at the root. */
  ghost function ParentOf(sh: Shape, u: int): int {
    if u in sh.parent then sh.parent[u] else 0
  }

  /** A neighbour of u other than its parent is a child of u. */
  lemma {:induction false} TreeStep(adj: Adjacency, sh: Shape, u: int, w: int)
    requires IsRootedTree(adj, sh) && u in Cities(sh.n)
    requires w in Nbrs(adj, u) && w != ParentOf(sh, u)
    ensures w in sh.parent && sh.parent[w] == u
    ensures w in Cities(sh.n) && ParentOf(sh, w) == u && sh.rank[u] < sh.rank[w] < sh.n
  {
    assert TreeEdge(sh.parent, u, w);
  }

  /** The walk may enter u from its tree parent (from the root, from no city). */
  ghost predicate WalkFrom(adj: Adjacency, sh: Shape, u: int, from: int) {
    IsRootedTree(adj, sh) && u in Cities(sh.n) && from == ParentOf(sh, u)
  }

  /** dfs(u, parent) of the preorder walk: u, then the walks below every
      neighbour other than the one it was entered from. */
  function Dfs(adj: Adjacency, u: int, from: int, ghost sh: Shape): seq<int>
    requires WalkFrom(adj, sh, u, from)
    decreases sh.n - sh.rank[u], 1, 0
  {
    [u] + DfsEach(adj, u, from, Nbrs(adj, u), sh)
  }

  /** The walks below every w of ws other than the city u was entered from. */
  function DfsEach(adj: Adjacency, u: int, from: int, ws: seq<int>, ghost sh: Shape): seq<int>
    requires WalkFrom(adj, sh, u, from)
    requires forall w :: w in ws ==> w in Nbrs(adj, u)
    decreases sh.n - sh.rank[u], 0, |ws|
  {
    if ws == [] then []
    else
      (if ws[0] != from then TreeStep(adj, sh, u, ws[0]); Dfs(adj, ws[0], u, sh) else [])
      + DfsEach(adj, u, from, ws[1..], sh)
  }

  /** a lies on the parent chain from x to the root. */
  ghost predicate Anc(sh: Shape, a: int, x: int)
    requires Ranked(sh) && x in sh.rank
    decreases sh.rank[x]
  {
    x == a || (x in sh.parent && Anc(sh, a, sh.parent[x]))
  }

  /** The child of a on the way down to its descendant x. */
  ghost function ChildToward(sh: Shape, a: int, x: int): (c: int)
    requires Ranked(sh) && x in sh.rank && Anc(sh, a, x) && x != a
    ensures c in sh.parent && sh.parent[c] == a && Anc(sh, c, x)
    decreases sh.rank[x]
  {
    if sh.parent[x] == a then x else ChildToward(sh, a, sh.parent[x])
  }

  lemma {:induction false} AncRank(sh: Shape, a: int, x: int)
    requires Ranked(sh) && x in sh.rank && Anc(sh, a, x)
    ensures a in sh.rank && sh.rank[a] <= sh.rank[x]
    decreases sh.rank[x]
  {
    if x != a {
      AncRank(sh, a, sh.parent[x]);
    }
  }

  /** Below a child c of a lie only descendants of a that are reached through c. */
  lemma {:induction false} ChildUnique(sh: Shape, a: int, c: int, x: int)
    requires Ranked(sh) && x in sh.rank
    requires c in sh.parent && sh.parent[c] == a && Anc(sh, c, x)
    ensures Anc(sh, a, x) && x != a && ChildToward(sh, a, x) == c
    decreases sh.rank[x]
  {
    AncRank(sh, c, x);
    if x != c {
      ChildUnique(sh, a, c, sh.parent[x]);
    } else {
      assert Anc(sh, a, sh.parent[c]);
    }
  }

  /** Every city descends from the root. */
  lemma {:induction false} RootIsAncestor(adj: Adjacency, sh: Shape, x: int)
    requires IsRootedTree(adj, sh) && x in Cities(sh.n)
    ensures Anc(sh, 1, x)
    decreases sh.rank[x]
  {
    if x != 1 {
      RootIsAncestor(adj, sh, sh.parent[x]);
    }
  }

  /** The child of u through which the walk reaches x; 0 when x is u or not below u. */
  ghost function Through(sh: Shape, u: int, x: int): int
    requires Ranked(sh)
  {
    if x in sh.rank && Anc(sh, u, x) && x != u then ChildToward(sh, u, x) else 0
  }

  /** Counting 0/1 membership of c in a list without repeats, head and tail apart. */
  lemma {:induction false} HeadOrTail(ws: seq<int>, c: int)
    requires NoDup(ws) && ws != []
    ensures (if c != 0 && c in ws then 1 else 0)
         == (if c != 0 && c == ws[0] then 1 else 0) + (if c != 0 && c in ws[1..] then 1 else 0)
  {
    NoDupTail(ws);
    assert ws == [ws[0]] + ws[1..];
  }

  /** The walk below one neighbour w of u counts the descendants of u reached through w. */
  lemma {:induction false} BelowCount(adj: Adjacency, u: int, from: int, w: int, sh: Shape, x: int)
    requires WalkFrom(adj, sh, u, from)
    requires w in Nbrs(adj, u)
    ensures multiset(if w != from then Dfs(adj, w, u, sh) else [])[x]
         == if w != 0 && Through(sh, u, x) == w then 1 else 0
    decreases sh.n - sh.rank[u], 0, 0
  {
    if w != from {
      TreeStep(adj, sh, u, w);
      DfsCount(adj, w, u, sh, x);
      if x in Cities(sh.n) && Anc(sh, w, x) {
        ChildUnique(sh, u, w, x);
      }
    } else if x in sh.rank && Anc(sh, u, x) && x != u {
      var c := ChildToward(sh, u, x);
      assert sh.rank[sh.parent[c]] < sh.rank[c];
      assert u in sh.parent ==> sh.rank[sh.parent[u]] < sh.rank[u];
    }
  }

  lemma {:induction false} DfsEachCount(adj: Adjacency, u: int, from: int, ws: seq<int>, sh: Shape, x: int)
    requires WalkFrom(adj, sh, u, from)
    requires forall w :: w in ws ==> w in Nbrs(adj, u)
    requires NoDup(ws)
    ensures multiset(DfsEach(adj, u, from, ws, sh))[x]
         == if Through(sh, u, x) != 0 && Through(sh, u, x) in ws then 1 else 0
    decreases sh.n - sh.rank[u], 0, |ws|
  {
    if ws != [] {
      var w := ws[0];
      NoDupTail(ws);
      DfsEachCount(adj, u, from, ws[1..], sh, x);
      BelowCount(adj, u, from, w, sh, x);
      HeadOrTail(ws, Through(sh, u, x));
      var below := if w != from then Dfs(adj, w, u, sh) else [];
      assert DfsEach(adj, u, from, ws, sh) == below + DfsEach(adj, u, from, ws[1..], sh);
    }
  }

  /** The walk from u lists every descendant of u exactly once, and nothing else. */
  lemma {:induction false} DfsCount(adj: Adjacency, u: int, from: int, sh: Shape, x: int)
    requires WalkFrom(adj, sh, u, from)
    ensures multiset(Dfs(adj, u, from, sh))[x] == if x in Cities(sh.n) && Anc(sh, u, x) then 1 else 0
    decreases sh.n - sh.rank[u], 1, 0
  {
    DfsEachCount(adj, u, from, Nbrs(adj, u), sh, x);
    if x in Cities(sh.n) && Anc(sh, u, x) && x != u {
      var c := ChildToward(sh, u, x);
      assert c in Nbrs(adj, u) && c != 0;
    }
  }

  /** The preorder from the root is an ordering of all cities 1..n. */
  lemma {:induction false} PreorderVisitsAll(adj: Adjacency, sh: Shape)
    requires IsRootedTree(adj, sh)
    ensures multiset(Dfs(adj, 1, 0, sh)) == multiset(Cities(sh.n))
    ensures |Dfs(adj, 1, 0, sh)| == sh.n
    ensures Dfs(adj, 1, 0, sh)[0] == 1
  {
    var p := Dfs(adj, 1, 0, sh);
    forall x
      ensures multiset(p)[x] == multiset(Cities(sh.n))[x]
    {
      DfsCount(adj, 1, 0, sh, x);
      if x in Cities(sh.n) {
        RootIsAncestor(adj, sh, x);
      }
    }
    assert multiset(p) == multiset(Cities(sh.n));
    assert |multiset(p)| == |p|;
  }

  /** The tree's lists form an undirected graph without self-loops. */
  lemma {:induction false} TreeIsUndirected(adj: Adjacency, sh: Shape)
    requires IsRootedTree(adj, sh)
    ensures Symmetric(adj) && Loopless(adj) && KeysWithin(adj, sh.n)
  {
    forall v, x
      ensures multiset(Nbrs(adj, v))[x] == multiset(Nbrs(adj, x))[v]
    {
      NoDupCount(Nbrs(adj, v), x);
      NoDupCount(Nbrs(adj, x), v);
      assert x in Nbrs(adj, v) <==> v in Nbrs(adj, x);
    }
    forall v
      ensures v !in Nbrs(adj, v)
    {
      if v in sh.parent {
        assert sh.rank[sh.parent[v]] < sh.rank[v];
      }
    }
  }

  /** approx_tsp_tour: Prim from city 1, preorder walk, back to the root. */
  method ApproxTour(dist: Dist, n: int) returns (cost: real, tour: seq<int>)
    requires n >= 1
    ensures IsTour(tour, n)
    ensures cost == PathLength(dist, tour)
    ensures n == 1 ==> tour == [1, 1]
  {
    var adj, sh := Prim(dist, n);
    var preorder := Dfs(adj, 1, 0, sh);
    PreorderVisitsAll(adj, sh);
    tour := preorder + [1];
    assert tour[..n] == preorder;
    cost := PathLengthLoop(dist, tour);
  }
}
