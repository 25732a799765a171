/** eulerian_tour, the Hierholzer walk nested in christofides, and the
    shortcut that turns its circuit into a tour. */
module Euler {
  import opened Tours
  import opened Graph

  /** What the walk leaves: the ValueError `adj[v].remove(u)` raises when the
      back-arc is missing, or the circuit (in visit order) and the lists the
      walk did not consume. */
  datatype Circuit = Stuck | Walk(circuit: seq<int>, rest: Adjacency)

  /** Every entry is the start city or a city 1..n. */
  ghost predicate Labelled(s: seq<int>, start: int, n: int) {
    forall i :: 0 <= i < |s| ==> s[i] == start || 1 <= s[i] <= n
  }

  /** The walk's state: `steps` edges are consumed, each from both lists; the
      stack always rests on the start city, which is also the last city to
      leave it. */
  ghost predicate EulerInv(adj0: Adjacency, n: int, start: int, stack: seq<int>, circuit: seq<int>,
                           adj: Adjacency, steps: nat)
  {
    GraphLeft(adj0, n, adj, steps) && Stacked(n, start, stack, circuit, steps) && Emptied(circuit, adj)
  }

  /** A city enters the circuit only once its list is used up, and nothing is
      consumed from it afterwards. */
  ghost predicate Emptied(circuit: seq<int>, adj: Adjacency) {
    forall w :: w in circuit ==> Nbrs(adj, w) == []
  }

  /** The lists left after consuming `steps` edges. */
  ghost predicate GraphLeft(adj0: Adjacency, n: int, adj: Adjacency, steps: nat) {
    && KeysWithin(adj, n)
    && DegreeSum(adj, n) + 2 * steps == DegreeSum(adj0, n)
    && (Symmetric(adj0) && Loopless(adj0) ==> Symmetric(adj) && Loopless(adj))
  }

  /** The stack and the circuit after `steps` edges. */
  ghost predicate Stacked(n: int, start: int, stack: seq<int>, circuit: seq<int>, steps: nat) {
    && |stack| + |circuit| == steps + 1
    && (stack != [] ==> stack[0] == start)
    && (stack == [] ==> circuit != [] && circuit[|circuit| - 1] == start)
    && Labelled(stack, start, n) && Labelled(circuit, start, n)
  }

  /** Consuming the edge u - v lowers the degree sum by two. */
  lemma {:induction false} ConsumeEdge(adj: Adjacency, n: int, u: int, a1: Adjacency, v: int)
    requires KeysWithin(adj, n) && Nbrs(adj, u) != [] && PopArc(adj, u) == (v, a1) && u in Nbrs(a1, v)
    ensures KeysWithin(DropArc(a1, v, u), n)
    ensures 1 <= v <= n
    ensures DegreeSum(DropArc(a1, v, u), n) + 2 == DegreeSum(adj, n)
  {
    assert u in adj && v in a1;
    var s := Nbrs(adj, u);
    DegreeSumUpdate(adj, u, s[..|s| - 1], n);
    DegreeSumUpdate(a1, v, RemoveFirst(Nbrs(a1, v), u), n);
  }

  /** One round of the loop that consumes an edge keeps the walk's state. */
  lemma {:induction false} EulerStep(adj0: Adjacency, n: int, start: int, stack: seq<int>, circuit: seq<int>,
                                     adj: Adjacency, steps: nat, a1: Adjacency, v: int)
    requires EulerInv(adj0, n, start, stack, circuit, adj, steps) && stack != []
    requires Nbrs(adj, stack[|stack| - 1]) != []
    requires PopArc(adj, stack[|stack| - 1]) == (v, a1) && stack[|stack| - 1] in Nbrs(a1, v)
    ensures EulerInv(adj0, n, start, stack + [v], circuit, DropArc(a1, v, stack[|stack| - 1]), steps + 1)
    ensures DegreeSum(DropArc(a1, v, stack[|stack| - 1]), n) < DegreeSum(adj, n)
  {
    var u := stack[|stack| - 1];
    GraphStep(adj0, n, adj, steps, u, a1, v);
    StackStep(n, start, stack, circuit, steps, v);
    EmptiedStep(circuit, adj, u, a1, v);
  }

  /** Consuming u - v touches only the lists of u and v, and neither is empty
      before, so no circuit city is touched. */
  lemma {:induction false} EmptiedStep(circuit: seq<int>, adj: Adjacency, u: int, a1: Adjacency, v: int)
    requires Emptied(circuit, adj)
    requires Nbrs(adj, u) != [] && PopArc(adj, u) == (v, a1) && u in Nbrs(a1, v)
    ensures Emptied(circuit, DropArc(a1, v, u))
  {
    forall w | w in circuit
      ensures Nbrs(DropArc(a1, v, u), w) == []
    {
      assert w != u;
      if w == v {
        assert false;
      }
    }
  }

  lemma {:induction false} GraphStep(adj0: Adjacency, n: int, adj: Adjacency, steps: nat, u: int, a1: Adjacency, v: int)
    requires GraphLeft(adj0, n, adj, steps)
    requires Nbrs(adj, u) != [] && PopArc(adj, u) == (v, a1) && u in Nbrs(a1, v)
    ensures GraphLeft(adj0, n, DropArc(a1, v, u), steps + 1)
    ensures DegreeSum(DropArc(a1, v, u), n) < DegreeSum(adj, n)
    ensures 1 <= v <= n
  {
    ConsumeEdge(adj, n, u, a1, v);
    if Symmetric(adj0) && Loopless(adj0) {
      RemoveEdgeKeepsSymmetric(adj, u);
    }
  }

  lemma {:induction false} StackStep(n: int, start: int, stack: seq<int>, circuit: seq<int>, steps: nat, v: int)
    requires Stacked(n, start, stack, circuit, steps) && stack != [] && 1 <= v <= n
    ensures Stacked(n, start, stack + [v], circuit, steps + 1)
  {
    var stack' := stack + [v];
    assert stack'[0] == stack[0];
    forall i | 0 <= i < |stack'|
      ensures stack'[i] == start || 1 <= stack'[i] <= n
    {
      if i < |stack| {
        assert stack'[i] == stack[i];
      }
    }
  }

  /** Moving the top of the stack to the circuit keeps the walk's state. */
  lemma {:induction false} EulerBack(adj0: Adjacency, n: int, start: int, stack: seq<int>, circuit: seq<int>,
                                     adj: Adjacency, steps: nat)
    requires EulerInv(adj0, n, start, stack, circuit, adj, steps) && stack != []
    requires Nbrs(adj, stack[|stack| - 1]) == []
    ensures EulerInv(adj0, n, start, stack[..|stack| - 1], circuit + [stack[|stack| - 1]], adj, steps)
  {
    var stack' := stack[..|stack| - 1];
    var circuit' := circuit + [stack[|stack| - 1]];
    forall i | 0 <= i < |circuit'|
      ensures circuit'[i] == start || 1 <= circuit'[i] <= n
    {
      if i < |circuit| {
        assert circuit'[i] == circuit[i];
      }
    }
    if stack' != [] {
      assert stack'[0] == stack[0];
    }
  }

  /** Reversing keeps the labels. */
  lemma {:induction false} LabelledReverse(s: seq<int>, start: int, n: int)
    requires Labelled(s, start, n)
    ensures Labelled(Reverse(s), start, n)
  {
    forall i | 0 <= i < |s|
      ensures Reverse(s)[i] == start || 1 <= Reverse(s)[i] <= n
    {
      assert Reverse(s)[i] == s[|s| - 1 - i];
    }
  }

  /** Hierholzer's algorithm as eulerian_tour runs it: look at the top of the
      stack, consume its last edge and descend, or move it to the circuit.
      The circuit is returned reversed. The walk stops (Stuck) exactly where
      the source raises, and never does on an undirected loopless graph. */
  method EulerianTour(adj0: Adjacency, ghost n: int, start: int) returns (r: Circuit)
    requires KeysWithin(adj0, n)
    ensures Symmetric(adj0) && Loopless(adj0) ==> r.Walk?
    ensures r.Walk? ==> |r.circuit| >= 1 && r.circuit[0] == start
    ensures r.Walk? ==> 2 * (|r.circuit| - 1) + DegreeSum(r.rest, n) == DegreeSum(adj0, n)
    ensures r.Walk? ==> Labelled(r.circuit, start, n) && KeysWithin(r.rest, n)
    ensures r.Walk? && Symmetric(adj0) && Loopless(adj0) ==> Symmetric(r.rest) && Loopless(r.rest)
    ensures r.Walk? ==> forall v :: v in r.circuit ==> Nbrs(r.rest, v) == []
  {
    var stack := [start];
    var circuit: seq<int> := [];
    var adj := adj0;
    ghost var steps: nat := 0;
    while stack != []
      invariant EulerInv(adj0, n, start, stack, circuit, adj, steps)
      decreases DegreeSum(adj, n), |stack|
    {
      var u := stack[|stack| - 1];
      if Nbrs(adj, u) != [] {
        var p := PopArc(adj, u);
        var v := p.0;
        if u !in Nbrs(p.1, v) {
          if Symmetric(adj0) && Loopless(adj0) {
            BackArc(adj, u);
            assert false;
          }
          return Stuck;
        }
        EulerStep(adj0, n, start, stack, circuit, adj, steps, p.1, v);
        adj := DropArc(p.1, v, u);
        stack := stack + [v];
        steps := steps + 1;
      } else {
        EulerBack(adj0, n, start, stack, circuit, adj, steps);
        circuit := circuit + [u];
        stack := stack[..|stack| - 1];
      }
    }
    LabelledReverse(circuit, start, n);
    assert forall v :: v in Reverse(circuit) ==> v in multiset(circuit);
    r := Walk(Reverse(circuit), adj);
  }

  /** The first occurrence of every entry, in order: the reference for the
      shortcut loop. */
  function Dedup(s: seq<int>): (r: seq<int>)
    ensures NoDup(r)
    ensures forall x :: x in r <==> x in s
    decreases |s|
  {
    if s == [] then []
    else
      var d := Dedup(s[..|s| - 1]);
      var x := s[|s| - 1];
      assert forall y :: y in s <==> y in s[..|s| - 1] || y == x by {
        assert s == s[..|s| - 1] + [x];
      }
      if x in d then d else NoDupSnoc(d, x); d + [x]
  }

  lemma {:induction false} NoDupSnoc(s: seq<int>, x: int)
    requires NoDup(s) && x !in s
    ensures NoDup(s + [x])
  {
    forall a, b | 0 <= a < b < |s| + 1
      ensures (s + [x])[a] != (s + [x])[b]
    {
      assert (s + [x])[a] == s[a];
    }
  }

  /** The shortcut keeps first occurrences in their order: earlier entries of
      Dedup(s) first occur earlier in s. */
  lemma {:induction false} DedupOrder(s: seq<int>, i: int, j: int)
    requires 0 <= i < j < |Dedup(s)|
    ensures FirstIndex(s, Dedup(s)[i]) < FirstIndex(s, Dedup(s)[j])
    decreases |s|
  {
    var s0 := s[..|s| - 1];
    var x := s[|s| - 1];
    var d := Dedup(s0);
    assert s == s0 + [x];
    FirstIndexSnoc(s0, x, Dedup(s)[i]);
    FirstIndexSnoc(s0, x, Dedup(s)[j]);
    if x in d {
      DedupOrder(s0, i, j);
    } else if j < |d| {
      DedupOrder(s0, i, j);
    } else {
      assert Dedup(s)[j] == x;
      assert Dedup(s)[i] == d[i];
    }
  }

  /** Appending x does not move the first occurrence of an earlier entry, and
      a new x first occurs at the end. */
  lemma {:induction false} FirstIndexSnoc(s: seq<int>, x: int, y: int)
    requires y in s + [x]
    ensures y in s ==> FirstIndex(s + [x], y) == FirstIndex(s, y)
    ensures y !in s ==> FirstIndex(s + [x], y) == |s|
    decreases |s|
  {
    if s != [] {
      assert (s + [x])[1..] == s[1..] + [x];
      if s[0] != y {
        assert s == [s[0]] + s[1..];
        FirstIndexSnoc(s[1..], x, y);
      }
    }
  }

  /** Dedup is idempotent: a list without repeats is its own shortcut. */
  lemma {:induction false} DedupNoDup(s: seq<int>)
    requires NoDup(s)
    ensures Dedup(s) == s
    decreases |s|
  {
    if s != [] {
      var s0 := s[..|s| - 1];
      assert s == s0 + [s[|s| - 1]];
      assert NoDup(s0);
      DedupNoDup(s0);
      assert s[|s| - 1] !in s0;
    }
  }

  /** Dedup keeps the first entry. */
  lemma {:induction false} DedupHead(s: seq<int>)
    requires s != []
    ensures Dedup(s) != [] && Dedup(s)[0] == s[0]
    decreases |s|
  {
    if |s| > 1 {
      var s0 := s[..|s| - 1];
      DedupHead(s0);
      assert s0[0] == s[0];
    }
  }

  /** The shortcut loop of christofides: keep each city of the circuit the
      first time it is seen, then return to city 1. */
  method Shortcut(circuit: seq<int>) returns (tour: seq<int>)
    ensures tour == Dedup(circuit) + [1]
  {
    var seen: set<int> := {};
    tour := [];
    var i := 0;
    while i < |circuit|
      invariant 0 <= i <= |circuit|
      invariant tour == Dedup(circuit[..i])
      invariant forall x :: x in seen <==> x in circuit[..i]
    {
      var v := circuit[i];
      assert circuit[..i + 1][..i] == circuit[..i];
      if v !in seen {
        tour := tour + [v];
        seen := seen + {v};
      }
      i := i + 1;
    }
    assert circuit[..|circuit|] == circuit;
    tour := tour + [1];
  }
}
