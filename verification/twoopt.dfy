/** two_opt: every candidate reverses one interior segment of the INPUT tour;
    the best accepted one is kept. */
module TwoOpt {
  import opened Tours

  /** tour[:i] + tour[i:j+1][::-1] + tour[j+1:] */
  function Move2(t: seq<int>, i: int, j: int): (r: seq<int>)
    requires 0 <= i <= j < |t|
    ensures |r| == |t|
    ensures forall k :: 0 <= k < i ==> r[k] == t[k]
    ensures forall k :: i <= k <= j ==> r[k] == t[i + j - k]
    ensures forall k :: j < k < |t| ==> r[k] == t[k]
  {
    var mid := Reverse(t[i..j + 1]);
    var r := t[..i] + mid + t[j + 1..];
    forall k | i <= k <= j
      ensures r[k] == t[i + j - k]
    {
      assert r[k] == mid[k - i];
    }
    r
  }

  /** Reversing a segment permutes the tour. */
  lemma {:induction false} Move2Perm(t: seq<int>, i: int, j: int)
    requires 0 <= i <= j < |t|
    ensures multiset(Move2(t, i, j)) == multiset(t)
  {
    assert t == t[..i] + t[i..j + 1] + t[j + 1..];
    var r := Move2(t, i, j);
    assert r == t[..i] + Reverse(t[i..j + 1]) + t[j + 1..];
  }

  /** The loop bounds: i in range(1, n-2), j in range(i+2, n), n = len(tour)-1. */
  predicate InRange(t: seq<int>, i: int, j: int) {
    1 <= i < |t| - 3 && i + 2 <= j < |t| - 1
  }

  /** The matrix estimate that lets a candidate be measured:
      new_dist < old_dist at algorithms.py:191-195. */
  predicate Promising(m: seq<seq<real>>, t: seq<int>, i: int, j: int)
    requires LabelsFit(m, t) && 1 <= i && j + 1 < |t| && i <= j
  {
    Lookup(m, t[i - 1], t[j]) + Lookup(m, t[i], t[j + 1])
      < Lookup(m, t[i - 1], t[i]) + Lookup(m, t[j], t[j + 1])
  }

  /** The candidates of row i with j < hi that passed the estimate are no
      shorter than L. */
  ghost predicate BeatsRow(dist: Dist, m: seq<seq<real>>, t: seq<int>, L: real, i: int, hi: int)
    requires LabelsFit(m, t)
  {
    forall j :: InRange(t, i, j) && j < hi && Promising(m, t, i, j) ==> L <= PathLength(dist, Move2(t, i, j))
  }

  /** The same for all rows below hi. */
  ghost predicate BeatsRows(dist: Dist, m: seq<seq<real>>, t: seq<int>, L: real, hi: int)
    requires LabelsFit(m, t)
  {
    forall i, j :: InRange(t, i, j) && i < hi && Promising(m, t, i, j) ==> L <= PathLength(dist, Move2(t, i, j))
  }

  /** Every candidate that passed the estimate is no shorter than L: the tour
      of length L is 2-optimal with respect to the input. */
  ghost predicate BeatsAll(dist: Dist, m: seq<seq<real>>, t: seq<int>, L: real)
    requires LabelsFit(m, t)
  {
    BeatsRows(dist, m, t, L, |t|)
  }

  /** b is the input tour or one of its candidates. */
  ghost predicate IsMoveOf(t: seq<int>, b: seq<int>) {
    b == t || exists i, j :: InRange(t, i, j) && b == Move2(t, i, j)
  }

  /** b is the input tour, or a candidate that passed the matrix estimate and
      was measured strictly shorter than the input: the only tours the
      passes ever store in best_tour. */
  ghost predicate Accepted(dist: Dist, m: seq<seq<real>>, t: seq<int>, b: seq<int>)
    requires LabelsFit(m, t)
  {
    b == t || exists i, j :: InRange(t, i, j) && Promising(m, t, i, j) && b == Move2(t, i, j)
                          && PathLength(dist, b) < PathLength(dist, t)
  }

  lemma {:induction false} AcceptedIsMove(dist: Dist, m: seq<seq<real>>, t: seq<int>, b: seq<int>)
    requires LabelsFit(m, t) && Accepted(dist, m, t, b)
    ensures IsMoveOf(t, b)
  {
    if b != t {
      var i, j :| InRange(t, i, j) && Promising(m, t, i, j) && b == Move2(t, i, j)
                 && PathLength(dist, b) < PathLength(dist, t);
    }
  }

  /** What one pass keeps: the incumbent and its length, how it compares with
      the length L0 the pass started from. */
  ghost predicate PassInv(dist: Dist, m: seq<seq<real>>, t: seq<int>, L0: real,
                          best: seq<int>, L: real, improved: bool)
    requires LabelsFit(m, t)
  {
    && L == PathLength(dist, best)
    && L <= L0 && L0 <= PathLength(dist, t)
    && Accepted(dist, m, t, best)
    && (improved <==> L < L0)
    && (BeatsAll(dist, m, t, L0) ==> L == L0)
  }

  /** The inner loop over j for one i. */
  method Row(dist: Dist, m: seq<seq<real>>, t: seq<int>, i: int, ghost L0: real,
             best0: seq<int>, L1: real, improved0: bool)
    returns (best: seq<int>, L: real, improved: bool)
    requires LabelsFit(m, t) && 1 <= i < |t| - 3
    requires PassInv(dist, m, t, L0, best0, L1, improved0)
    requires BeatsRows(dist, m, t, L1, i)
    ensures PassInv(dist, m, t, L0, best, L, improved)
    ensures BeatsRows(dist, m, t, L, i + 1)
  {
    best, L, improved := best0, L1, improved0;
    var j := i + 2;
    while j < |t| - 1
      invariant i + 2 <= j <= |t| - 1
      invariant RowInv(dist, m, t, L0, best, L, improved, i, j)
    {
      if Promising(m, t, i, j) {
        var cand := Move2(t, i, j);
        var len := PathLengthLoop(dist, cand);
        if len < L {
          Accept(dist, m, t, L0, best, L, improved, i, j);
          best, L, improved := cand, len, true;
        } else {
          Reject(dist, m, t, L0, best, L, improved, i, j);
        }
      } else {
        Reject(dist, m, t, L0, best, L, improved, i, j);
      }
      j := j + 1;
    }
    RowsGrow(dist, m, t, L, i);
  }

  /** The state of the inner loop at column j. */
  ghost predicate RowInv(dist: Dist, m: seq<seq<real>>, t: seq<int>, L0: real,
                         best: seq<int>, L: real, improved: bool, i: int, j: int)
    requires LabelsFit(m, t)
  {
    && PassInv(dist, m, t, L0, best, L, improved)
    && BeatsRows(dist, m, t, L, i) && BeatsRow(dist, m, t, L, i, j)
  }

  /** A measured candidate shorter than the incumbent replaces it. */
  lemma {:induction false} Accept(dist: Dist, m: seq<seq<real>>, t: seq<int>, L0: real,
                                  best: seq<int>, L: real, improved: bool, i: int, j: int)
    requires LabelsFit(m, t) && InRange(t, i, j)
    requires RowInv(dist, m, t, L0, best, L, improved, i, j)
    requires Promising(m, t, i, j) && PathLength(dist, Move2(t, i, j)) < L
    ensures RowInv(dist, m, t, L0, Move2(t, i, j), PathLength(dist, Move2(t, i, j)), true, i, j + 1)
  {
    var len := PathLength(dist, Move2(t, i, j));
    AcceptPass(dist, m, t, L0, L, i, j);
    LowerRows(dist, m, t, L, len, i);
    AcceptRow(dist, m, t, L, i, j);
  }

  lemma {:induction false} AcceptPass(dist: Dist, m: seq<seq<real>>, t: seq<int>, L0: real, L: real, i: int, j: int)
    requires LabelsFit(m, t) && InRange(t, i, j)
    requires L <= L0 && L0 <= PathLength(dist, t) && (BeatsAll(dist, m, t, L0) ==> L == L0)
    requires Promising(m, t, i, j) && PathLength(dist, Move2(t, i, j)) < L
    ensures PassInv(dist, m, t, L0, Move2(t, i, j), PathLength(dist, Move2(t, i, j)), true)
  {
    var len := PathLength(dist, Move2(t, i, j));
    assert Accepted(dist, m, t, Move2(t, i, j));
    if BeatsAll(dist, m, t, L0) {
      assert false;
    }
  }

  /** Lowering the bound keeps the rows beaten. */
  lemma {:induction false} LowerRows(dist: Dist, m: seq<seq<real>>, t: seq<int>, L: real, L': real, i: int)
    requires LabelsFit(m, t) && L' <= L
    requires BeatsRows(dist, m, t, L, i)
    ensures BeatsRows(dist, m, t, L', i)
  {
    forall a, b | InRange(t, a, b) && a < i && Promising(m, t, a, b)
      ensures L' <= PathLength(dist, Move2(t, a, b))
    {
      assert L <= PathLength(dist, Move2(t, a, b));
    }
  }

  lemma {:induction false} AcceptRow(dist: Dist, m: seq<seq<real>>, t: seq<int>, L: real, i: int, j: int)
    requires LabelsFit(m, t) && InRange(t, i, j)
    requires BeatsRow(dist, m, t, L, i, j)
    requires PathLength(dist, Move2(t, i, j)) < L
    ensures BeatsRow(dist, m, t, PathLength(dist, Move2(t, i, j)), i, j + 1)
  {
    var len := PathLength(dist, Move2(t, i, j));
    forall b | InRange(t, i, b) && b < j + 1 && Promising(m, t, i, b)
      ensures len <= PathLength(dist, Move2(t, i, b))
    {
      if b != j {
        assert L <= PathLength(dist, Move2(t, i, b));
      }
    }
  }

  /** A candidate skipped or not shorter leaves the incumbent. */
  lemma {:induction false} Reject(dist: Dist, m: seq<seq<real>>, t: seq<int>, L0: real,
                                  best: seq<int>, L: real, improved: bool, i: int, j: int)
    requires LabelsFit(m, t) && InRange(t, i, j)
    requires RowInv(dist, m, t, L0, best, L, improved, i, j)
    requires Promising(m, t, i, j) ==> L <= PathLength(dist, Move2(t, i, j))
    ensures RowInv(dist, m, t, L0, best, L, improved, i, j + 1)
  {
    forall b | InRange(t, i, b) && b < j + 1 && Promising(m, t, i, b)
      ensures L <= PathLength(dist, Move2(t, i, b))
    {
      if b != j {
        assert BeatsRow(dist, m, t, L, i, j);
      }
    }
  }

  lemma {:induction false} RowsGrow(dist: Dist, m: seq<seq<real>>, t: seq<int>, L: real, i: int)
    requires LabelsFit(m, t)
    requires BeatsRows(dist, m, t, L, i) && BeatsRow(dist, m, t, L, i, |t| - 1)
    ensures BeatsRows(dist, m, t, L, i + 1)
  {
    forall a, b | InRange(t, a, b) && a < i + 1 && Promising(m, t, a, b)
      ensures L <= PathLength(dist, Move2(t, a, b))
    {
      if a == i {
        assert b < |t| - 1;
      }
    }
  }

  /** One pass of the while loop: both for loops over the candidates of the
      input tour t. */
  method Pass(dist: Dist, m: seq<seq<real>>, t: seq<int>, best0: seq<int>, L0: real)
    returns (best: seq<int>, L: real, improved: bool)
    requires LabelsFit(m, t)
    requires L0 == PathLength(dist, best0) && L0 <= PathLength(dist, t) && Accepted(dist, m, t, best0)
    ensures PassInv(dist, m, t, L0, best, L, improved)
    ensures BeatsAll(dist, m, t, L)
  {
    best, L, improved := best0, L0, false;
    var i := 1;
    while i < |t| - 3
      invariant 1 <= i
      invariant PassInv(dist, m, t, L0, best, L, improved)
      invariant BeatsRows(dist, m, t, L, i)
    {
      best, L, improved := Row(dist, m, t, i, L0, best, L, improved);
      i := i + 1;
    }
    RowsDone(dist, m, t, L, i);
  }

  lemma {:induction false} RowsDone(dist: Dist, m: seq<seq<real>>, t: seq<int>, L: real, i: int)
    requires LabelsFit(m, t) && 1 <= i && i >= |t| - 3
    requires BeatsRows(dist, m, t, L, i)
    ensures BeatsAll(dist, m, t, L)
  {
  }

  /** A candidate or the input itself: same length, same cities, same first
      and last entries. */
  lemma {:induction false} MoveOfShape(t: seq<int>, b: seq<int>)
    requires IsMoveOf(t, b)
    ensures |b| == |t| && multiset(b) == multiset(t)
    ensures |t| > 0 ==> b[0] == t[0] && b[|t| - 1] == t[|t| - 1]
    ensures |t| <= 4 ==> b == t
  {
    if b != t {
      var i, j :| InRange(t, i, j) && b == Move2(t, i, j);
      Move2Perm(t, i, j);
    }
  }

  /** two_opt: repeat passes while one improves. A second pass meets only
      candidates the first already measured, so it never improves and the
      loop stops after at most two passes. */
  method TwoOpt(dist: Dist, m: seq<seq<real>>, tour: seq<int>) returns (best: seq<int>, bestLength: real)
    requires LabelsFit(m, tour)
    ensures bestLength == PathLength(dist, best)
    ensures bestLength <= PathLength(dist, tour)
    ensures best == tour || exists i, j :: InRange(tour, i, j) && Promising(m, tour, i, j) && best == Move2(tour, i, j)
                                          && bestLength < PathLength(dist, tour)
    ensures BeatsAll(dist, m, tour, bestLength)
    ensures |best| == |tour| && multiset(best) == multiset(tour)
    ensures |tour| > 0 ==> best[0] == tour[0] && best[|tour| - 1] == tour[|tour| - 1]
    ensures |tour| <= 4 ==> best == tour
  {
    best := tour;
    bestLength := PathLengthLoop(dist, best);
    var improved := true;
    ghost var passes := 0;
    while improved
      invariant bestLength == PathLength(dist, best)
      invariant bestLength <= PathLength(dist, tour)
      invariant Accepted(dist, m, tour, best)
      invariant passes >= 1 ==> BeatsAll(dist, m, tour, bestLength)
      invariant passes == 0 ==> improved
      decreases if !improved then 0 else if passes == 0 then 2 else 1
    {
      var L0 := bestLength;
      best, bestLength, improved := Pass(dist, m, tour, best, L0);
      passes := passes + 1;
    }
    AcceptedIsMove(dist, m, tour, best);
    MoveOfShape(tour, best);
  }

  /** The first and last entries and the multiset fix a closed tour: a
      2-opt result of a tour over 1..n is one. */
  lemma {:induction false} TwoOptKeepsTour(t: seq<int>, b: seq<int>, n: int)
    requires IsTour(t, n) && IsMoveOf(t, b)
    ensures IsTour(b, n)
  {
    MoveOfShape(t, b);
    TourRearranged(t, b, n);
  }
}
