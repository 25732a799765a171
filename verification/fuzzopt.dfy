/** fuzzopt: iterated local search. The random ordering of cities 2..n and
    the random swap positions are inputs; each round perturbs the incumbent
    by one swap, improves it with 2-opt or 3-opt and keeps it only when it is
    strictly shorter. */
module FuzzOpt {
  import opened Tours
  import TwoOpt
  import ThreeOpt

  /** `max_iterations or n`: None and 0 both fall back to n; a negative count
      runs no round. */
  function Rounds(n: int, maxIterations: Option<int>): (k: nat)
    ensures maxIterations.None? || maxIterations == Some(0) ==> k == if n < 0 then 0 else n
    ensures maxIterations.Some? && maxIterations.value != 0 ==> k == if maxIterations.value < 0 then 0 else maxIterations.value
  {
    var r := if maxIterations.None? || maxIterations.value == 0 then n else maxIterations.value;
    if r < 0 then 0 else r
  }

  /** Every swap exchanges two distinct positions among 1..n-1, as the
      randint(1, n-1) draws with their redraw loop produce. */
  ghost predicate SwapsFit(swaps: seq<(int, int)>, n: int) {
    forall s :: 0 <= s < |swaps| ==>
      1 <= swaps[s].0 <= n - 1 && 1 <= swaps[s].1 <= n - 1 && swaps[s].0 != swaps[s].1
  }

  /** Every entry of a tour over 1..n is a label 1..n. */
  lemma {:induction false} TourLabels(t: seq<int>, n: int)
    requires IsTour(t, n)
    ensures forall k :: 0 <= k < |t| ==> 1 <= t[k] <= n
  {
    forall k | 0 <= k < |t|
      ensures 1 <= t[k] <= n
    {
      if k < n {
        assert t[k] == t[..n][k];
        assert t[k] in multiset(t[..n]);
      }
    }
  }

  /** A perturbation swaps two positions among 1..n-1, so a tour stays a tour
      with the same first and last entry. */
  lemma {:induction false} SwapKeepsTour(t: seq<int>, n: int, u: int, v: int)
    requires IsTour(t, n) && 1 <= u <= n - 1 && 1 <= v <= n - 1
    ensures IsTour(Swap(t, u, v), n)
  {
    TourRearranged(t, Swap(t, u, v), n);
  }

  /** The matrix built at algorithms.py:290-293 covers every label of a tour
      over 1..n. */
  lemma {:induction false} MatrixFitsTour(dist: Dist, n: nat, t: seq<int>)
    requires IsTour(t, n)
    ensures LabelsFit(DistMatrix(dist, n), t)
  {
    TourLabels(t, n);
  }

  /** How fuzzopt ends: an exception from 3-opt or from swapping past the end
      of a tour 3-opt shortened, the pair (fx, x), or the fuel bound of a
      3-opt call running out. */
  datatype Outcome = Raised | Finished(fx: real, x: seq<int>) | OutOfFuel

  /** The incumbent's state over the rounds. */
  ghost predicate Incumbent(dist: Dist, n: int, useThreeOpt: bool, x0: seq<int>, x: seq<int>, fx: real) {
    && fx == PathLength(dist, x)
    && fx <= PathLength(dist, x0)
    && |x| >= 1 && x[0] == 1
    && (forall k :: 0 <= k < |x| ==> 1 <= x[k] <= n)
    && (!useThreeOpt ==> IsTour(x, n))
  }

  /** The incumbent's length: 3-opt may shorten it, never lengthen it, and does
      neither unless the tour has seven entries and a call may sweep twice. */
  ghost predicate Sized(n: int, fuel: nat, x: seq<int>) {
    |x| <= n + 1 && (n < 6 || fuel <= 1 ==> |x| == n + 1)
  }

  /** A local-search result fit to become the incumbent: its length is
      measured, it starts at city 1 and uses labels 1..n only. */
  ghost predicate Candidate(dist: Dist, n: int, useThreeOpt: bool, xn: seq<int>, fn: real) {
    && fn == PathLength(dist, xn)
    && |xn| >= 1 && xn[0] == 1
    && (forall k :: 0 <= k < |xn| ==> 1 <= xn[k] <= n)
    && (!useThreeOpt ==> IsTour(xn, n))
  }

  /** Taking a strictly shorter candidate keeps the incumbent's state. */
  lemma {:induction false} Accept(dist: Dist, n: int, useThreeOpt: bool, x0: seq<int>, x: seq<int>, fx: real,
                                  xn: seq<int>, fn: real)
    requires Incumbent(dist, n, useThreeOpt, x0, x, fx) && Candidate(dist, n, useThreeOpt, xn, fn) && fn < fx
    ensures Incumbent(dist, n, useThreeOpt, x0, xn, fn)
  {
  }

  /** What one round ends with: an exception, a 3-opt call out of fuel, or a
      candidate. */
  datatype Round = Raise | Exhausted | Next(xn: seq<int>, fn: real)

  /** What two_opt makes of the swapped tour y: a measured candidate that is y
      or one promising reversal of y strictly shorter than y, and that no
      promising reversal of y undercuts. */
  ghost predicate TwoOptRound(dist: Dist, m: seq<seq<real>>, y: seq<int>, r: Round) {
    && LabelsFit(m, y) && r.Next?
    && r.fn == PathLength(dist, r.xn)
    && TwoOpt.Accepted(dist, m, y, r.xn) && TwoOpt.BeatsAll(dist, m, y, r.fn)
  }

  /** What three_opt makes of the swapped tour y, witnessed by the tours its
      restarts pass through: they form the chain of first-found moves from y,
      at most fuel + 1 long; the fuel runs out exactly when the chain holds
      fuel + 1 tours; a candidate is the last tour, whose sweep takes no case;
      an exception comes after a sweep over the last tour that reads past its
      end. */
  ghost predicate ThreeOptTrail(dist: Dist, m: seq<seq<real>>, y: seq<int>, fuel: nat, r: Round,
                                trail: seq<seq<int>>) {
    && trail != [] && trail[0] == y && |trail| <= fuel + 1
    && ThreeOpt.Chain(m, |y| - 1, trail)
    && LabelsFit(m, trail[|trail| - 1])
    && (r.Exhausted? <==> |trail| == fuel + 1)
    && (r.Next? ==> && r.xn == trail[|trail| - 1] && r.fn == PathLength(dist, r.xn)
                    && ThreeOpt.SweepSpec(m, r.xn, |y| - 1, ThreeOpt.NoMove))
    && (r.Raise? ==> exists i, j, k :: ThreeOpt.SweepSpec(m, trail[|trail| - 1], |y| - 1, ThreeOpt.OutOfRange(i, j, k)))
  }

  ghost predicate ThreeOptRound(dist: Dist, m: seq<seq<real>>, y: seq<int>, fuel: nat, r: Round) {
    exists trail :: ThreeOptTrail(dist, m, y, fuel, r, trail)
  }

  /** One round from the incumbent x with the draws (u, v): `xn[u], xn[v] =
      xn[v], xn[u]` raises when a position is past the end; otherwise the
      chosen local search of the swapped tour decides the round. */
  ghost predicate RoundOf(dist: Dist, m: seq<seq<real>>, useThreeOpt: bool, x: seq<int>, u: int, v: int,
                          fuel: nat, r: Round) {
    if 0 <= u < |x| && 0 <= v < |x| then
      if useThreeOpt then ThreeOptRound(dist, m, Swap(x, u, v), fuel, r) else TwoOptRound(dist, m, Swap(x, u, v), r)
    else
      r == Raise
  }

  /** A 3-opt round has one result: the chain, its length and its last
      sweep are all fixed by the swapped tour and the fuel. */
  lemma {:induction false} ThreeOptRoundDetermined(dist: Dist, m: seq<seq<real>>, y: seq<int>, fuel: nat,
                                                   r1: Round, r2: Round)
    requires ThreeOptRound(dist, m, y, fuel, r1) && ThreeOptRound(dist, m, y, fuel, r2)
    ensures r1 == r2
  {
    var t1 :| ThreeOptTrail(dist, m, y, fuel, r1, t1);
    var t2 :| ThreeOptTrail(dist, m, y, fuel, r2, t2);
    TrailSettles(dist, m, y, fuel, r1, t1);
    TrailSettles(dist, m, y, fuel, r2, t2);
    if |t1| < fuel + 1 {
      ThreeOpt.ChainMaximal(m, |y| - 1, t1, t2);
    }
    if |t2| < fuel + 1 {
      ThreeOpt.ChainMaximal(m, |y| - 1, t2, t1);
    }
    ThreeOpt.ChainDetermined(m, |y| - 1, t1, t2);
    TrailFixesRound(dist, m, y, fuel, r1, r2, t1);
  }

  /** Along one chain, the last sweep decides between a candidate and an
      exception, and the chain's length decides whether the fuel ran out. */
  lemma {:induction false} TrailFixesRound(dist: Dist, m: seq<seq<real>>, y: seq<int>, fuel: nat,
                                           r1: Round, r2: Round, t: seq<seq<int>>)
    requires ThreeOptTrail(dist, m, y, fuel, r1, t) && ThreeOptTrail(dist, m, y, fuel, r2, t)
    ensures r1 == r2
  {
    var n, last := |y| - 1, t[|t| - 1];
    if r1.Next? || r2.Next? {
      forall s | ThreeOpt.SweepSpec(m, last, n, s)
        ensures s == ThreeOpt.NoMove
      {
        ThreeOpt.SweepDetermined(m, last, n, s, ThreeOpt.NoMove);
      }
    }
  }

  /** A 3-opt round either spends all its fuel or ends at a tour whose sweep
      takes no case. */
  lemma {:induction false} TrailSettles(dist: Dist, m: seq<seq<real>>, y: seq<int>, fuel: nat,
                                        r: Round, t: seq<seq<int>>)
    requires ThreeOptTrail(dist, m, y, fuel, r, t)
    ensures |t| == fuel + 1 || ThreeOpt.Settled(m, |y| - 1, t[|t| - 1])
  {
    var n, last := |y| - 1, t[|t| - 1];
    if r.Next? {
      assert ThreeOpt.SweepSpec(m, last, n, ThreeOpt.NoMove);
    } else if r.Raise? {
      var i, j, k :| ThreeOpt.SweepSpec(m, last, n, ThreeOpt.OutOfRange(i, j, k));
      assert ThreeOpt.SweepSpec(m, last, n, ThreeOpt.OutOfRange(i, j, k));
    }
  }

  /** One round: swap positions u and v of x, then run the local search. */
  method Perturb(dist: Dist, m: seq<seq<real>>, n: int, useThreeOpt: bool, x0: seq<int>, x: seq<int>, fx: real,
                 u: int, v: int, fuel: nat) returns (r: Round)
    requires n >= 3 && m == DistMatrix(dist, n) && Incumbent(dist, n, useThreeOpt, x0, x, fx)
    requires 1 <= u <= n - 1 && 1 <= v <= n - 1
    ensures r.Next? ==> Candidate(dist, n, useThreeOpt, r.xn, r.fn)
    ensures !useThreeOpt ==> r.Next?
    ensures r.Next? ==> |r.xn| <= |x| && (fuel <= 1 || |x| < 7 ==> |r.xn| == |x|)
    ensures r.Raise? ==> |x| < n || (useThreeOpt && fuel >= 2 && |x| >= 7)
    ensures RoundOf(dist, m, useThreeOpt, x, u, v, fuel, r)
  {
    if u >= |x| || v >= |x| {
      return Raise;
    }
    if useThreeOpt {
      r := PerturbThree(dist, m, n, x, u, v, fuel);
    } else {
      r := PerturbTwo(dist, m, n, x, u, v);
    }
  }

  /** A round with 2-opt: the swapped tour is a tour, and so is its 2-opt result. */
  method PerturbTwo(dist: Dist, m: seq<seq<real>>, n: int, x: seq<int>, u: int, v: int) returns (r: Round)
    requires n >= 3 && m == DistMatrix(dist, n) && IsTour(x, n)
    requires 1 <= u <= n - 1 && 1 <= v <= n - 1
    ensures r.Next? && Candidate(dist, n, false, r.xn, r.fn)
    ensures TwoOptRound(dist, m, Swap(x, u, v), r)
  {
    var xn := Swap(x, u, v);
    SwapKeepsTour(x, n, u, v);
    MatrixFitsTour(dist, n, xn);
    var t, len := TwoOpt.TwoOpt(dist, m, xn);
    TwoOptCandidate(dist, n, xn, t, len);
    return Next(t, len);
  }

  /** A rearrangement of a tour with the same ends, its length measured, is a
      candidate of the 2-opt variant. */
  lemma {:induction false} TwoOptCandidate(dist: Dist, n: int, xn: seq<int>, t: seq<int>, len: real)
    requires IsTour(xn, n) && len == PathLength(dist, t)
    requires |t| == |xn| && multiset(t) == multiset(xn)
    requires t[0] == xn[0] && t[|t| - 1] == xn[|xn| - 1]
    ensures Candidate(dist, n, false, t, len)
  {
    TourRearranged(xn, t, n);
    TourLabels(t, n);
  }

  /** A round with 3-opt, which may raise or run out of fuel. */
  method PerturbThree(dist: Dist, m: seq<seq<real>>, n: int, x: seq<int>, u: int, v: int, fuel: nat)
    returns (r: Round)
    requires n >= 3 && m == DistMatrix(dist, n)
    requires |x| >= 1 && x[0] == 1 && forall k :: 0 <= k < |x| ==> 1 <= x[k] <= n
    requires 1 <= u < |x| && 1 <= v < |x|
    ensures r.Next? ==> Candidate(dist, n, true, r.xn, r.fn)
    ensures r.Next? ==> |r.xn| <= |x| && (fuel <= 1 || |x| < 7 ==> |r.xn| == |x|)
    ensures r.Raise? ==> fuel >= 2 && |x| >= 7
    ensures ThreeOptRound(dist, m, Swap(x, u, v), fuel, r)
  {
    var xn := Swap(x, u, v);
    SwapLabels(x, n, u, v);
    var o, trail := ThreeOpt.ThreeOpt(dist, m, xn, fuel);
    match o {
      case IndexError(_) =>
        r := Raise;
      case OutOfFuel(_, _) =>
        r := Exhausted;
      case Stopped(t, len) =>
        KeepsLabels(m, xn, t, n);
        r := Next(t, len);
    }
    assert ThreeOptTrail(dist, m, xn, fuel, r, trail);
  }

  /** Swapping two entries keeps the labels and the first entry. */
  lemma {:induction false} SwapLabels(x: seq<int>, n: int, u: int, v: int)
    requires |x| >= 1 && x[0] == 1 && forall k :: 0 <= k < |x| ==> 1 <= x[k] <= n
    requires 1 <= u < |x| && 1 <= v < |x|
    ensures Swap(x, u, v)[0] == 1
    ensures forall k :: 0 <= k < |x| ==> 1 <= Swap(x, u, v)[k] <= n
  {
  }

  /** What 3-opt keeps of its input carries over to the labels of its result. */
  lemma {:induction false} KeepsLabels(m: seq<seq<real>>, xn: seq<int>, t: seq<int>, n: int)
    requires |m| == n && |xn| >= 1 && xn[0] == 1 && ThreeOpt.Keeps(m, xn, t)
    ensures |t| >= 1 && t[0] == 1 && forall k :: 0 <= k < |t| ==> 1 <= t[k] <= n
  {
  }

  /** No entry is longer than the one before it. */
  ghost predicate NonIncreasing(s: seq<real>) {
    forall k :: 1 <= k < |s| ==> s[k] <= s[k - 1]
  }

  /** fx at the start (f0) and after each of the first `it` rounds. */
  ghost predicate Recorded(lengths: seq<real>, it: int, f0: real, fx: real) {
    it >= 0 && |lengths| == it + 1 && lengths[0] == f0 && lengths[it] == fx && NonIncreasing(lengths)
  }

  lemma {:induction false} NonIncreasingSnoc(s: seq<real>, x: real)
    requires NonIncreasing(s) && s != [] && x <= s[|s| - 1]
    ensures NonIncreasing(s + [x])
  {
    forall k | 1 <= k < |s| + 1
      ensures (s + [x])[k] <= (s + [x])[k - 1]
    {
      assert (s + [x])[k - 1] == s[k - 1];
    }
  }

  /** A round raises only under 3-opt, on at least six cities, with fuel for
      two sweeps. */
  lemma {:induction false} RaiseNeedsThreeOpt(dist: Dist, n: int, useThreeOpt: bool, fuel: nat, x0: seq<int>,
                                              x: seq<int>, fx: real)
    requires Incumbent(dist, n, useThreeOpt, x0, x, fx) && Sized(n, fuel, x)
    requires |x| < n || (useThreeOpt && fuel >= 2 && |x| >= 7)
    ensures useThreeOpt && n >= 6 && fuel >= 2
  {
  }

  /** The completed rounds of a run: from the incumbent (x, fx), each round
      is a candidate its draws allow, and the incumbent becomes the candidate
      exactly when it is strictly shorter; (y, fy) is the incumbent after the
      last of them. */
  ghost predicate Leads(dist: Dist, m: seq<seq<real>>, useThreeOpt: bool, fuel: nat, x: seq<int>, fx: real,
                        swaps: seq<(int, int)>, rounds: seq<Round>, y: seq<int>, fy: real)
    decreases |rounds|
  {
    |swaps| == |rounds| &&
    if rounds == [] then y == x && fy == fx
    else
      && RoundOf(dist, m, useThreeOpt, x, swaps[0].0, swaps[0].1, fuel, rounds[0])
      && rounds[0].Next?
      && if rounds[0].fn < fx
         then Leads(dist, m, useThreeOpt, fuel, rounds[0].xn, rounds[0].fn, swaps[1..], rounds[1..], y, fy)
         else Leads(dist, m, useThreeOpt, fuel, x, fx, swaps[1..], rounds[1..], y, fy)
  }

  /** A further completed round extends a run by the `if fn < fx` update. */
  lemma {:induction false} LeadsSnoc(dist: Dist, m: seq<seq<real>>, useThreeOpt: bool, fuel: nat, x: seq<int>,
                                     fx: real, swaps: seq<(int, int)>, rounds: seq<Round>, y: seq<int>, fy: real,
                                     s: (int, int), r: Round)
    requires Leads(dist, m, useThreeOpt, fuel, x, fx, swaps, rounds, y, fy)
    requires RoundOf(dist, m, useThreeOpt, y, s.0, s.1, fuel, r) && r.Next?
    ensures Leads(dist, m, useThreeOpt, fuel, x, fx, swaps + [s], rounds + [r],
                  if r.fn < fy then r.xn else y, if r.fn < fy then r.fn else fy)
    decreases |rounds|
  {
    if rounds == [] {
      assert swaps + [s] == [s] && rounds + [r] == [r];
      assert Leads(dist, m, useThreeOpt, fuel, if r.fn < fx then r.xn else x, if r.fn < fx then r.fn else fx,
                   [], [], if r.fn < fy then r.xn else y, if r.fn < fy then r.fn else fy);
    } else {
      var x', fx' := if rounds[0].fn < fx then rounds[0].xn else x, if rounds[0].fn < fx then rounds[0].fn else fx;
      LeadsSnoc(dist, m, useThreeOpt, fuel, x', fx', swaps[1..], rounds[1..], y, fy, s, r);
      TailSnoc(swaps, s);
      TailSnoc(rounds, r);
    }
  }

  lemma {:induction false} TailSnoc<T>(a: seq<T>, e: T)
    requires a != []
    ensures (a + [e])[1..] == a[1..] + [e]
  {
  }

  lemma {:induction false} TakeSnoc<T>(a: seq<T>, i: nat)
    requires i < |a|
    ensures a[..i] + [a[i]] == a[..i + 1]
  {
  }

  /** Under 3-opt a run is fixed by its draws: equally many completed rounds
      from the same incumbent are the same rounds and end at the same
      incumbent. */
  lemma {:induction false} LeadsDetermined(dist: Dist, m: seq<seq<real>>, fuel: nat, x: seq<int>, fx: real,
                                           swaps: seq<(int, int)>, rounds1: seq<Round>, y1: seq<int>, fy1: real,
                                           rounds2: seq<Round>, y2: seq<int>, fy2: real)
    requires Leads(dist, m, true, fuel, x, fx, swaps, rounds1, y1, fy1)
    requires Leads(dist, m, true, fuel, x, fx, swaps, rounds2, y2, fy2)
    ensures rounds1 == rounds2 && y1 == y2 && fy1 == fy2
    decreases |rounds1|
  {
    if rounds1 != [] {
      var u, v := swaps[0].0, swaps[0].1;
      if 0 <= u < |x| && 0 <= v < |x| {
        ThreeOptRoundDetermined(dist, m, Swap(x, u, v), fuel, rounds1[0], rounds2[0]);
      }
      var x', fx' := if rounds1[0].fn < fx then rounds1[0].xn else x, if rounds1[0].fn < fx then rounds1[0].fn else fx;
      LeadsDetermined(dist, m, fuel, x', fx', swaps[1..], rounds1[1..], y1, fy1, rounds2[1..], y2, fy2);
      assert rounds1 == [rounds1[0]] + rounds1[1..] && rounds2 == [rounds2[0]] + rounds2[1..];
    }
  }

  /** `if fn < fx: x, fx = xn, fn`, with fx recorded after the round. */
  method Keep(dist: Dist, n: int, useThreeOpt: bool, fuel: nat, x0: seq<int>, x: seq<int>, fx: real,
              lengths: seq<real>, it: nat, xn: seq<int>, fn: real)
    returns (x': seq<int>, fx': real, lengths': seq<real>)
    requires Incumbent(dist, n, useThreeOpt, x0, x, fx) && Sized(n, fuel, x)
    requires Candidate(dist, n, useThreeOpt, xn, fn)
    requires |xn| <= |x| && (fuel <= 1 || |x| < 7 ==> |xn| == |x|)
    requires Recorded(lengths, it, PathLength(dist, x0), fx)
    ensures Incumbent(dist, n, useThreeOpt, x0, x', fx') && Sized(n, fuel, x')
    ensures fx' == if fn < fx then fn else fx
    ensures x' == if fn < fx then xn else x
    ensures lengths' == lengths + [fx'] && Recorded(lengths', it + 1, PathLength(dist, x0), fx')
  {
    x', fx' := x, fx;
    if fn < fx {
      Accept(dist, n, useThreeOpt, x0, x, fx, xn, fn);
      x', fx' := xn, fn;
    }
    NonIncreasingSnoc(lengths, fx');
    lengths' := lengths + [fx'];
  }

  /** The state of fuzzopt's loop after `it` completed rounds. */
  ghost predicate RunInv(dist: Dist, n: int, useThreeOpt: bool, fuel: nat, x0: seq<int>, swaps: seq<(int, int)>,
                         it: nat, rounds: seq<Round>, lengths: seq<real>, x: seq<int>, fx: real)
  {
    && it <= |swaps| && |rounds| == it
    && Incumbent(dist, n, useThreeOpt, x0, x, fx) && Sized(n, fuel, x)
    && Recorded(lengths, it, PathLength(dist, x0), fx)
    && Leads(dist, DistMatrix(dist, n), useThreeOpt, fuel, x0, PathLength(dist, x0), swaps[..it], rounds, x, fx)
  }

  /** The run stops at the round after `rounds`: from the incumbent the
      completed rounds lead to, that round's draws end in `last`. */
  ghost predicate Stalled(dist: Dist, m: seq<seq<real>>, useThreeOpt: bool, fuel: nat, x0: seq<int>,
                          swaps: seq<(int, int)>, rounds: seq<Round>, last: Round)
  {
    && |rounds| < |swaps|
    && exists y, fy :: Leads(dist, m, useThreeOpt, fuel, x0, PathLength(dist, x0), swaps[..|rounds|], rounds, y, fy)
                    && RoundOf(dist, m, useThreeOpt, y, swaps[|rounds|].0, swaps[|rounds|].1, fuel, last)
  }

  lemma {:induction false} Stall(dist: Dist, n: int, useThreeOpt: bool, fuel: nat, x0: seq<int>,
                                 swaps: seq<(int, int)>, it: nat, rounds: seq<Round>, lengths: seq<real>,
                                 x: seq<int>, fx: real, last: Round)
    requires it < |swaps| && RunInv(dist, n, useThreeOpt, fuel, x0, swaps, it, rounds, lengths, x, fx)
    requires RoundOf(dist, DistMatrix(dist, n), useThreeOpt, x, swaps[it].0, swaps[it].1, fuel, last)
    ensures Stalled(dist, DistMatrix(dist, n), useThreeOpt, fuel, x0, swaps, rounds, last)
  {
  }

  /** A completed round: record it and apply `if fn < fx`. */
  method Advance(dist: Dist, n: int, useThreeOpt: bool, fuel: nat, x0: seq<int>, swaps: seq<(int, int)>,
                 it: nat, rounds: seq<Round>, lengths: seq<real>, x: seq<int>, fx: real, step: Round)
    returns (rounds': seq<Round>, lengths': seq<real>, x': seq<int>, fx': real)
    requires it < |swaps| && RunInv(dist, n, useThreeOpt, fuel, x0, swaps, it, rounds, lengths, x, fx)
    requires RoundOf(dist, DistMatrix(dist, n), useThreeOpt, x, swaps[it].0, swaps[it].1, fuel, step)
    requires step.Next? && Candidate(dist, n, useThreeOpt, step.xn, step.fn)
    requires |step.xn| <= |x| && (fuel <= 1 || |x| < 7 ==> |step.xn| == |x|)
    ensures RunInv(dist, n, useThreeOpt, fuel, x0, swaps, it + 1, rounds', lengths', x', fx')
    ensures rounds' == rounds + [step] && lengths' == lengths + [fx']
    ensures x' == (if step.fn < fx then step.xn else x) && fx' == (if step.fn < fx then step.fn else fx)
  {
    var m := DistMatrix(dist, n);
    LeadsSnoc(dist, m, useThreeOpt, fuel, x0, PathLength(dist, x0), swaps[..it], rounds, x, fx, swaps[it], step);
    TakeSnoc(swaps, it);
    x', fx', lengths' := Keep(dist, n, useThreeOpt, fuel, x0, x, fx, lengths, it, step.xn, step.fn);
    rounds' := rounds + [step];
  }

  /** fuzzopt's loop over the rounds from the closed tour x0; (x, fx) is the
      incumbent when the loop ends or a round stops it. */
  method Run(dist: Dist, n: int, useThreeOpt: bool, fuel: nat, x0: seq<int>, swaps: seq<(int, int)>)
    returns (r: Outcome, lengths: seq<real>, rounds: seq<Round>, x: seq<int>, fx: real)
    requires n >= 3 && IsTour(x0, n) && x0[0] == 1 && SwapsFit(swaps, n)
    requires forall k :: 0 <= k < |x0| ==> 1 <= x0[k] <= n
    ensures RunInv(dist, n, useThreeOpt, fuel, x0, swaps, |rounds|, rounds, lengths, x, fx)
    ensures r.Finished? ==> |rounds| == |swaps| && r == Finished(fx, x)
    ensures !useThreeOpt ==> r.Finished?
    ensures r.Raised? ==> useThreeOpt && n >= 6 && fuel >= 2
    ensures r.Raised? ==> Stalled(dist, DistMatrix(dist, n), useThreeOpt, fuel, x0, swaps, rounds, Raise)
    ensures r.OutOfFuel? ==> Stalled(dist, DistMatrix(dist, n), useThreeOpt, fuel, x0, swaps, rounds, Exhausted)
  {
    var m := DistMatrix(dist, n);
    x := x0;
    fx := PathLengthLoop(dist, x);
    var it := 0;
    lengths, rounds := [fx], [];
    while it < |swaps|
      invariant RunInv(dist, n, useThreeOpt, fuel, x0, swaps, it, rounds, lengths, x, fx)
    {
      var step := Perturb(dist, m, n, useThreeOpt, x0, x, fx, swaps[it].0, swaps[it].1, fuel);
      if step.Raise? {
        RaiseNeedsThreeOpt(dist, n, useThreeOpt, fuel, x0, x, fx);
        Stall(dist, n, useThreeOpt, fuel, x0, swaps, it, rounds, lengths, x, fx, step);
        r := Raised;
        return;
      } else if step.Exhausted? {
        Stall(dist, n, useThreeOpt, fuel, x0, swaps, it, rounds, lengths, x, fx, step);
        r := OutOfFuel;
        return;
      }
      rounds, lengths, x, fx := Advance(dist, n, useThreeOpt, fuel, x0, swaps, it, rounds, lengths, x, fx, step);
      it := it + 1;
    }
    r := Finished(fx, x);
  }

  /** fuzzopt with its random draws given: perm orders the cities 2..n and
      swaps holds the (u, v) of every round. Each 3-opt call may run at most
      `fuel` sweeps. Besides the result, `lengths` records fx at the start
      and after every round that completes. */
  method FuzzOpt(dist: Dist, n: int, maxIterations: Option<int>, useThreeOpt: bool,
                 perm: seq<int>, swaps: seq<(int, int)>, fuel: nat)
    returns (r: Outcome, lengths: seq<real>, rounds: seq<Round>)
    requires n >= 3
    requires multiset(perm) == multiset(Interior(n))
    requires |swaps| == Rounds(n, maxIterations) && SwapsFit(swaps, n)
    ensures !useThreeOpt ==> r.Finished? && IsTour(r.x, n)
    ensures r.Finished? ==> r.fx == PathLength(dist, r.x)
    ensures r.Finished? ==> r.fx <= PathLength(dist, [1] + perm + [1])
    ensures r.Finished? ==> |r.x| >= 1 && r.x[0] == 1 && forall k :: 0 <= k < |r.x| ==> 1 <= r.x[k] <= n
    ensures r.Raised? ==> useThreeOpt && n >= 6 && fuel >= 2
    ensures |lengths| >= 1 && lengths[0] == PathLength(dist, [1] + perm + [1])
    ensures NonIncreasing(lengths)
    ensures r.Finished? ==> |lengths| == Rounds(n, maxIterations) + 1 && r.fx == lengths[|lengths| - 1]
    ensures !r.Finished? ==> |lengths| <= Rounds(n, maxIterations)
    ensures |lengths| == |rounds| + 1
    ensures r.Finished? ==> Leads(dist, DistMatrix(dist, n), useThreeOpt, fuel, [1] + perm + [1],
                                  PathLength(dist, [1] + perm + [1]), swaps, rounds, r.x, r.fx)
    ensures r.Raised? ==> Stalled(dist, DistMatrix(dist, n), useThreeOpt, fuel, [1] + perm + [1], swaps, rounds, Raise)
    ensures r.OutOfFuel? ==> Stalled(dist, DistMatrix(dist, n), useThreeOpt, fuel, [1] + perm + [1], swaps, rounds, Exhausted)
  {
    var x0 := [1] + perm + [1];
    ClosedTourOfOrdering(perm, n);
    TourLabels(x0, n);
    var x, fx;
    r, lengths, rounds, x, fx := Run(dist, n, useThreeOpt, fuel, x0, swaps);
    if r.Finished? {
      assert swaps[..|swaps|] == swaps;
    }
  }
}
