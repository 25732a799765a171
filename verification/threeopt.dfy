/** three_opt: the segment surgery of its four cases, written with the slice
    expressions exactly as they stand, and the restart loop driven by a fuel
    bound. */
module ThreeOpt {
  import opened Tours

  /** s[start:stop:-1] for start inside s and stop >= 0, as in every use here:
      s[start], s[start-1], ..., s[stop+1]; empty when start <= stop. */
  function DownSlice(s: seq<int>, start: int, stop: int): (r: seq<int>)
    requires 0 <= stop && start < |s|
    ensures |r| == if start <= stop then 0 else start - stop
    ensures forall x :: 0 <= x < |r| ==> r[x] == s[start - x]
    decreases start - stop
  {
    if start <= stop then []
    else [s[start]] + DownSlice(s, start - 1, stop)
  }

  /** A negative-step slice that runs backwards over s[lo..hi] is that segment
      reversed. */
  lemma {:induction false} DownSliceReverse(s: seq<int>, lo: int, hi: int)
    requires 1 <= lo <= hi <= |s|
    ensures DownSlice(s, hi - 1, lo - 1) == Reverse(s[lo..hi])
  {
    var d := DownSlice(s, hi - 1, lo - 1);
    var r := Reverse(s[lo..hi]);
    forall x | 0 <= x < |d|
      ensures d[x] == r[x]
    {
      assert r[x] == s[lo..hi][hi - lo - 1 - x];
    }
  }

  /** The loop bounds with the n fixed at entry: i in range(1, n-4),
      j in range(i+2, n-2), k in range(j+2, n). */
  predicate Triple(n: int, i: int, j: int, k: int) {
    1 <= i < n - 4 && i + 2 <= j < n - 2 && j + 2 <= k < n
  }

  /** Indices where tour[i-1], ..., tour[k] can all be read. */
  predicate Readable(t: seq<int>, i: int, j: int, k: int) {
    1 <= i && i + 2 <= j && j + 2 <= k < |t|
  }

  /** s[hi:lo:-1] is s[lo+1..hi] reversed. */
  lemma {:induction false} DownSliceInclusive(s: seq<int>, lo: int, hi: int)
    requires 0 <= lo <= hi < |s|
    ensures DownSlice(s, hi, lo) == Reverse(s[lo + 1..hi + 1])
  {
    var d := DownSlice(s, hi, lo);
    var r := Reverse(s[lo + 1..hi + 1]);
    forall x | 0 <= x < |d|
      ensures d[x] == r[x]
    {
      assert r[x] == s[lo + 1..hi + 1][hi - lo - 1 - x];
    }
  }

  /** The new tour of each case, with its slices as written. */
  function Move3(t: seq<int>, i: int, j: int, k: int, c: int): (r: seq<int>)
    requires Readable(t, i, j, k) && 1 <= c <= 4
  {
    if c == 1 then t[..i] + DownSlice(t, j - 1, k - 1) + t[i..j] + t[k..]
    else if c == 2 then t[..i] + t[j..k] + t[i..j] + t[k..]
    else if c == 3 then t[..i] + DownSlice(t, j - 1, i - 1) + DownSlice(t, k - 1, j - 1) + t[k..]
    else t[..i] + DownSlice(t, k - 1, j - 1) + DownSlice(t, j, i) + t[k..]
  }

  /** Every case keeps tour[:i] in front and tour[k:] at the back. */
  lemma {:induction false} Move3Keeps(t: seq<int>, i: int, j: int, k: int, c: int)
    requires Readable(t, i, j, k) && 1 <= c <= 4
    ensures |Move3(t, i, j, k, c)| >= i + |t| - k
    ensures Move3(t, i, j, k, c)[..i] == t[..i]
    ensures Move3(t, i, j, k, c)[|Move3(t, i, j, k, c)| - (|t| - k)..] == t[k..]
  {
    var r := Move3(t, i, j, k, c);
    var mid := r[i..|r| - (|t| - k)];
    assert r == t[..i] + mid + t[k..];
  }

  /** Only case 1 changes the length of the tour: it drops k - j entries. */
  lemma {:induction false} Move3Length(t: seq<int>, i: int, j: int, k: int, c: int)
    requires Readable(t, i, j, k) && 1 <= c <= 4
    ensures |Move3(t, i, j, k, c)| == if c == 1 then |t| - (k - j) else |t|
  {
  }

  /** Case 1: tour[j-1:k-1:-1] runs the wrong way and is empty, so the move
      drops positions j..k-1. */
  lemma {:induction false} Case1Drops(t: seq<int>, i: int, j: int, k: int)
    requires Readable(t, i, j, k)
    ensures Move3(t, i, j, k, 1) == t[..j] + t[k..]
    ensures |Move3(t, i, j, k, 1)| == |t| - (k - j)
  {
    assert t[..j] == t[..i] + t[i..j];
  }

  /** Case 2 swaps the segments tour[i:j] and tour[j:k]: a permutation. */
  lemma {:induction false} Case2Perm(t: seq<int>, i: int, j: int, k: int)
    requires Readable(t, i, j, k)
    ensures |Move3(t, i, j, k, 2)| == |t|
    ensures multiset(Move3(t, i, j, k, 2)) == multiset(t)
  {
    assert t == t[..i] + t[i..j] + t[j..k] + t[k..];
  }

  /** Case 3 reverses tour[i:j] and tour[j:k] in place: a permutation. */
  lemma {:induction false} Case3Perm(t: seq<int>, i: int, j: int, k: int)
    requires Readable(t, i, j, k)
    ensures Move3(t, i, j, k, 3) == t[..i] + Reverse(t[i..j]) + Reverse(t[j..k]) + t[k..]
    ensures |Move3(t, i, j, k, 3)| == |t|
    ensures multiset(Move3(t, i, j, k, 3)) == multiset(t)
  {
    DownSliceReverse(t, i, j);
    DownSliceReverse(t, j, k);
    Case3Count(t, i, j, k);
  }

  lemma {:induction false} Case3Count(t: seq<int>, i: int, j: int, k: int)
    requires Readable(t, i, j, k)
    ensures multiset(t[..i] + Reverse(t[i..j]) + Reverse(t[j..k]) + t[k..]) == multiset(t)
  {
    var A, B, C, D := t[..i], t[i..j], t[j..k], t[k..];
    assert t == A + B + C + D;
    assert multiset(A + Reverse(B) + Reverse(C) + D) == multiset(A) + multiset(B) + multiset(C) + multiset(D);
  }

  /** Case 4: tour[j:i:-1] is tour[i+1..j] reversed, so tour[j] appears twice
      and tour[i] is lost. */
  lemma {:induction false} Case4Dup(t: seq<int>, i: int, j: int, k: int)
    requires Readable(t, i, j, k)
    ensures Move3(t, i, j, k, 4) == t[..i] + Reverse(t[j..k]) + Reverse(t[i + 1..j + 1]) + t[k..]
    ensures |Move3(t, i, j, k, 4)| == |t|
    ensures multiset(Move3(t, i, j, k, 4)) + multiset{t[i]} == multiset(t) + multiset{t[j]}
  {
    var x := DownSlice(t, k - 1, j - 1);
    var y := DownSlice(t, j, i);
    assert Move3(t, i, j, k, 4) == t[..i] + x + y + t[k..];
    assert x == Reverse(t[j..k]) by {
      DownSliceReverse(t, j, k);
    }
    DownSliceInclusive(t, i, j);
    Case4Count(t, i, j, k);
  }

  lemma {:induction false} Case4Count(t: seq<int>, i: int, j: int, k: int)
    requires Readable(t, i, j, k)
    ensures multiset(t[..i] + Reverse(t[j..k]) + Reverse(t[i + 1..j + 1]) + t[k..]) + multiset{t[i]}
         == multiset(t) + multiset{t[j]}
  {
    var A, B, C, D := t[..i], t[i + 1..j], t[j..k], t[k..];
    assert t == A + [t[i]] + B + C + D;
    assert t[i + 1..j + 1] == B + [t[j]];
    assert t[j..k] == [t[j]] + t[j + 1..k];
    var r := A + Reverse(C) + Reverse(B + [t[j]]) + D;
    assert multiset(r) == multiset(A) + multiset(C) + multiset(B) + multiset{t[j]} + multiset(D);
    assert multiset(t) == multiset(A) + multiset{t[i]} + multiset(B) + multiset(C) + multiset(D);
  }

  /** The matrix estimates of algorithms.py:230-265: the first case whose
      new_dist beats orig_dist, or 0 when none does. */
  function FirstCase(m: seq<seq<real>>, t: seq<int>, i: int, j: int, k: int): (c: int)
    requires LabelsFit(m, t) && Readable(t, i, j, k)
    ensures 0 <= c <= 4
  {
    var a, b := t[i - 1], t[i];
    var c', d := t[j - 1], t[j];
    var e, f := t[k - 1], t[k];
    var orig := Lookup(m, a, b) + Lookup(m, c', d) + Lookup(m, e, f);
    if Lookup(m, a, d) + Lookup(m, e, b) + Lookup(m, c', f) < orig then 1
    else if Lookup(m, a, b) + Lookup(m, e, d) + Lookup(m, c', f) < orig then 2
    else if Lookup(m, a, d) + Lookup(m, c', b) + Lookup(m, e, f) < orig then 3
    else if Lookup(m, a, f) + Lookup(m, c', d) + Lookup(m, e, b) < orig then 4
    else 0
  }

  /** The triple can be read and no case is taken there. */
  ghost predicate Calm(m: seq<seq<real>>, t: seq<int>, i: int, j: int, k: int)
    requires LabelsFit(m, t)
  {
    Readable(t, i, j, k) && FirstCase(m, t, i, j, k) == 0
  }

  /** Every triple of the rows below i is calm. */
  ghost predicate CalmRows(m: seq<seq<real>>, t: seq<int>, n: int, i: int)
    requires LabelsFit(m, t)
  {
    forall i', j', k' :: Triple(n, i', j', k') && i' < i ==> Calm(m, t, i', j', k')
  }

  /** Every triple of row i with j' < j is calm. */
  ghost predicate CalmCols(m: seq<seq<real>>, t: seq<int>, n: int, i: int, j: int)
    requires LabelsFit(m, t)
  {
    forall j', k' :: Triple(n, i, j', k') && j' < j ==> Calm(m, t, i, j', k')
  }

  /** Every triple (i, j, k') with k' < k is calm. */
  ghost predicate CalmDepth(m: seq<seq<real>>, t: seq<int>, n: int, i: int, j: int, k: int)
    requires LabelsFit(m, t)
  {
    forall k' :: Triple(n, i, j, k') && k' < k ==> Calm(m, t, i, j, k')
  }

  /** Everything before (i, j, k) in loop order is calm. */
  ghost predicate CalmBefore(m: seq<seq<real>>, t: seq<int>, n: int, i: int, j: int, k: int)
    requires LabelsFit(m, t)
  {
    CalmRows(m, t, n, i) && CalmCols(m, t, n, i, j) && CalmDepth(m, t, n, i, j, k)
  }

  /** (i', j', k') comes before (i, j, k) in the order the three loops run. */
  predicate Before(i': int, j': int, k': int, i: int, j: int, k: int) {
    i' < i || (i' == i && (j' < j || (j' == j && k' < k)))
  }

  /** How one sweep of the three for loops ends: the first case taken and
      where, an IndexError from reading tour[k] past the end, or no case. */
  datatype Sweep = Found(i: int, j: int, k: int, c: int) | OutOfRange(i: int, j: int, k: int) | NoMove

  /** The sweep's result is exactly the first event in loop order. */
  ghost predicate SweepSpec(m: seq<seq<real>>, t: seq<int>, n: int, s: Sweep)
    requires LabelsFit(m, t)
  {
    match s
    case Found(i, j, k, c) =>
      Triple(n, i, j, k) && Readable(t, i, j, k) && c == FirstCase(m, t, i, j, k) && c != 0
      && CalmBefore(m, t, n, i, j, k)
    case OutOfRange(i, j, k) =>
      Triple(n, i, j, k) && k >= |t| && CalmBefore(m, t, n, i, j, k)
    case NoMove => CalmRows(m, t, n, n)
  }

  /** A sweep that ends early ends at a triple of the loops that is not calm. */
  lemma {:induction false} SweepStops(m: seq<seq<real>>, t: seq<int>, n: int, s: Sweep)
    requires LabelsFit(m, t) && SweepSpec(m, t, n, s) && !s.NoMove?
    ensures Triple(n, s.i, s.j, s.k) && !Calm(m, t, s.i, s.j, s.k)
    ensures CalmBefore(m, t, n, s.i, s.j, s.k)
  {
  }

  /** Everything the loops visit before a triple is calm when CalmBefore holds there. */
  lemma {:induction false} EarlierCalm(m: seq<seq<real>>, t: seq<int>, n: int, i: int, j: int, k: int,
                                       i': int, j': int, k': int)
    requires LabelsFit(m, t) && CalmBefore(m, t, n, i, j, k)
    requires Triple(n, i', j', k') && Before(i', j', k', i, j, k)
    ensures Calm(m, t, i', j', k')
  {
    if i' < i {
    } else if j' < j {
    } else {
    }
  }

  /** SweepSpec pins the sweep down: two sweeps that both meet it agree. */
  lemma {:induction false} SweepDetermined(m: seq<seq<real>>, t: seq<int>, n: int, s1: Sweep, s2: Sweep)
    requires LabelsFit(m, t) && SweepSpec(m, t, n, s1) && SweepSpec(m, t, n, s2)
    ensures s1 == s2
  {
    if s1.NoMove? && s2.NoMove? {
    } else if s1.NoMove? {
      SweepStops(m, t, n, s2);
    } else if s2.NoMove? {
      SweepStops(m, t, n, s1);
    } else {
      SweepStops(m, t, n, s1);
      SweepStops(m, t, n, s2);
      if Before(s1.i, s1.j, s1.k, s2.i, s2.j, s2.k) {
        EarlierCalm(m, t, n, s2.i, s2.j, s2.k, s1.i, s1.j, s1.k);
      } else if Before(s2.i, s2.j, s2.k, s1.i, s1.j, s1.k) {
        EarlierCalm(m, t, n, s1.i, s1.j, s1.k, s2.i, s2.j, s2.k);
      }
    }
  }

  /** One restart: the sweep over a takes its first case, and b is the move it
      makes. */
  ghost predicate Step(m: seq<seq<real>>, n: int, a: seq<int>, b: seq<int>) {
    LabelsFit(m, a)
    && exists i, j, k, c :: SweepSpec(m, a, n, Found(i, j, k, c)) && b == Move3(a, i, j, k, c)
  }

  /** A chain of restarts: every tour after the first is the move the sweep
      over the tour before it found. */
  ghost predicate Chain(m: seq<seq<real>>, n: int, ts: seq<seq<int>>) {
    forall q :: 0 <= q < |ts| - 1 ==> Step(m, n, ts[q], ts[q + 1])
  }

  /** A restart has one outcome: the sweep fixes the move. */
  lemma {:induction false} StepDetermined(m: seq<seq<real>>, n: int, a: seq<int>, b1: seq<int>, b2: seq<int>)
    requires Step(m, n, a, b1) && Step(m, n, a, b2)
    ensures b1 == b2
  {
    var s1 := StepSweep(m, n, a, b1);
    var s2 := StepSweep(m, n, a, b2);
    SweepDetermined(m, a, n, s1, s2);
  }

  /** The sweep behind a restart. */
  lemma {:induction false} StepSweep(m: seq<seq<real>>, n: int, a: seq<int>, b: seq<int>) returns (s: Sweep)
    requires Step(m, n, a, b)
    ensures LabelsFit(m, a) && s.Found? && SweepSpec(m, a, n, s)
    ensures b == Move3(a, s.i, s.j, s.k, s.c)
  {
    var i, j, k, c :| SweepSpec(m, a, n, Found(i, j, k, c)) && b == Move3(a, i, j, k, c);
    s := Found(i, j, k, c);
  }

  /** Two chains from the same tour agree up to the shorter one's end. */
  lemma {:induction false} ChainAgree(m: seq<seq<real>>, n: int, a: seq<seq<int>>, b: seq<seq<int>>, q: nat)
    requires Chain(m, n, a) && Chain(m, n, b) && a != [] && b != [] && a[0] == b[0]
    requires q < |a| && q < |b|
    ensures a[q] == b[q]
    decreases q
  {
    if q > 0 {
      ChainAgree(m, n, a, b, q - 1);
      StepDetermined(m, n, a[q - 1], a[q], b[q]);
    }
  }

  /** So a chain of a given length from a given tour is unique. */
  lemma {:induction false} ChainDetermined(m: seq<seq<real>>, n: int, a: seq<seq<int>>, b: seq<seq<int>>)
    requires Chain(m, n, a) && Chain(m, n, b) && a != [] && |a| == |b| && a[0] == b[0]
    ensures a == b
  {
    forall q | 0 <= q < |a|
      ensures a[q] == b[q]
    {
      ChainAgree(m, n, a, b, q);
    }
  }

  /** The restarts stop at t: its sweep takes no case. */
  ghost predicate Settled(m: seq<seq<real>>, n: int, t: seq<int>) {
    LabelsFit(m, t) && exists s :: SweepSpec(m, t, n, s) && !s.Found?
  }

  /** A chain that ends at a settled tour is the longest chain from its
      first tour: no restart can follow it. */
  lemma {:induction false} ChainMaximal(m: seq<seq<real>>, n: int, a: seq<seq<int>>, b: seq<seq<int>>)
    requires Chain(m, n, a) && Chain(m, n, b) && a != [] && b != [] && a[0] == b[0]
    requires Settled(m, n, a[|a| - 1])
    ensures |b| <= |a|
  {
    if |a| < |b| {
      var last := a[|a| - 1];
      ChainAgree(m, n, a, b, |a| - 1);
      assert Step(m, n, b[|a| - 1], b[|a|]);
      var s := StepSweep(m, n, last, b[|a|]);
      forall s' | SweepSpec(m, last, n, s')
        ensures s' == s
      {
        SweepDetermined(m, last, n, s', s);
      }
    }
  }

  /** Taking the move a sweep found extends the chain by one restart. */
  lemma {:induction false} ChainSnoc(m: seq<seq<real>>, n: int, ts: seq<seq<int>>, i: int, j: int, k: int, c: int)
    requires Chain(m, n, ts) && ts != [] && LabelsFit(m, ts[|ts| - 1])
    requires SweepSpec(m, ts[|ts| - 1], n, Found(i, j, k, c))
    ensures Chain(m, n, ts + [Move3(ts[|ts| - 1], i, j, k, c)])
  {
    var t := ts[|ts| - 1];
    var ts' := ts + [Move3(t, i, j, k, c)];
    assert Step(m, n, t, Move3(t, i, j, k, c));
    forall q | 0 <= q < |ts'| - 1
      ensures Step(m, n, ts'[q], ts'[q + 1])
    {
      if q < |ts| - 1 {
        assert ts'[q] == ts[q] && ts'[q + 1] == ts[q + 1];
      }
    }
  }

  /** The innermost loop, over k for fixed i and j. */
  method SweepK(m: seq<seq<real>>, t: seq<int>, n: int, i: int, j: int) returns (s: Sweep)
    requires LabelsFit(m, t) && 1 <= i < n - 4 && i + 2 <= j < n - 2
    requires CalmRows(m, t, n, i) && CalmCols(m, t, n, i, j)
    ensures s.NoMove? ==> CalmCols(m, t, n, i, j + 1)
    ensures !s.NoMove? ==> SweepSpec(m, t, n, s)
  {
    var k := j + 2;
    while k < n
      invariant j + 2 <= k <= n
      invariant CalmDepth(m, t, n, i, j, k)
    {
      if k >= |t| {
        return OutOfRange(i, j, k);
      }
      var c := FirstCase(m, t, i, j, k);
      if c != 0 {
        return Found(i, j, k, c);
      }
      k := k + 1;
    }
    ColsGrow(m, t, n, i, j);
    s := NoMove;
  }

  lemma {:induction false} ColsGrow(m: seq<seq<real>>, t: seq<int>, n: int, i: int, j: int)
    requires LabelsFit(m, t)
    requires CalmCols(m, t, n, i, j) && CalmDepth(m, t, n, i, j, n)
    ensures CalmCols(m, t, n, i, j + 1)
  {
    forall j', k' | Triple(n, i, j', k') && j' < j + 1
      ensures Calm(m, t, i, j', k')
    {
      if j' == j {
        assert k' < n;
      }
    }
  }

  /** The middle loop, over j for fixed i. */
  method SweepJ(m: seq<seq<real>>, t: seq<int>, n: int, i: int) returns (s: Sweep)
    requires LabelsFit(m, t) && 1 <= i < n - 4
    requires CalmRows(m, t, n, i)
    ensures s.NoMove? ==> CalmRows(m, t, n, i + 1)
    ensures !s.NoMove? ==> SweepSpec(m, t, n, s)
  {
    var j := i + 2;
    while j < n - 2
      invariant i + 2 <= j <= n - 2
      invariant CalmCols(m, t, n, i, j)
    {
      s := SweepK(m, t, n, i, j);
      if !s.NoMove? {
        return;
      }
      j := j + 1;
    }
    RowsGrow3(m, t, n, i, j);
    s := NoMove;
  }

  lemma {:induction false} RowsGrow3(m: seq<seq<real>>, t: seq<int>, n: int, i: int, j: int)
    requires LabelsFit(m, t) && j >= n - 2
    requires CalmRows(m, t, n, i) && CalmCols(m, t, n, i, j)
    ensures CalmRows(m, t, n, i + 1)
  {
    forall i', j', k' | Triple(n, i', j', k') && i' < i + 1
      ensures Calm(m, t, i', j', k')
    {
      if i' == i {
        assert j' < j;
      }
    }
  }

  /** One sweep: the three nested for loops with their breaks. */
  method SweepAll(m: seq<seq<real>>, t: seq<int>, n: int) returns (s: Sweep)
    requires LabelsFit(m, t)
    ensures SweepSpec(m, t, n, s)
    ensures n < 6 ==> s == NoMove
  {
    var i := 1;
    while i < n - 4
      invariant 1 <= i
      invariant CalmRows(m, t, n, i)
    {
      s := SweepJ(m, t, n, i);
      if !s.NoMove? {
        return;
      }
      i := i + 1;
    }
    s := NoMove;
  }

  /** What three_opt ends with: the IndexError of reading past a shortened
      tour (with the tour whose sweep read past its end), the tour and its
      length once a sweep takes no case, or the same pair when the fuel bound
      stops the restarts first. */
  datatype Outcome = IndexError(tour: seq<int>) | Stopped(tour: seq<int>, length: real) | OutOfFuel(tour: seq<int>, length: real)

  /** What the restarts keep: first and last entries, labels the matrix
      covers, and cities only from the input. */
  ghost predicate Keeps(m: seq<seq<real>>, tour: seq<int>, t: seq<int>) {
    && |tour| >= 1 && |t| >= 1
    && t[0] == tour[0] && t[|t| - 1] == tour[|tour| - 1]
    && LabelsFit(m, t)
    && forall x :: 0 <= x < |t| ==> t[x] in tour
  }

  /** A move taken at a readable triple keeps the front, the back and the
      cities. */
  lemma {:induction false} MoveKeeps(m: seq<seq<real>>, tour: seq<int>, t: seq<int>, i: int, j: int, k: int, c: int)
    requires |tour| >= 1 && Keeps(m, tour, t) && Readable(t, i, j, k) && 1 <= c <= 4
    ensures Keeps(m, tour, Move3(t, i, j, k, c))
  {
    var r := Move3(t, i, j, k, c);
    Move3Keeps(t, i, j, k, c);
    assert r[0] == r[..i][0];
    assert r[|r| - 1] == r[|r| - (|t| - k)..][|t| - k - 1];
    forall x | 0 <= x < |r|
      ensures r[x] in t
    {
      MoveEntry(t, i, j, k, c, x);
    }
  }

  /** Every entry of a move is an entry of the tour it came from. */
  lemma {:induction false} MoveEntry(t: seq<int>, i: int, j: int, k: int, c: int, x: int)
    requires Readable(t, i, j, k) && 1 <= c <= 4 && 0 <= x < |Move3(t, i, j, k, c)|
    ensures Move3(t, i, j, k, c)[x] in t
  {
    var r := Move3(t, i, j, k, c);
    var parts: seq<seq<int>>;
    if c == 1 {
      parts := [t[..i], DownSlice(t, j - 1, k - 1), t[i..j], t[k..]];
    } else if c == 2 {
      parts := [t[..i], t[j..k], t[i..j], t[k..]];
    } else if c == 3 {
      parts := [t[..i], DownSlice(t, j - 1, i - 1), DownSlice(t, k - 1, j - 1), t[k..]];
    } else {
      parts := [t[..i], DownSlice(t, k - 1, j - 1), DownSlice(t, j, i), t[k..]];
    }
    assert r == parts[0] + parts[1] + parts[2] + parts[3];
    assert forall p, y :: 0 <= p < 4 && 0 <= y < |parts[p]| ==> parts[p][y] in t;
  }

  /** three_opt with at most `fuel` sweeps. Each sweep runs over the loop
      variable tour with n fixed at entry; a taken case replaces both the
      best tour and the loop variable and restarts, its length measured
      afresh. */
  method ThreeOpt(dist: Dist, m: seq<seq<real>>, tour: seq<int>, fuel: nat) returns (r: Outcome, trail: seq<seq<int>>)
    requires |tour| >= 1 && LabelsFit(m, tour)
    ensures Keeps(m, tour, r.tour) && |r.tour| <= |tour|
    ensures !r.IndexError? ==> r.length == PathLength(dist, r.tour)
    ensures r.Stopped? ==> SweepSpec(m, r.tour, |tour| - 1, NoMove)
    ensures r.IndexError? ==> fuel >= 2 && |tour| >= 7 && |r.tour| < |tour| - 1
    ensures r.Stopped? && fuel <= 1 ==> r.tour == tour
    ensures fuel >= 1 && |tour| < 7 ==> r == Stopped(tour, PathLength(dist, tour))
    ensures fuel >= 1 && SweepSpec(m, tour, |tour| - 1, NoMove) ==> r == Stopped(tour, PathLength(dist, tour))
    ensures trail != [] && trail[0] == tour && trail[|trail| - 1] == r.tour && Chain(m, |tour| - 1, trail)
    ensures |trail| <= fuel + 1 && (r.OutOfFuel? <==> |trail| == fuel + 1)
    ensures r.IndexError? ==> exists i, j, k :: SweepSpec(m, r.tour, |tour| - 1, OutOfRange(i, j, k))
  {
    var n := |tour| - 1;
    var t := tour;
    var bestLength := PathLengthLoop(dist, t);
    var left: nat := fuel;
    trail := [t];
    assert forall x :: 0 <= x < |t| ==> t[x] in tour;
    while true
      invariant Keeps(m, tour, t) && |t| <= |tour| && bestLength == PathLength(dist, t)
      invariant left <= fuel && (left == fuel ==> t == tour)
      invariant |tour| < 7 ==> left == fuel
      invariant left < fuel ==> !SweepSpec(m, tour, n, NoMove)
      invariant trail != [] && trail[0] == tour && trail[|trail| - 1] == t && Chain(m, n, trail)
      invariant |trail| == fuel - left + 1
      decreases left
    {
      if left == 0 {
        r := OutOfFuel(t, bestLength);
        return;
      }
      var s := SweepAll(m, t, n);
      if left == fuel && SweepSpec(m, tour, n, NoMove) {
        SweepDetermined(m, t, n, s, NoMove);
      }
      match s {
        case OutOfRange(_, _, _) =>
          r := IndexError(t);
          return;
        case NoMove =>
          r := Stopped(t, bestLength);
          return;
        case Found(i, j, k, c) =>
          ChainSnoc(m, n, trail, i, j, k, c);
          MoveKeeps(m, tour, t, i, j, k, c);
          Move3Length(t, i, j, k, c);
          t := Move3(t, i, j, k, c);
          trail := trail + [t];
          bestLength := PathLengthLoop(dist, t);
      }
      left := left - 1;
    }
  }
}
