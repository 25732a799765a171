/** The integer encoding of city subsets used by the Held-Karp table: a set of
    cities within 2..n is the sum of 1 << (j - 2) over its members, so city j
    is bit j - 2. */
module Masks {
  import opened Tours

  /** 1 << k */
  function Pow2(k: nat): (r: nat)
    ensures r >= 1
  {
    if k == 0 then 1 else 2 * Pow2(k - 1)
  }

  /** Bit b of x, counted from the least significant bit. */
  predicate Bit(x: nat, b: nat)
    decreases b
  {
    if b == 0 then x % 2 == 1 else Bit(x / 2, b - 1)
  }

  /** Python's `^` on non-negative integers, bit by bit. */
  function Xor(a: nat, b: nat): nat
    decreases a + b
  {
    if a == 0 then b
    else if b == 0 then a
    else 2 * Xor(a / 2, b / 2) + (a % 2 + b % 2) % 2
  }

  /** The members of S within lo..hi, city lo at bit 0. */
  function MaskFrom(S: set<int>, lo: int, hi: int): nat
    decreases hi - lo
  {
    if lo > hi then 0 else (if lo in S then 1 else 0) + 2 * MaskFrom(S, lo + 1, hi)
  }

  /** The key of S in the table: city j at bit j - 2. */
  function Mask(S: set<int>, n: int): nat {
    MaskFrom(S, 2, n)
  }

  /** The mask of a tuple of cities: the sum of bit j - 2 over its entries j. */
  function TupleMask(c: seq<int>): nat
    requires forall x :: x in c ==> x >= 2
  {
    if c == [] then 0
    else
      assert c[0] in c;
      assert forall x :: x in c[1..] ==> x in c;
      Pow2(c[0] - 2) + TupleMask(c[1..])
  }

  function Elems(c: seq<int>): (r: set<int>)
    ensures forall x :: x in r <==> x in c
  {
    set x | x in c
  }

  /** A tuple of distinct cities has as many members as entries. */
  lemma {:induction false} NoDupElemsCard(c: seq<int>)
    requires NoDup(c)
    ensures |Elems(c)| == |c|
  {
    if c != [] {
      NoDupTail(c);
      NoDupElemsCard(c[1..]);
      assert c[0] in c;
      assert forall x :: x in c[1..] ==> x in c;
      assert Elems(c) == {c[0]} + Elems(c[1..]);
    }
  }

  /** Bit j - lo of the mask says whether j is a member. */
  lemma {:induction false} MaskFromBit(S: set<int>, lo: int, hi: int, j: int)
    requires lo <= j
    ensures Bit(MaskFrom(S, lo, hi), j - lo) <==> j in S && j <= hi
    decreases j - lo
  {
    var m := MaskFrom(S, lo, hi);
    if lo <= hi {
      assert m / 2 == MaskFrom(S, lo + 1, hi);
      if j > lo {
        MaskFromBit(S, lo + 1, hi, j);
      }
    } else if j > lo {
      ZeroBit(j - lo);
    }
  }

  lemma {:induction false} ZeroBit(b: nat)
    ensures !Bit(0, b)
  {
    if b > 0 {
      ZeroBit(b - 1);
    }
  }

  /** City j, 2 <= j <= n, is bit j - 2 of the key. */
  lemma {:induction false} MaskBit(S: set<int>, n: int, j: int)
    requires 2 <= j <= n
    ensures Bit(Mask(S, n), j - 2) <==> j in S
  {
    MaskFromBit(S, 2, n, j);
  }

  /** Different subsets of 2..n get different keys. */
  lemma {:induction false} MaskInjective(S: set<int>, T: set<int>, n: int)
    requires S <= Interior(n) && T <= Interior(n)
    requires Mask(S, n) == Mask(T, n)
    ensures S == T
  {
    forall j | j in S
      ensures j in T
    {
      MaskBit(S, n, j);
      MaskBit(T, n, j);
    }
    forall j | j in T
      ensures j in S
    {
      MaskBit(S, n, j);
      MaskBit(T, n, j);
    }
  }

  lemma {:induction false} MaskFromFull(S: set<int>, lo: int, hi: int)
    requires forall j :: lo <= j <= hi ==> j in S
    ensures MaskFrom(S, lo, hi) == Pow2(if hi < lo then 0 else hi - lo + 1) - 1
    decreases hi - lo
  {
    if lo <= hi {
      MaskFromFull(S, lo + 1, hi);
    }
  }

  /** full_mask = (1 << (n - 1)) - 1 is the key of all of 2..n. */
  lemma {:induction false} MaskFull(n: int)
    requires n >= 1
    ensures Mask(Interior(n), n) == Pow2(n - 1) - 1
  {
    MaskFromFull(Interior(n), 2, n);
  }

  lemma {:induction false} MaskFromSingleton(j: int, lo: int, hi: int)
    requires lo <= j <= hi
    ensures MaskFrom({j}, lo, hi) == Pow2(j - lo)
    decreases hi - lo
  {
    if j == lo {
      MaskFromEmpty({j}, lo + 1, hi);
    } else {
      MaskFromSingleton(j, lo + 1, hi);
    }
  }

  lemma {:induction false} MaskFromEmpty(S: set<int>, lo: int, hi: int)
    requires forall j :: lo <= j <= hi ==> j !in S
    ensures MaskFrom(S, lo, hi) == 0
    decreases hi - lo
  {
    if lo <= hi {
      MaskFromEmpty(S, lo + 1, hi);
    }
  }

  /** The base entries' key 1 << (j - 2) is the key of {j}. */
  lemma {:induction false} MaskSingleton(j: int, n: int)
    requires 2 <= j <= n
    ensures Mask({j}, n) == Pow2(j - 2)
  {
    MaskFromSingleton(j, 2, n);
  }

  lemma {:induction false} MaskFromRemove(S: set<int>, lo: int, hi: int, j: int)
    requires lo <= j <= hi && j in S
    ensures MaskFrom(S - {j}, lo, hi) + Pow2(j - lo) == MaskFrom(S, lo, hi)
    decreases hi - lo
  {
    if j == lo {
      MaskFromSame(S - {j}, S, lo + 1, hi);
    } else {
      MaskFromRemove(S, lo + 1, hi, j);
    }
  }

  lemma {:induction false} MaskFromSame(S: set<int>, T: set<int>, lo: int, hi: int)
    requires forall j :: lo <= j <= hi ==> (j in S <==> j in T)
    ensures MaskFrom(S, lo, hi) == MaskFrom(T, lo, hi)
    decreases hi - lo
  {
    if lo <= hi {
      MaskFromSame(S, T, lo + 1, hi);
    }
  }

  /** Taking j out of the set subtracts its bit from the key. */
  lemma {:induction false} MaskRemove(S: set<int>, n: int, j: int)
    requires 2 <= j <= n && j in S
    ensures Mask(S - {j}, n) == Mask(S, n) - Pow2(j - 2)
  {
    MaskFromRemove(S, 2, n, j);
  }

  lemma {:induction false} XorZero(a: nat)
    ensures Xor(a, 0) == a
  {
  }

  /** x ^ (1 << b) on a set bit b clears it. */
  lemma {:induction false} XorSetBit(x: nat, b: nat)
    requires Bit(x, b)
    ensures Xor(x, Pow2(b)) == x - Pow2(b)
    decreases b
  {
    if b == 0 {
      assert x % 2 == 1;
      assert x != 0;
      assert Xor(x, 1) == 2 * Xor(x / 2, 0) + (x % 2 + 1) % 2;
      XorZero(x / 2);
    } else {
      assert Pow2(b) / 2 == Pow2(b - 1);
      assert Pow2(b) % 2 == 0;
      XorSetBit(x / 2, b - 1);
      assert x / 2 != 0 by {
        ZeroBit(b - 1);
      }
      assert Xor(x, Pow2(b)) == 2 * Xor(x / 2, Pow2(b - 1)) + x % 2;
    }
  }

  /** prev_mask = mask ^ (1 << (j - 2)) is the key of S without j. */
  lemma {:induction false} PrevMask(S: set<int>, n: int, j: int)
    requires 2 <= j <= n && j in S
    ensures Xor(Mask(S, n), Pow2(j - 2)) == Mask(S - {j}, n)
  {
    MaskBit(S, n, j);
    XorSetBit(Mask(S, n), j - 2);
    MaskRemove(S, n, j);
  }

  /** Summing the bits of a tuple of distinct cities from 2..n gives the key of its set. */
  lemma {:induction false} TupleMaskIsMask(c: seq<int>, n: int)
    requires NoDup(c) && forall x :: x in c ==> 2 <= x <= n
    ensures TupleMask(c) == Mask(Elems(c), n)
  {
    if c == [] {
      MaskFromEmpty(Elems(c), 2, n);
    } else {
      NoDupTail(c);
      assert c[0] in c;
      assert forall x :: x in c[1..] ==> x in c;
      TupleMaskIsMask(c[1..], n);
      assert Elems(c[1..]) == Elems(c) - {c[0]};
      MaskRemove(Elems(c), n, c[0]);
    }
  }
}
