/**
 Unsigned integers as bit masks. A mask is identified with the set of its bit positions, and
 the operators the join optimizer uses become set operations.
*/
module Bitmasks {
  function Pow2(n: nat): (p: nat)
    ensures p > n
  {
    if n == 0 then 1 else 2 * Pow2(n - 1)
  }

  predicate Has(m: nat, i: nat)
    decreases i
  {
    if i == 0 then m % 2 == 1 else Has(m / 2, i - 1)
  }

  lemma {:induction false} HasAtLeast(m: nat, i: nat)
    ensures Has(m, i) ==> Pow2(i) <= m
    decreases i
  {
    if i > 0 {
      HasAtLeast(m / 2, i - 1);
    }
  }

  /** The positions of the bits of m. */
  ghost function Bits(m: nat): (s: set<nat>)
    ensures forall i: nat :: i in s <==> Has(m, i)
  {
    assert forall i: nat :: Has(m, i) ==> i < m by {
      forall i: nat {
        HasAtLeast(m, i);
      }
    }
    set i: nat | i < m && Has(m, i)
  }

  function And(a: nat, b: nat): nat {
    if a == 0 then 0 else 2 * And(a / 2, b / 2) + if a % 2 == 1 && b % 2 == 1 then 1 else 0
  }

  function Or(a: nat, b: nat): nat
    decreases a + b
  {
    if a == 0 && b == 0 then 0 else 2 * Or(a / 2, b / 2) + if a % 2 == 1 || b % 2 == 1 then 1 else 0
  }

  /** a & !b */
  function AndNot(a: nat, b: nat): nat {
    if a == 0 then 0 else 2 * AndNot(a / 2, b / 2) + if a % 2 == 1 && b % 2 == 0 then 1 else 0
  }

  lemma {:induction false} ZeroHasNone(i: nat)
    ensures !Has(0, i)
    decreases i
  {
    if i > 0 {
      ZeroHasNone(i - 1);
    }
  }

  lemma {:induction false} HasOperators(a: nat, b: nat, i: nat)
    ensures Has(And(a, b), i) <==> Has(a, i) && Has(b, i)
    ensures Has(Or(a, b), i) <==> Has(a, i) || Has(b, i)
    ensures Has(AndNot(a, b), i) <==> Has(a, i) && !Has(b, i)
    decreases i
  {
    if a == 0 {
      ZeroHasNone(i);
    } else {
    }
    if a == 0 && b == 0 {
      ZeroHasNone(i);
    } else {
    }
    if i > 0 {
      HasOperators(a / 2, b / 2, i - 1);
    }
  }

  /** The operators are intersection, union and difference. */
  lemma OperatorBits(a: nat, b: nat)
    ensures Bits(And(a, b)) == Bits(a) * Bits(b)
    ensures Bits(Or(a, b)) == Bits(a) + Bits(b)
    ensures Bits(AndNot(a, b)) == Bits(a) - Bits(b)
  {
    forall i: nat {
      HasOperators(a, b, i);
    }
  }

  /** A mask is determined by its bits. */
  lemma {:induction false} SameBits(a: nat, b: nat)
    requires Bits(a) == Bits(b)
    ensures a == b
    decreases a + b
  {
    if a + b > 0 {
      assert 0 in Bits(a) <==> 0 in Bits(b);
      forall i: nat
        ensures i in Bits(a / 2) <==> i in Bits(b / 2)
      {
        assert i + 1 in Bits(a) <==> i + 1 in Bits(b);
      }
      SameBits(a / 2, b / 2);
    }
  }

  lemma ZeroBits()
    ensures Bits(0) == {}
  {
    forall i: nat {
      ZeroHasNone(i);
    }
  }

  lemma {:induction false} HasPow2(k: nat, i: nat)
    ensures Has(Pow2(k), i) <==> i == k
    ensures Has(Pow2(k) - 1, i) <==> i < k
    decreases i
  {
    if k == 0 {
      ZeroHasNone(i);
      if i > 0 {
        ZeroHasNone(i - 1);
      }
    } else {
      if i > 0 {
        HasPow2(k - 1, i - 1);
      }
    }
  }

  lemma Pow2Bits(k: nat)
    ensures Bits(Pow2(k)) == {k}
  {
    forall i: nat {
      HasPow2(k, i);
    }
  }

  lemma FullBits(k: nat, full: nat)
    requires full == Pow2(k) - 1
    ensures forall i: nat :: i in Bits(full) <==> i < k
  {
    forall i: nat
      ensures i in Bits(full) <==> i < k
    {
      HasPow2(k, i);
    }
  }

  ghost predicate AllBelow(s: set<nat>, n: nat) {
    forall i :: i in s ==> i < n
  }

  /** The masks below 2^n are those with all bits below n. */
  lemma {:induction false} BelowPow2(m: nat, n: nat)
    ensures m < Pow2(n) <==> AllBelow(Bits(m), n)
    decreases n
  {
    if n == 0 {
      ZeroBits();
      if m > 0 {
        var i := SomeBit(m);
      }
    } else {
      BelowPow2(m / 2, n - 1);
      if i :| i in Bits(m) && i >= n {
        assert i - 1 in Bits(m / 2);
      }
      if i :| i in Bits(m / 2) && i >= n - 1 {
        assert i + 1 in Bits(m);
      }
    }
  }

  lemma {:induction false} SomeBit(m: nat) returns (i: nat)
    requires m > 0
    ensures i in Bits(m)
    decreases m
  {
    if m % 2 == 1 {
      i := 0;
    } else {
      var j := SomeBit(m / 2);
      i := j + 1;
    }
  }

  // ---- Submasks ----

  ghost predicate Submask(x: nat, m: nat) {
    Bits(x) <= Bits(m)
  }

  lemma SubmaskHalf(x: nat, m: nat)
    ensures Submask(x, m) <==> Submask(x / 2, m / 2) && x % 2 <= m % 2
  {
    assert 0 in Bits(x) <==> x % 2 == 1;
    assert 0 in Bits(m) <==> m % 2 == 1;
    if Submask(x, m) {
      forall i | i in Bits(x / 2)
        ensures i in Bits(m / 2)
      {
        assert i + 1 in Bits(x);
      }
    }
    if Submask(x / 2, m / 2) && x % 2 <= m % 2 {
      forall i | i in Bits(x)
        ensures i in Bits(m)
      {
        assert i > 0 ==> i - 1 in Bits(x / 2);
      }
    }
  }

  lemma {:induction false} SubmaskAtMost(x: nat, m: nat)
    requires Submask(x, m)
    ensures x <= m && And(x, m) == x
    decreases x
  {
    if x > 0 {
      SubmaskHalf(x, m);
      SubmaskAtMost(x / 2, m / 2);
    }
  }

  /** (s - 1) & m is the next submask of m below s: none lies between. */
  lemma {:induction false} PreviousSubmask(s: nat, m: nat, x: nat)
    requires s > 0 && Submask(s, m)
    ensures And(s - 1, m) < s && Submask(And(s - 1, m), m)
    ensures Submask(x, m) && x < s ==> x <= And(s - 1, m)
    decreases s
  {
    OperatorBits(s - 1, m);
    SubmaskHalf(s, m);
    SubmaskHalf(x, m);
    if s % 2 == 1 {
      assert (s - 1) / 2 == s / 2 && (s - 1) % 2 == 0;
      SubmaskAtMost(s / 2, m / 2);
      assert And(s - 1, m) == s - 1;
    } else {
      assert (s - 1) / 2 == s / 2 - 1 && (s - 1) % 2 == 1;
      PreviousSubmask(s / 2, m / 2, x / 2);
      assert And(s - 1, m) == 2 * And(s / 2 - 1, m / 2) + m % 2;
    }
  }

  lemma NextBelow(s: nat, m: nat)
    requires s > 0 && Submask(s, m)
    ensures And(s - 1, m) < s && Submask(And(s - 1, m), m)
    ensures forall x: nat :: Submask(x, m) && x < s ==> x <= And(s - 1, m)
  {
    PreviousSubmask(s, m, 0);
    forall x: nat | Submask(x, m) && x < s
      ensures x <= And(s - 1, m)
    {
      PreviousSubmask(s, m, x);
    }
  }

  /** All non-empty proper submasks of m, each once, from the largest down. */
  ghost predicate ListsSubmasks(list: seq<nat>, m: nat) {
    && (forall i, j :: 0 <= i < j < |list| ==> list[i] > list[j])
    && forall x: nat :: x in list <==> 0 < x < m && Submask(x, m)
  }

  method Submasks(mask: nat) returns (result: seq<nat>)
    requires mask > 0
    ensures ListsSubmasks(result, mask)
  {
    result := [];
    var sub: nat := And(mask - 1, mask);
    NextBelow(mask, mask);
    while sub > 0
      invariant sub < mask && Submask(sub, mask)
      invariant forall i :: 0 <= i < |result| ==> result[i] > sub
      invariant forall i, j :: 0 <= i < j < |result| ==> result[i] > result[j]
      invariant forall x: nat :: x in result <==> sub < x < mask && Submask(x, mask)
    {
      result := result + [sub];
      NextBelow(sub, mask);
      sub := And(sub - 1, mask);
    }
  }

  // ---- Subsets of a given size ----

  ghost function Size(m: nat): nat {
    |Bits(m)|
  }

  /** x agrees with m below start, has nothing from n on, and k members more than m. */
  ghost predicate Completes(x: set<nat>, m: set<nat>, start: nat, n: nat, k: nat) {
    && (forall i: nat :: i < start ==> (i in x <==> i in m))
    && AllBelow(x, n) && |x| == |m| + k
  }

  ghost predicate Distinct<T>(s: seq<T>) {
    forall i, j :: 0 <= i < j < |s| ==> s[i] != s[j]
  }

  lemma DistinctAppend<T>(a: seq<T>, b: seq<T>)
    requires Distinct(a) && Distinct(b) && forall x :: x in a ==> x !in b
    ensures Distinct(a + b)
  {
    forall i, j | 0 <= i < j < |a + b|
      ensures (a + b)[i] != (a + b)[j]
    {
      assert i < |a| <= j ==> (a + b)[i] in a && (a + b)[j] in b;
    }
  }

  lemma {:induction false} SizeMonotone(a: set<nat>, b: set<nat>)
    requires a <= b
    ensures |a| <= |b| && (|a| == |b| ==> a == b)
    decreases |a|
  {
    if a != {} {
      var x :| x in a;
      SizeMonotone(a - {x}, b - {x});
      assert a == (a - {x}) + {x} && b == (b - {x}) + {x};
    }
  }

  /** x has a member in start .. i - 1. */
  ghost predicate Meets(x: set<nat>, start: nat, i: nat) {
    exists j: nat :: start <= j < i && j in x
  }

  /** The completions split by their lowest new member. */
  lemma CompletesBy(x: set<nat>, m: set<nat>, start: nat, n: nat, k: nat, i: nat)
    requires k > 0 && start <= i < n && AllBelow(m, start)
    ensures Completes(x, m + {i}, i + 1, n, k - 1)
            <==> Completes(x, m, start, n, k) && i in x && !Meets(x, start, i)
  {
    assert i !in m && |m + {i}| == |m| + 1;
  }

  lemma NothingToAdd(x: set<nat>, m: set<nat>, start: nat, n: nat, k: nat)
    requires AllBelow(m, start) && Completes(x, m, start, n, k)
    ensures k == 0 ==> x == m
    ensures k > 0 ==> Meets(x, start, n)
  {
    SizeMonotone(m, x);
    if k > 0 {
      assert m <= x && x != m;
      var j :| j in x && j !in m;
      assert start <= j < n;
    }
  }

  method SubsetsFrom(n: nat, k: nat, start: nat, mask: nat) returns (result: seq<nat>)
    requires start <= n && AllBelow(Bits(mask), start)
    ensures Distinct(result) && forall x: nat :: x in result <==> Completes(Bits(x), Bits(mask), start, n, k)
    decreases n - start
  {
    if k == 0 {
      forall x: nat | Completes(Bits(x), Bits(mask), start, n, k)
        ensures x == mask
      {
        NothingToAdd(Bits(x), Bits(mask), start, n, k);
        SameBits(x, mask);
      }
      return [mask];
    }
    result := [];
    for i := start to n
      invariant Distinct(result)
      invariant forall x: nat :: x in result <==>
                                 Completes(Bits(x), Bits(mask), start, n, k) && Meets(Bits(x), start, i)
    {
      OperatorBits(mask, Pow2(i));
      Pow2Bits(i);
      var more := SubsetsFrom(n, k - 1, i + 1, Or(mask, Pow2(i)));
      forall x: nat
        ensures x in more <==> Completes(Bits(x), Bits(mask), start, n, k) && i in Bits(x) && !Meets(Bits(x), start, i)
      {
        CompletesBy(Bits(x), Bits(mask), start, n, k, i);
      }
      forall x: nat
        ensures Meets(Bits(x), start, i + 1) <==> Meets(Bits(x), start, i) || i in Bits(x)
      {}
      DistinctAppend(result, more);
      result := result + more;
    }
    forall x: nat | Completes(Bits(x), Bits(mask), start, n, k)
      ensures Meets(Bits(x), start, n)
    {
      NothingToAdd(Bits(x), Bits(mask), start, n, k);
    }
  }

  /** Every mask below 2^n with exactly k bits, once. */
  method Subsets(n: nat, k: nat) returns (result: seq<nat>)
    ensures Distinct(result) && forall x: nat :: x in result <==> x < Pow2(n) && Size(x) == k
  {
    ZeroBits();
    result := SubsetsFrom(n, k, 0, 0);
    forall x: nat
      ensures x < Pow2(n) <==> AllBelow(Bits(x), n)
    {
      BelowPow2(x, n);
    }
  }
}
