/**
 Integers as the pruner compares them: 64-bit values stored as little-endian bytes, and their
 conversion to doubles, which rounds to 53 significant bits, ties to even.
*/
module Doubles {
  import opened Bytes

  const TWO52: int := 0x10_0000_0000_0000
  const TWO53: int := 0x20_0000_0000_0000
  const I64_MIN: int := -0x8000_0000_0000_0000
  const I64_MAX: int := 0x7FFF_FFFF_FFFF_FFFF

  type i64 = x: int | I64_MIN <= x <= I64_MAX

  /** The distance between neighbouring doubles around v, when it is at least one. */
  function Unit(v: nat): (u: nat)
    ensures u > 0 && v < TWO53 * u
    ensures u == 1 || TWO52 * u <= v
  {
    if v < TWO53 then 1 else 2 * Unit(v / 2)
  }

  /** The multiple of u nearest to v; of two equally near, the even one. */
  function Nearest(v: nat, u: nat): nat
    requires u > 0
  {
    var (q, r) := Divide(v, u);
    RoundRemainder(q, r, u)
  }

  /** Quotient and remainder. */
  function Divide(v: nat, u: nat): (qr: (nat, nat))
    requires u > 0
    ensures v == qr.0 * u + qr.1 && qr.1 < u
  {
    if v < u then (0, v)
    else
      var (q, r) := Divide(v - u, u);
      assert (q + 1) * u == q * u + u;
      (q + 1, r)
  }

  function RoundRemainder(q: nat, r: nat, u: nat): nat {
    if 2 * r < u || (2 * r == u && q % 2 == 0) then q * u else (q + 1) * u
  }

  /** A 64-bit integer converted to a double. */
  function ToDouble(v: int): int {
    if v < 0 then 0 - Nearest(-v, Unit(-v)) else Nearest(v, Unit(v))
  }

  lemma {:induction false} UnitSteps(v: nat, w: nat)
    requires v <= w
    ensures Unit(v) == Unit(w) || 2 * Unit(v) <= Unit(w)
    decreases v
  {
    if v >= TWO53 {
      UnitSteps(v / 2, w / 2);
    }
  }

  lemma MulGrows(a: nat, b: nat, u: nat)
    requires a <= b
    ensures a * u <= b * u
  {
    assert b * u == a * u + (b - a) * u;
  }

  lemma RoundingGrows(q: nat, r: nat, q': nat, r': nat, u: nat)
    requires q * u + r <= q' * u + r' && r < u && r' < u
    ensures RoundRemainder(q, r, u) <= RoundRemainder(q', r', u)
  {
    assert (q + 1) * u == q * u + u && (q' + 1) * u == q' * u + u;
    if q < q' {
      MulGrows(q + 1, q', u);
    } else if q' < q {
      MulGrows(q' + 1, q, u);
    }
  }

  lemma NearestGrows(v: nat, w: nat, u: nat)
    requires v <= w && u > 0
    ensures Nearest(v, u) <= Nearest(w, u)
  {
    var (q, r) := Divide(v, u);
    var (q', r') := Divide(w, u);
    RoundingGrows(q, r, q', r', u);
  }

  lemma NearestAtMost(v: nat, u: nat, n: nat)
    requires u > 0 && v < n * u
    ensures Nearest(v, u) <= n * u
  {
    var (q, r) := Divide(v, u);
    if q >= n {
      MulGrows(n, q, u);
    } else {
      MulGrows(q + 1, n, u);
    }
  }

  lemma NearestAtLeast(v: nat, u: nat, n: nat)
    requires u > 0 && n * u <= v
    ensures n * u <= Nearest(v, u)
  {
    var (q, r) := Divide(v, u);
    if q < n {
      MulGrows(q + 1, n, u);
    } else {
      MulGrows(n, q, u);
    }
  }

  /** No multiple of the unit is nearer than the one chosen. */
  lemma DoubleIsNear(v: nat)
    ensures 0 - Unit(v) <= 2 * (ToDouble(v) - v) <= Unit(v)
  {
    var (q, r) := Divide(v, Unit(v));
  }

  lemma NatDoubleGrows(v: nat, w: nat)
    requires v <= w
    ensures ToDouble(v) <= ToDouble(w)
  {
    var a, b := Unit(v), Unit(w);
    UnitSteps(v, w);
    if a == b {
      NearestGrows(v, w, a);
    } else {
      NearestAtMost(v, a, TWO53);
      NearestAtLeast(w, b, TWO52);
    }
  }

  /** Conversion never reverses the order of two integers. */
  lemma DoubleGrows(v: int, w: int)
    requires v <= w
    ensures ToDouble(v) <= ToDouble(w)
  {
    if 0 <= v {
      NatDoubleGrows(v, w);
    } else if w <= 0 {
      NatDoubleGrows(-w, -v);
    } else {
      NatDoubleGrows(0, w);
      NatDoubleGrows(0, -v);
    }
  }

  /** Conversion is exact up to 2^53. */
  lemma SmallIsExact(v: int)
    requires -TWO53 <= v <= TWO53
    ensures ToDouble(v) == v
  {
    if v == TWO53 || v == -TWO53 {
      assert Unit(TWO53) == 2;
    }
  }

  /** Above it, neighbours collapse: 2^53 + 1 and 2^53 convert to the same double. */
  lemma NeighboursCollapse()
    ensures ToDouble(TWO53 + 1) == ToDouble(TWO53)
  {
    assert Unit(TWO53) == 2 && Unit(TWO53 + 1) == 2;
  }

  // ---- Storage ----

  function I64Bytes(v: i64): seq<nat> {
    ToBytes(if v < 0 then v + 0x1_0000_0000_0000_0000 else v, 8)
  }

  lemma I64RoundTrip(v: i64)
    ensures SignedFromBytes(I64Bytes(v)) == v
  {
    assert Pow256(8) == 0x1_0000_0000_0000_0000;
    BytesRoundTrip(if v < 0 then v + 0x1_0000_0000_0000_0000 else v, 8);
  }
}
