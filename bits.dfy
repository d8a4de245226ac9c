/**
  Bit operations on non-negative indices, as the enumerator uses them:
  `1 << n` is `Pow2(n)`, `i >> j` is `Shr(i, j)` (j halvings) and
  `x & 1 == 1` is `x % 2 == 1`.  Indices are non-negative, so no sign handling.
 */
module Bits {

  /** `1 << n` */
  function Pow2(n: nat): (r: nat)
    ensures r >= 1
  {
    if n == 0 then 1 else 2 * Pow2(n - 1)
  }

  /** `i >> j` on a non-negative integer: drop the j lowest bits, one halving at a time. */
  function Shr(i: nat, j: nat): (r: nat)
    ensures r <= i
  {
    if j == 0 then i else Shr(i / 2, j - 1)
  }

  /** Shifting right by j is division by `1 << j`. */
  lemma {:induction false} ShrIsDivision(i: nat, j: nat)
    ensures Shr(i, j) == i / Pow2(j)
  {
    if j > 0 {
      ShrIsDivision(i / 2, j - 1);
      ModDouble(i, Pow2(j - 1));
    }
  }

  /** `(i >> j) & 1 == 1`: bit j of i is set. */
  predicate BitSet(i: nat, j: nat)
  {
    Shr(i, j) % 2 == 1
  }

  /** A value below `1 << m` vanishes after shifting right by m. */
  lemma {:induction false} ShrBelow(x: nat, m: nat)
    requires x < Pow2(m)
    ensures Shr(x, m) == 0
  {
    if m > 0 {
      ShrBelow(x / 2, m - 1);
    }
  }

  /** Adding `1 << m` to x adds `1 << (m - j)` to `x >> j`, for j <= m. */
  lemma {:induction false} ShrAddPow2(x: nat, m: nat, j: nat)
    requires j <= m
    ensures Shr(x + Pow2(m), j) == Shr(x, j) + Pow2(m - j)
  {
    if j > 0 {
      assert (x + Pow2(m)) / 2 == x / 2 + Pow2(m - 1);
      ShrAddPow2(x / 2, m - 1, j - 1);
    }
  }

  /** Adding `1 << m` leaves every bit below m as it was. */
  lemma AddPow2KeepsLowBits(x: nat, m: nat, j: nat)
    requires j < m
    ensures BitSet(x + Pow2(m), j) == BitSet(x, j)
  {
    ShrAddPow2(x, m, j);
    assert Pow2(m - j) == 2 * Pow2(m - j - 1);
  }

  /** Adding `1 << m` to a value below `1 << m` sets bit m. */
  lemma AddPow2SetsBit(x: nat, m: nat)
    requires x < Pow2(m)
    ensures BitSet(x + Pow2(m), m)
  {
    ShrAddPow2(x, m, m);
    ShrBelow(x, m);
  }

  /** A positive multiple of d is at least d. */
  lemma {:induction false} MulAtLeast(k: nat, d: nat)
    requires k >= 1
    ensures k * d >= d
  {
    if k > 1 {
      MulAtLeast(k - 1, d);
      assert k * d == (k - 1) * d + d;
    }
  }

  /** Division with remainder is unique. */
  lemma DivModUnique(x: nat, d: nat, q: nat, r: nat)
    requires d > 0 && r < d && x == q * d + r
    ensures x / d == q && x % d == r
  {
    var q', r' := x / d, x % d;
    assert x == q' * d + r';
    if q' < q {
      assert q * d == q' * d + (q - q') * d;
      MulAtLeast(q - q', d);
    } else if q < q' {
      assert q' * d == q * d + (q' - q) * d;
      MulAtLeast(q' - q, d);
    }
  }

  /** Dividing by 2p is halving, then dividing by p; the remainder follows. */
  lemma ModDouble(x: nat, p: nat)
    requires p > 0
    ensures x / (2 * p) == (x / 2) / p
    ensures x % (2 * p) == 2 * ((x / 2) % p) + x % 2
  {
    var h := x / 2;
    assert h == (h / p) * p + h % p;
    assert x == (h / p) * (2 * p) + (2 * (h % p) + x % 2);
    DivModUnique(x, 2 * p, h / p, 2 * (h % p) + x % 2);
  }

  /** The low m + 1 bits of i are its low m bits plus bit m weighted by `1 << m`. */
  lemma {:induction false} ModPow2Step(i: nat, m: nat)
    ensures i % Pow2(m + 1) == i % Pow2(m) + (if BitSet(i, m) then Pow2(m) else 0)
  {
    if m == 0 {
      assert Pow2(1) == 2;
    } else {
      ModDouble(i, Pow2(m));
      ModPow2Step(i / 2, m - 1);
      ModDouble(i, Pow2(m - 1));
    }
  }
}
