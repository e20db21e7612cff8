/** The arithmetic of funcs.hpp over unbounded naturals: powers of two, integer logarithms and alignment. */
module Powers {

  function Pow2(n: nat): (r: nat)
    ensures r > 0
  {
    if n == 0 then 1 else 2 * Pow2(n - 1)
  }

  /** intlog2: the position of the highest set bit, and 0 for 0. */
  function Log2(v: nat): (k: nat)
    ensures v > 0 ==> Pow2(k) <= v < 2 * Pow2(k)
    ensures v == 0 ==> k == 0
  {
    if v <= 1 then 0 else 1 + Log2(v / 2)
  }

  predicate IsPow2(v: nat) {
    v == Pow2(Log2(v))
  }

  lemma {:induction false} Pow2Add(a: nat, b: nat)
    ensures Pow2(a + b) == Pow2(a) * Pow2(b)
  {
    if a > 0 {
      Pow2Add(a - 1, b);
      MulAssociates(2, Pow2(a - 1), Pow2(b));
    }
  }

  lemma {:induction false} Pow2Monotone(a: nat, b: nat)
    ensures a <= b ==> Pow2(a) <= Pow2(b)
    ensures a < b ==> 2 * Pow2(a) <= Pow2(b)
  {
    if a < b {
      Pow2Monotone(a, b - 1);
    }
  }

  /** The bracketing power is unique, so Log2 is the only integer logarithm. */
  lemma Log2Unique(v: nat, k: nat)
    requires Pow2(k) <= v < 2 * Pow2(k)
    ensures Log2(v) == k
  {
    Pow2Monotone(k, Log2(v));
    Pow2Monotone(Log2(v), k);
  }

  lemma Log2OfPow2(k: nat)
    ensures Log2(Pow2(k)) == k && IsPow2(Pow2(k))
  {
    Log2Unique(Pow2(k), k);
  }

  /** Rounds v up to a multiple of a; funcs.hpp computes it with masks, see Words.AlignIsMask. */
  function Align(v: nat, a: nat): (r: nat)
    requires a > 0
  {
    (v + a - 1) / a * a
  }

  lemma DivBounds(v: int, a: int)
    requires a > 0
    ensures v / a * a <= v < v / a * a + a
    ensures v == v / a * a + v % a
  {
  }

  lemma MultipleMod(k: int, a: int)
    requires a > 0
    ensures (k * a) % a == 0
    ensures (k * a) / a == k
  {
    DivUnique(k * a, a, k);
  }

  lemma MulGrows(k: int, a: int)
    requires a > 0
    ensures k >= 1 ==> k * a >= a
    ensures k <= 0 ==> k * a <= 0
  {
  }

  lemma DivUnique(v: int, a: int, q: int)
    requires a > 0 && q * a <= v < q * a + a
    ensures v / a == q && v % a == v - q * a
  {
    var d := v / a;
    DivBounds(v, a);
    MulGrows(d - q, a);
    MulGrows(q - d, a);
    assert (d - q) * a == d * a - q * a;
    assert (q - d) * a == q * a - d * a;
  }

  /** Align(v, a) is the least multiple of a at or above v. */
  lemma AlignProperties(v: nat, a: nat)
    requires a > 0
    ensures v <= Align(v, a) < v + a
    ensures Align(v, a) % a == 0
    ensures Align(v, a) == v <==> v % a == 0
  {
    DivBounds(v + a - 1, a);
    MultipleMod((v + a - 1) / a, a);
    if v % a == 0 {
      DivBounds(v, a);
      DivUnique(v + a - 1, a, v / a);
    }
  }

  lemma ModAdd(x: int, y: int, a: int)
    requires a > 0 && x % a == 0
    ensures (x + y) % a == y % a
  {
    DivBounds(x, a);
    DivBounds(y, a);
    assert (x / a + y / a) * a == x / a * a + y / a * a;
    DivUnique(x + y, a, x / a + y / a);
  }

  /** No multiple of a lies strictly between v and Align(v, a). */
  lemma AlignLeast(v: nat, a: nat, m: nat)
    requires a > 0 && m % a == 0 && v <= m
    ensures Align(v, a) <= m
  {
    AlignProperties(v, a);
    var p, q := m / a, Align(v, a) / a;
    DivBounds(m, a);
    DivBounds(Align(v, a), a);
    MulGrows(q - p, a);
    assert (q - p) * a == q * a - p * a;
  }

  lemma MulCommutes(x: int, y: int)
    ensures x * y == y * x
  {
  }

  lemma MulAssociates(x: int, y: int, z: int)
    ensures x * y * z == x * (y * z)
  {
  }

  lemma MulDistributes(x: int, y: int, z: int)
    ensures (x + y) * z == x * z + y * z
    ensures (x - y) * z == x * z - y * z
  {
  }

  lemma MulKeepsOrder(x: int, y: int, z: int)
    requires z > 0
    ensures x < y <==> x * z < y * z
    ensures x <= y <==> x * z <= y * z
  {
    MulGrows(y - x, z);
    MulGrows(x - y, z);
    MulDistributes(y, x, z);
    MulDistributes(x, y, z);
  }

  lemma DivNatural(v: nat, a: nat)
    requires a > 0
    ensures v / a >= 0 && v / a * a <= v < v / a * a + a
  {
    DivBounds(v, a);
    MulGrows(-(v / a), a);
    assert -(v / a) * a == -(v / a * a);
  }

  /** Two quotients with a remainder in range are the same. */
  lemma QuotientUnique(v: int, a: int, p: int, q: int)
    requires a > 0 && p * a <= v < p * a + a && q * a <= v < q * a + a
    ensures p == q
  {
    MulGrows(p - q, a);
    MulGrows(q - p, a);
    MulDistributes(p, q, a);
    MulDistributes(q, p, a);
  }

  predicate IsQuotient(v: nat, a: nat, q: nat) {
    q <= v && q * a <= v < q * a + a
  }

  lemma ProductNatural(x: nat, y: nat)
    ensures x * y >= 0
  {
  }

  /** mulpow2 on what does not overflow. */
  function MulPow2(v: nat, k: nat): nat {
    ProductNatural(v, Pow2(k));
    v * Pow2(k)
  }

  lemma FactorBound(x: nat, n: nat)
    requires n > 0
    ensures x <= x * n
  {
    MulKeepsOrder(0, x, n);
    MulGrows(n - 1, x + 1);
    assert x * n == x + x * (n - 1);
  }

  lemma QuotientExists(v: nat, a: nat)
    requires a > 0
    ensures exists q: nat :: IsQuotient(v, a, q)
    ensures forall p: nat, q: nat | IsQuotient(v, a, p) && IsQuotient(v, a, q) :: p == q
  {
    DivNatural(v, a);
    FactorBound(v / a, a);
    assert IsQuotient(v, a, v / a);
    forall p: nat, q: nat | IsQuotient(v, a, p) && IsQuotient(v, a, q) ensures p == q {
      QuotientUnique(v, a, p, q);
    }
  }

  /** divpow2: the quotient by a power of two, given by the inequalities that determine it. */
  function DivPow2(v: nat, k: nat): (q: nat)
    ensures q * Pow2(k) <= v < q * Pow2(k) + Pow2(k) && q <= v
  {
    QuotientExists(v, Pow2(k));
    var q: nat :| IsQuotient(v, Pow2(k), q);
    q
  }

  /** modpow2: the remainder by a power of two. */
  function ModPow2(v: nat, k: nat): (r: nat)
    ensures r < Pow2(k) && DivPow2(v, k) * Pow2(k) + r == v
  {
    v - DivPow2(v, k) * Pow2(k)
  }

  lemma DivPow2Unique(v: nat, k: nat, q: nat)
    requires q * Pow2(k) <= v < q * Pow2(k) + Pow2(k)
    ensures DivPow2(v, k) == q && ModPow2(v, k) == v - q * Pow2(k)
  {
    QuotientUnique(v, Pow2(k), DivPow2(v, k), q);
  }

  /** Shifting left first shifts the quotient's bit position and the remainder along. */
  lemma ShiftBoth(v: nat, a: nat, b: nat)
    ensures DivPow2(v * Pow2(b), a + b) == DivPow2(v, a) && ModPow2(v * Pow2(b), a + b) == ModPow2(v, a) * Pow2(b)
  {
    var q, r, p := DivPow2(v, a), ModPow2(v, a), Pow2(b);
    Pow2Add(a, b);
    MulDistributes(q * Pow2(a), r, p);
    MulAssociates(q, Pow2(a), p);
    MulKeepsOrder(r, Pow2(a), p);
    MulKeepsOrder(-1, r, p);
    DivPow2Unique(v * p, a + b, q);
  }

  lemma AlignOfPow2(x: nat, y: nat)
    ensures Align(Pow2(x), Pow2(y)) == Pow2(if x < y then y else x)
  {
    AlignProperties(Pow2(x), Pow2(y));
    if x < y {
      Pow2Monotone(x, y);
      AlignLeast(Pow2(x), Pow2(y), Pow2(y));
      DivUnique(Pow2(y), Pow2(y), 1);
      if Align(Pow2(x), Pow2(y)) < Pow2(y) {
        DivUnique(Align(Pow2(x), Pow2(y)), Pow2(y), 0);
      }
    } else {
      Pow2Add(x - y, y);
      MultipleMod(Pow2(x - y), Pow2(y));
    }
  }
}
