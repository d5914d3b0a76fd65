/** Division and powers: the few non-linear facts the other modules need, each proved on its own. */
module Arithmetic {
  lemma MulDistributes(x: int, y: int, z: int)
    ensures (x + y) * z == x * z + y * z
  {
  }

  lemma MulAssociates(x: int, y: int, z: int)
    ensures (x * y) * z == x * (z * y)
  {
  }

  lemma MulMonotone(a: int, b: int, c: nat)
    requires a <= b
    ensures a * c <= b * c
  {
    assert (b - a) * c >= 0;
    MulDistributes(a, b - a, c);
  }

  lemma SmallMultipleIsZero(d: int, m: int, e: int)
    requires d * m == e && -m < e < m
    ensures d == 0
  {
    if d >= 1 { MulMonotone(1, d, m); }
    if d <= -1 { MulMonotone(d, -1, m); }
  }

  /** Quotient and remainder are determined by their defining equation. */
  lemma DivModUnique(n: nat, m: nat, u: nat, w: nat)
    requires n == u * m + w && w < m
    ensures n / m == u && n % m == w
  {
    var q, r := n / m, n % m;
    assert n == q * m + r;
    MulDistributes(u, -q, m);
    assert (u - q) * m == r - w;
    SmallMultipleIsZero(u - q, m, r - w);
  }

  /** Numbers closer than `m` have different remainders. */
  lemma ModDistinct(i: nat, j: nat, m: nat)
    requires i < j < i + m
    ensures i % m != j % m
  {
    var q, q' := i / m, j / m;
    assert i == q * m + i % m && j == q' * m + j % m;
    MulDistributes(q', -q, m);
    if i % m == j % m {
      assert (q' - q) * m == j - i;
      SmallMultipleIsZero(q' - q, m, j - i);
    }
  }

  /** How many numbers below `n` are congruent to `r`, one number further. */
  lemma CountStep(n: nat, m: nat, r: nat)
    requires r < m
    ensures (n + 1) / m + (if r < (n + 1) % m then 1 else 0) ==
            n / m + (if r < n % m then 1 else 0) + (if n % m == r then 1 else 0)
  {
    var q, w := n / m, n % m;
    assert n == q * m + w;
    if w + 1 < m {
      DivModUnique(n + 1, m, q, w + 1);
    } else {
      assert n + 1 == (q + 1) * m + 0;
      DivModUnique(n + 1, m, q + 1, 0);
    }
  }

  lemma DivisionFits(n: nat, base: nat, p: nat)
    requires base >= 1 && n < base * p
    ensures n / base < p
  {
    var q := n / base;
    assert n == q * base + n % base;
    if q >= p { MulMonotone(p, q, base); }
  }

  lemma Regroup(u: nat, v: nat, r: nat, base: nat, p: nat)
    requires v < p && r < base
    ensures (u * p + v) * base + r == u * (base * p) + (v * base + r)
    ensures v * base + r < base * p
  {
    MulDistributes(u * p, v, base);
    MulAssociates(u, p, base);
    MulMonotone(v + 1, p, base);
    MulDistributes(v, 1, base);
  }

  /** Remainders of a product: peel off the lowest digit. */
  lemma ModOfProduct(n: nat, base: nat, p: nat)
    requires base >= 1 && p >= 1
    ensures base * p > 0 && n % (base * p) == (n / base % p) * base + n % base
  {
    var q, r := n / base, n % base;
    var u, v := q / p, q % p;
    assert n == q * base + r && q == u * p + v;
    Regroup(u, v, r, base, p);
    DivModUnique(n, base * p, u, v * base + r);
  }

  /** Two-digit numbers agree exactly when their digits do. */
  lemma DigitPairs(x: nat, r: nat, y: nat, s: nat, base: nat)
    requires r < base && s < base
    ensures x * base + r == y * base + s <==> x == y && r == s
  {
    DivModUnique(x * base + r, base, x, r);
    DivModUnique(y * base + s, base, y, s);
  }

  /** `m` and `n` leave the same remainder. */
  predicate Congruent(m: nat, n: nat, p: nat) {
    p > 0 && m % p == n % p
  }

  /** Congruence modulo a product, digit by digit. */
  lemma CongruentStep(m: nat, n: nat, base: nat, p: nat)
    requires base >= 1 && p >= 1
    ensures Congruent(m, n, base * p) <==> Congruent(m, n, base) && Congruent(m / base, n / base, p)
  {
    ModOfProduct(m, base, p);
    ModOfProduct(n, base, p);
    DigitPairs(m / base % p, m % base, n / base % p, n % base, base);
  }

  function Pow(b: nat, e: nat): nat {
    if e == 0 then 1 else b * Pow(b, e - 1)
  }

  lemma {:induction false} PowPositive(b: nat, e: nat)
    requires b >= 1
    ensures Pow(b, e) >= 1
  {
    if e > 0 {
      PowPositive(b, e - 1);
      MulMonotone(1, b, Pow(b, e - 1));
    }
  }

  lemma {:induction false} PowGrows(b: nat, d: nat, e: nat)
    requires b >= 1 && d <= e
    ensures Pow(b, d) <= Pow(b, e)
    decreases e - d
  {
    if d < e {
      PowPositive(b, d);
      MulMonotone(1, b, Pow(b, d));
      PowGrows(b, d + 1, e);
    }
  }
}
