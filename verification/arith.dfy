/** Integer helpers shared by the geometry of every tile source. */
module Arith {

  function Min(a: int, b: int): int {
    if a <= b then a else b
  }

  function Max(a: int, b: int): int {
    if a >= b then a else b
  }

  /** `2 ** n` for a natural exponent. */
  function Pow2(n: nat): (r: nat)
    ensures r >= 1
  {
    if n == 0 then 1 else 2 * Pow2(n - 1)
  }

  lemma {:induction false} Pow2Monotonic(m: nat, n: nat)
    requires m <= n
    ensures Pow2(m) <= Pow2(n)
  {
    if m < n {
      Pow2Monotonic(m, n - 1);
    }
  }

  lemma {:induction false} Pow2Add(m: nat, n: nat)
    ensures Pow2(m + n) == Pow2(m) * Pow2(n)
  {
    if n > 0 {
      Pow2Add(m, n - 1);
    }
  }

  /** `math.ceil(a / b)` for a non-negative numerator and positive divisor:
      the least `q` with `a <= q * b`. */
  function CeilDiv(a: nat, b: nat): (q: nat)
    requires b > 0
    ensures a <= q * b
    ensures q == 0 || (q - 1) * b < a
  {
    (a + b - 1) / b
  }

  lemma MulStrict(a: nat, b: nat, c: nat)
    requires a < b && c > 0
    ensures a * c < b * c
  {
  }

  lemma MulMonotonic(a: nat, b: nat, c: nat)
    requires a <= b
    ensures a * c <= b * c
  {
  }

  /** `x * d < n` exactly when `x` is below the number of `d`-wide pieces
      needed to cover `n`. */
  lemma BelowCeil(x: nat, d: nat, n: nat)
    requires d >= 1
    ensures x * d < n <==> x < CeilDiv(n, d)
  {
    var q := CeilDiv(n, d);
    if x < q {
      MulMonotonic(x, q - 1, d);
    } else {
      MulMonotonic(q, x, d);
    }
  }

  lemma {:induction false} Pow2Divides(k: nat, n: nat)
    requires Pow2(k) <= Pow2(n)
    ensures k <= n && Pow2(n) == Pow2(k) * Pow2(n - k)
  {
    if k > n {
      Pow2Monotonic(n + 1, k);
    }
    Pow2Add(k, n - k);
  }

  lemma MulMonotonicInverse(a: nat, b: nat, c: nat)
    requires c >= 1 && a * c < b * c
    ensures a < b
  {
    if b <= a {
      MulMonotonic(b, a, c);
    }
  }

  lemma DivExact(a: nat, f: nat)
    requires f >= 1
    ensures (a * f) / f == a
  {
    var q := (a * f) / f;
    assert q * f <= a * f < (q + 1) * f;
    MulMonotonicInverse(q, a + 1, f);
    MulMonotonicInverse(a, q + 1, f);
  }

  lemma CeilAtMost(a: nat, f: nat, q: nat)
    requires f >= 1 && a <= q * f
    ensures CeilDiv(a, f) <= q
  {
    var c := CeilDiv(a, f);
    if c > 0 {
      MulMonotonicInverse(c - 1, q, f);
    }
  }

  lemma CeilPositive(a: nat, f: nat)
    requires f >= 1 && a >= 1
    ensures CeilDiv(a, f) >= 1
  {
  }

  /** A number is its quotient's multiple plus its remainder. */
  lemma DivModParts(a: nat, m: nat)
    requires m > 0
    ensures a == m * (a / m) + a % m
  {
  }

  /** Euclidean division is determined by its quotient-remainder form. */
  lemma DivModUnique(a: nat, m: nat, q: nat, r: nat)
    requires m > 0 && a == m * q + r && r < m
    ensures a / m == q && a % m == r
  {
    var q', r' := a / m, a % m;
    assert m * q' + r' == m * q + r;
    if q' < q {
      MulMonotonic(q' + 1, q, m);
    } else if q < q' {
      MulMonotonic(q + 1, q', m);
    }
  }

  /** Dividing twice is dividing by the product. */
  lemma DivDiv(a: nat, b: nat, c: nat)
    requires b > 0 && c > 0
    ensures a / b / c == a / (b * c)
  {
    var q1, r1 := a / b, a % b;
    var q2, r2 := q1 / c, q1 % c;
    Regroup(a, b, c, q1, r1, q2, r2);
    DivModUnique(a, b * c, q2, b * r2 + r1);
  }

  lemma Regroup(a: nat, b: nat, c: nat, q1: nat, r1: nat, q2: nat, r2: nat)
    requires a == b * q1 + r1 && r1 < b && q1 == c * q2 + r2 && r2 < c
    ensures a == (b * c) * q2 + (b * r2 + r1) && b * r2 + r1 < b * c
  {
    assert b * q1 == b * (c * q2) + b * r2;
    MulMonotonic(r2, c - 1, b);
  }
}
