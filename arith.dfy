/** Small facts about integer multiplication and Euclidean division by a
    positive divisor, proved once so that the image-index arithmetic of the
    other modules does not depend on the solver's non-linear heuristics. */
module Arith {

  lemma MulAtLeast(a: int, d: int)
    requires a >= 1 && d > 0
    ensures a * d >= d
  {
  }

  lemma MulLe(a: int, b: int, c: int)
    requires a <= b && c >= 0
    ensures a * c <= b * c
  {
  }

  lemma DistribSub(a: int, b: int, d: int)
    ensures (a - b) * d == a * d - b * d
  {
  }

  lemma DistribAdd(a: int, b: int, d: int)
    ensures (a + b) * d == a * d + b * d
  {
  }

  /** Division by `d` undoes `q * d + r` when `r` is a remainder. */
  lemma DivMulAdd(q: int, d: int, r: int)
    requires d > 0 && 0 <= r < d
    ensures (q * d + r) / d == q && (q * d + r) % d == r
  {
    var n := q * d + r;
    var q', r' := n / d, n % d;
    assert n == q' * d + r';
    DistribSub(q, q', d);
    DistribSub(q', q, d);
    if q > q' {
      MulAtLeast(q - q', d);
    } else if q < q' {
      MulAtLeast(q' - q, d);
    }
  }

  /** `x / d == q` exactly when `x` lies in the block `[q*d, q*d + d)`. */
  lemma DivBlock(x: int, d: int, q: int)
    requires d > 0
    ensures q * d <= x < q * d + d <==> x / d == q
  {
    if q * d <= x < q * d + d {
      DivMulAdd(q, d, x - q * d);
    }
    if x / d == q {
      assert x == (x / d) * d + x % d;
    }
  }

  lemma DivMonotone(a: int, b: int, d: int)
    requires a <= b && d > 0
    ensures a / d <= b / d
  {
    var qa, qb := a / d, b / d;
    assert a == qa * d + a % d;
    assert b == qb * d + b % d;
    if qa > qb {
      MulLe(qb + 1, qa, d);
      DistribAdd(qb, 1, d);
    }
  }

  /** A non-negative index below `q * d` has quotient below `q`. */
  lemma DivBelow(x: int, d: int, q: int)
    requires d > 0 && 0 <= x < q * d
    ensures 0 <= x / d < q
  {
    DivMonotone(0, x, d);
    assert x == (x / d) * d + x % d;
    if x / d >= q {
      MulLe(q, x / d, d);
    }
  }

  /** Stepping `x` by one raises the quotient by one exactly at multiples of `d`. */
  lemma DivStep(x: int, d: int)
    requires d > 0
    ensures x / d == (x - 1) / d + (if x % d == 0 then 1 else 0)
  {
    var q, r := (x - 1) / d, (x - 1) % d;
    assert x - 1 == q * d + r;
    if r == d - 1 {
      DistribAdd(q, 1, d);
      DivMulAdd(q + 1, d, 0);
    } else {
      DivMulAdd(q, d, r + 1);
    }
  }

  /** A multiple of `d` below `q * d` is at most `(q - 1) * d`. */
  lemma MulBelow(a: int, q: int, d: int)
    requires d > 0 && a * d < q * d
    ensures a + 1 <= q
  {
    if a + 1 > q {
      MulLe(q, a, d);
    }
  }

  /** Taking `d` away lowers the quotient by one and keeps the remainder. */
  lemma DivShift(k: int, d: int)
    requires d > 0
    ensures (k - d) / d == k / d - 1 && (k - d) % d == k % d
  {
    assert k == (k / d) * d + k % d;
    DistribSub(k / d, 1, d);
    DivMulAdd(k / d - 1, d, k % d);
  }

  /** A number written with digits below `d` has one quotient and one
      remainder. */
  lemma MixedRadixUnique(q1: int, m1: int, q2: int, m2: int, d: int)
    requires d > 0 && 0 <= m1 < d && 0 <= m2 < d
    ensures q1 * d + m1 == q2 * d + m2 <==> q1 == q2 && m1 == m2
  {
    DivMulAdd(q1, d, m1);
    DivMulAdd(q2, d, m2);
  }

  lemma MulZero(a: int, b: int)
    requires b == 0
    ensures a * b == 0
  {
  }

  lemma MulComm(a: int, b: int)
    ensures a * b == b * a
  {
  }

  lemma MulNeg(a: int, b: int)
    ensures a * -b == -(a * b)
  {
  }

  lemma MulNonPosNonNeg(a: int, b: int)
    ensures a <= 0 && b >= 0 ==> a * b <= 0
  {
    if a <= 0 && b >= 0 {
      MulLe(a, 0, b);
    }
  }

  lemma MulNegPos(a: int, b: int)
    requires a < 0 && b > 0
    ensures a * b < 0
  {
    MulAtLeast(-a, b);
    MulNeg(b, a);
    MulComm(a, b);
  }

  /** Multiplying `lo <= t <= hi` by a non-positive factor reverses the order. */
  lemma ScaleByNonPositive(lo: int, t: int, hi: int, f: int)
    requires lo <= t <= hi && f <= 0
    ensures hi * f <= t * f <= lo * f
  {
    MulLe(lo, t, -f);
    MulLe(t, hi, -f);
    MulNeg(lo, f);
    MulNeg(t, f);
    MulNeg(hi, f);
  }

  lemma DistribAdd4(x: int, a: int, b: int, c: int, d: int)
    ensures x * a + x * b + x * c + x * d == x * (a + b + c + d)
  {
    DistribAdd(a, b, x);
    DistribAdd(a + b, c, x);
    DistribAdd(a + b + c, d, x);
    MulComm(x, a);
    MulComm(x, b);
    MulComm(x, c);
    MulComm(x, d);
    MulComm(x, a + b + c + d);
  }

  lemma MulAssoc(a: int, b: int, c: int)
    ensures a * b * c == a * (b * c)
  {
  }
}
