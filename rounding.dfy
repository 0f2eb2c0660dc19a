/** Rounding of an exact rational `num / den` to the nearest integer with
    ties to the even neighbour: numpy's `np.round`, applied here to exact
    values instead of floating-point ones. */
module Rounding {
  import opened Arith

  function Abs(x: int): nat
  {
    if x < 0 then -x else x
  }

  /** The integer nearest to `num / den`; a value exactly half-way between
      two integers goes to the even one. */
  function RoundHalfEven(num: int, den: int): (r: int)
    requires den != 0
    ensures 2 * Abs(num - r * den) <= Abs(den)
    ensures 2 * Abs(num - r * den) == Abs(den) ==> r % 2 == 0
    decreases if den < 0 then 1 else 0
  {
    if den < 0 then
      var r := RoundHalfEven(-num, -den);
      MulNeg(r, den);
      r
    else
      var q, rem := num / den, num % den;
      RemainderForms(num, den);
      if 2 * rem < den then q
      else if 2 * rem > den then q + 1
      else if q % 2 == 0 then q
      else q + 1
  }

  /** The distances from `num` to the multiples of `den` on either side. */
  lemma RemainderForms(num: int, den: int)
    requires den > 0
    ensures num - (num / den) * den == num % den
    ensures num - (num / den + 1) * den == num % den - den
  {
    assert num == (num / den) * den + num % den;
    DistribAdd(num / den, 1, den);
  }

  /** An exact quotient is its own rounding. */
  lemma RoundExact(k: int, den: int)
    requires den > 0
    ensures RoundHalfEven(k * den, den) == k
  {
    DivMulAdd(k, den, 0);
  }

  /** An exact multiple of a negative denominator rounds to its quotient. */
  lemma RoundExactNegative(k: int, den: int)
    requires den < 0
    ensures RoundHalfEven(k * den, den) == k
  {
    RoundNegate(k * den, den);
    MulNeg(k, den);
    RoundExact(k, -den);
  }

  /** Rounding by a positive denominator is monotone in the numerator. */
  lemma RoundMonotone(a: int, b: int, den: int)
    requires a <= b && den > 0
    ensures RoundHalfEven(a, den) <= RoundHalfEven(b, den)
  {
    DivMonotone(a, b, den);
    var qa, qb := a / den, b / den;
    RoundNearQuotient(a, den);
    RoundNearQuotient(b, den);
    if qa == qb {
      RemainderForms(a, den);
      RemainderForms(b, den);
      assert a % den <= b % den;
    }
  }

  /** With a positive denominator the rounding is the quotient or the next
      integer, chosen by the remainder. */
  lemma RoundNearQuotient(num: int, den: int)
    requires den > 0
    ensures var (q, rem) := (num / den, num % den);
      RoundHalfEven(num, den) == (if 2 * rem < den then q else if 2 * rem > den then q + 1 else if q % 2 == 0 then q else q + 1)
  {
  }

  /** If `lo <= num / den <= hi` then its rounding lies in `[lo, hi]`. */
  lemma RoundWithin(num: int, den: int, lo: int, hi: int)
    requires den > 0 && lo * den <= num <= hi * den
    ensures lo <= RoundHalfEven(num, den) <= hi
  {
    RoundMonotone(lo * den, num, den);
    RoundMonotone(num, hi * den, den);
    RoundExact(lo, den);
    RoundExact(hi, den);
  }

  /** A negative denominator rounds like the negated fraction. */
  lemma RoundNegate(num: int, den: int)
    requires den < 0
    ensures RoundHalfEven(num, den) == RoundHalfEven(-num, -den)
  {
  }
}
