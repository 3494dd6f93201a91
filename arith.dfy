/**
 * Integer aggregates the analytics queries use: sum, minimum, maximum and the
 * mean truncated toward zero (SQL `avg` followed by Python's `int(...)`).
 */
module Arith {

  /** Division truncated toward zero (not Dafny's Euclidean `/`), for a positive divisor. */
  function TruncDiv(a: int, b: int): (q: int)
    requires b > 0
    ensures 0 <= a ==> 0 <= q && q * b <= a < q * b + b
    ensures a < 0 ==> q <= 0 && a <= q * b < a + b
  {
    if a >= 0 then a / b else -((-a) / b)
  }

  function Sum(xs: seq<int>): int
  {
    if xs == [] then 0 else Sum(xs[..|xs| - 1]) + xs[|xs| - 1]
  }

  function MinOf(xs: seq<int>): (m: int)
    requires |xs| > 0
    ensures m in xs
    ensures forall x :: x in xs ==> m <= x
  {
    if |xs| == 1 then xs[0]
    else
      var init := xs[..|xs| - 1];
      assert xs == init + [xs[|xs| - 1]];
      var m' := MinOf(init);
      if xs[|xs| - 1] < m' then xs[|xs| - 1] else m'
  }

  function MaxOf(xs: seq<int>): (m: int)
    requires |xs| > 0
    ensures m in xs
    ensures forall x :: x in xs ==> x <= m
  {
    if |xs| == 1 then xs[0]
    else
      var init := xs[..|xs| - 1];
      assert xs == init + [xs[|xs| - 1]];
      var m' := MaxOf(init);
      if xs[|xs| - 1] > m' then xs[|xs| - 1] else m'
  }

  /** Every element lies in [lo, hi], so the sum lies in [n * lo, n * hi]. */
  lemma {:induction false} SumBounds(xs: seq<int>, lo: int, hi: int)
    requires forall x :: x in xs ==> lo <= x <= hi
    ensures |xs| * lo <= Sum(xs) <= |xs| * hi
  {
    if xs != [] {
      var init := xs[..|xs| - 1];
      assert xs == init + [xs[|xs| - 1]];
      assert forall x :: x in init ==> x in xs;
      assert xs[|xs| - 1] in xs;
      SumBounds(init, lo, hi);
      assert |xs| * lo == |init| * lo + lo;
      assert |xs| * hi == |init| * hi + hi;
    }
  }

  lemma {:induction false} MulNonNegative(a: int, n: nat)
    ensures a >= 0 ==> a * n >= 0
  {
    if n > 0 {
      MulNonNegative(a, n - 1);
      assert a * n == a * (n - 1) + a;
    }
  }

  /** Multiplying both sides by a positive n cancels: x * n < (y + 1) * n gives x <= y. */
  lemma MulCancel(x: int, y: int, n: int)
    requires n > 0
    requires x * n < y * n + n
    ensures x <= y
  {
    MulNonNegative(x - y - 1, n);
    assert (x - y - 1) * n == x * n - y * n - n;
  }

  /** A truncated quotient of a sum of n values in [lo, hi] stays in [lo, hi]. */
  lemma QuotientWithin(s: int, n: int, lo: int, hi: int)
    requires n > 0 && n * lo <= s <= n * hi
    ensures lo <= TruncDiv(s, n) <= hi
  {
    var q := TruncDiv(s, n);
    MulCancel(lo, q, n);
    MulCancel(q, hi, n);
  }

  /** The mean of a non-empty list truncated toward zero. */
  function Mean(xs: seq<int>): int
    requires |xs| > 0
  {
    TruncDiv(Sum(xs), |xs|)
  }

  /**
   * The truncated mean is the quotient of the sum by the count, rounded toward
   * zero, and lies between the least and the greatest element.
   */
  lemma MeanBounds(xs: seq<int>)
    requires |xs| > 0
    ensures 0 <= Sum(xs) ==> Mean(xs) * |xs| <= Sum(xs) < Mean(xs) * |xs| + |xs|
    ensures Sum(xs) < 0 ==> Sum(xs) <= Mean(xs) * |xs| < Sum(xs) + |xs|
    ensures MinOf(xs) <= Mean(xs) <= MaxOf(xs)
  {
    SumBounds(xs, MinOf(xs), MaxOf(xs));
    QuotientWithin(Sum(xs), |xs|, MinOf(xs), MaxOf(xs));
  }
}
