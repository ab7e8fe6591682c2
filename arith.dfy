/** Facts about products and Euclidean division on non-negative integers
    that the solver does not find on its own. */
module Arith {

  type Positive = x: int | x >= 1 witness 1

  lemma MulSucc(k: int, width: int)
    ensures (k + 1) * width == k * width + width
  {
  }

  lemma MulMono(a: int, b: int, width: nat)
    requires a <= b
    ensures a * width <= b * width
  {
  }

  /** Cancelling a positive factor from a non-strict inequality. */
  lemma MulCancelLe(a: int, b: int, d: Positive)
    requires a * d <= b * d
    ensures a <= b
  {
    if a > b {
      MulMono(b + 1, a, d);
      MulSucc(b, d);
    }
  }

  /** Cancelling a positive factor from a strict inequality. */
  lemma MulCancelLt(a: int, b: int, d: Positive)
    requires a * d < b * d
    ensures a < b
  {
    if a >= b {
      MulMono(b, a, d);
    }
  }

  /** The quotient times the divisor brackets the dividend. */
  lemma DivBracket(a: nat, d: Positive)
    ensures (a / d) * d <= a < (a / d) * d + d
  {
  }

  /** a <= k * d gives a / d <= k. */
  lemma DivAtMost(a: nat, k: int, d: Positive)
    requires a <= k * d
    ensures a / d <= k
  {
    DivBracket(a, d);
    MulCancelLe(a / d, k, d);
  }

  /** k * d <= a gives k <= a / d. */
  lemma DivAtLeast(a: nat, k: int, d: Positive)
    requires k * d <= a
    ensures k <= a / d
  {
    DivBracket(a, d);
    MulSucc(a / d, d);
    MulCancelLt(k, a / d + 1, d);
  }

  /** a < (k + 1) * d gives a / d <= k. */
  lemma DivBelow(a: nat, k: int, d: Positive)
    requires a < (k + 1) * d
    ensures a / d <= k
  {
    DivBracket(a, d);
    MulCancelLt(a / d, k + 1, d);
  }

  lemma DivMono(a: nat, b: nat, d: Positive)
    requires a <= b
    ensures a / d <= b / d
  {
    DivBracket(a, d);
    DivAtLeast(b, a / d, d);
  }

  /** (k * x) / k == x */
  lemma DivCancel(k: Positive, x: nat)
    ensures (k * x) / k == x
  {
    DivAtMost(k * x, x, k);
    DivAtLeast(k * x, x, k);
  }
}
