/** Products, quotients and squares of integers: the few facts every rounding proof uses. */
module Nonlinear {

  /** The ceiling of a / b. */
  function Ceil(a: int, b: int): int
    requires b > 0
  {
    (a + b - 1) / b
  }

  lemma MulMono(a: int, b: int, c: int, d: int)
    requires 0 <= a <= b && 0 <= c <= d
    ensures 0 <= a * c <= b * d
  {
    assert a * c <= b * c;
    assert b * c <= b * d;
  }

  lemma Distribute(a: int, b: int, c: int)
    ensures (a + b) * c == a * c + b * c && c * (a + b) == c * a + c * b
  {
  }

  lemma DistributeMinus(a: int, b: int, c: int)
    ensures (a - b) * c == a * c - b * c && c * (a - b) == c * a - c * b
  {
  }

  lemma Associate(a: int, b: int, c: int)
    ensures (a * b) * c == a * (b * c) && (a * b) * c == (a * c) * b && (a * b) * c == (c * a) * b
  {
  }

  lemma Regroup(a: int, b: int, c: int, d: int)
    ensures (a * b) * (c * d) == (a * c) * (b * d)
  {
    assert (a * b) * (c * d) == a * (b * (c * d)) == a * (c * (b * d));
  }

  lemma CancelLe(a: int, b: int, c: int)
    requires c > 0 && a * c <= b * c
    ensures a <= b
  {
  }

  lemma CancelLt(a: int, b: int, c: int)
    requires c >= 0 && a * c < b * c
    ensures a < b
  {
  }

  lemma SameSign(a: int, b: int, c: int)
    requires b > 0 && a * b == c
    ensures a > 0 <==> c > 0
  {
  }

  lemma TimesPositive(a: int, b: int, c: int)
    requires a < b && c > 0
    ensures a * c < b * c
  {
    if b * c <= a * c {
      CancelLe(b, a, c);
    }
  }

  /** a / b is the greatest q with q * b <= a. */
  lemma FloorSpec(a: int, b: int)
    requires b > 0
    ensures (a / b) * b <= a < (a / b + 1) * b
  {
  }

  lemma FloorAtLeast(q: int, a: int, b: int)
    requires b > 0
    ensures q <= a / b <==> q * b <= a
  {
    FloorSpec(a, b);
    if q <= a / b {
      assert q * b <= (a / b) * b;
    } else {
      assert (a / b + 1) * b <= q * b;
    }
  }

  /** Ceil(a, b) is the least q with a <= q * b. */
  lemma CeilAtMost(q: int, a: int, b: int)
    requires b > 0
    ensures Ceil(a, b) <= q <==> a <= q * b
  {
    FloorAtLeast(q + 1, a + b - 1, b);
    assert (q + 1) * b == q * b + b;
  }

  lemma CeilSpec(a: int, b: int)
    requires b > 0
    ensures (Ceil(a, b) - 1) * b < a <= Ceil(a, b) * b
  {
    CeilAtMost(Ceil(a, b), a, b);
    CeilAtMost(Ceil(a, b) - 1, a, b);
  }

  lemma FloorMono(a: int, b: int, c: int)
    requires a <= b && c > 0
    ensures a / c <= b / c
  {
    FloorSpec(a, c);
    FloorAtLeast(a / c, b, c);
  }

  lemma FloorAntitone(a: int, b: int, c: int)
    requires 0 <= a && 0 < b <= c
    ensures 0 <= a / c <= a / b
  {
    FloorSpec(a, c);
    FloorAtLeast(0, a, c);
    MulMono(a / c, a / c, b, c);
    FloorAtLeast(a / c, a, b);
  }

  lemma SquareLe(a: int, b: int)
    requires b >= 0 && a * a <= b * b
    ensures a <= b
  {
  }

  lemma SquareLt(a: int, b: int)
    requires b >= 0 && a * a < b * b
    ensures a < b
  {
  }
}
