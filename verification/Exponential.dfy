/** Rational bounds and monotonicity of the Taylor exponential on non-positive arguments,
    for the scale (NAD) and precision (five terms) the program uses. */
module Exponential {
  import opened Words
  import opened Nonlinear
  import opened Kernels

  // ---------------------------------------------------------------- the series

  /** Whether or not it overflows, a term is at most the previous one times r / S. */
  lemma {:induction false} TermShrinks(i: nat, r: u128, s: u64)
    requires 1 <= i <= TAYLOR_TERMS && s > 0
    ensures Term(i, r, s) * s <= Term(i - 1, r, s) * r
  {
    var t := Term(i - 1, r, s) * r;
    MulMono(0, Term(i - 1, r, s), 0, r);
    if t <= U128_MAX {
      MulMono(1, i, s, s);
      FloorAntitone(t, s, i * s);
      FloorSpec(t, s);
      MulMono(t / (i * s), t / s, s, s);
    }
  }

  /** Telescoping: the partial sum stays below the geometric series S^2 / (S - r). */
  lemma {:induction false} SumBelowGeometric(i: nat, r: u128, s: u64)
    requires i <= TAYLOR_TERMS && r < s <= NAD
    ensures Sum(i, r, s) * (s - r) + Term(i, r, s) * r <= s * s
  {
    if i == 0 {
      assert s * (s - r) + s * r == s * s;
    } else {
      SumBelowGeometric(i - 1, r, s);
      TermShrinks(i, r, s);
      AddTerm(Sum(i - 1, r, s), Term(i, r, s), Term(i - 1, r, s), r, s);
      MulMono(s, NAD, s, NAD);
    }
  }

  lemma AddTerm(sum: nat, term: nat, previous: nat, r: nat, s: nat)
    requires r < s && term * s <= previous * r
    requires sum * (s - r) + previous * r <= s * s
    ensures (sum + term) * (s - r) + term * r <= s * s
    ensures sum + term <= s * s
  {
    var m := s - r;
    Distribute(sum, term, m);
    Distribute(m, r, term);
    assert (sum + term) * m <= s * s by { MulMono(0, term, 0, r); }
    MulMono(1, m, sum + term, sum + term);
  }

  /** The series is at least its first-order part. */
  lemma {:induction false} SumAboveLinear(i: nat, r: u128, s: u64)
    requires 1 <= i <= TAYLOR_TERMS && 0 < s && r <= U64_MAX
    ensures Sum(i, r, s) >= s + r
  {
    if i == 1 {
      assert Sum(0, r, s) == s && Term(0, r, s) == s;
      MulMono(s, U64_MAX, r, U64_MAX);
      assert 1 * s == s;
      FloorAtLeast(r, s * r, s);
      FloorSpec(s * r, s);
      CancelLe(s * r / s, r, s);
      assert Term(1, r, s) == r;
    } else {
      SumAboveLinear(i - 1, r, s);
    }
  }

  // ---------------------------------------------------------------- the tenth power

  /** Bernoulli, upper side: if the base is at most S / (S - r), its j-th power is at most
      S / m, where m = S - j * r. */
  lemma {:induction false} PowerBelowReciprocal(j: nat, r: nat, m: nat, sum: u128, s: u64)
    requires 0 < m && m + j * r == s <= NAD
    requires r < s && sum * (s - r) <= s * s
    ensures Power(j, sum, s) * m <= s * s
    decreases j
  {
    if j > 0 {
      assert m + r + (j - 1) * r == s;
      PowerBelowReciprocal(j - 1, r, m + r, sum, s);
      MulMono(0, j - 1, 0, r);
      OneMoreFactor(Power(j - 1, sum, s), sum, s, r, m + r);
      PowerUnfold(j, sum, s);
    }
  }

  lemma PowerUnfold(j: nat, sum: u128, s: u64)
    requires j > 0 && s > 0 && Power(j - 1, sum, s) * sum <= U128_MAX
    ensures Power(j, sum, s) == Power(j - 1, sum, s) * sum / s
  {
    var before := Power(j - 1, sum, s);
    MulMono(0, before, 0, sum);
    assert CheckedMul(before, sum) == Some(before * sum);
  }

  /** before * m <= S^2 and sum * (S - r) <= S^2 compose, without overflow. */
  lemma OneMoreFactor(before: nat, sum: nat, s: nat, r: nat, m: nat)
    requires 0 < s <= NAD && r < m <= s
    requires before * m <= s * s && sum * (s - r) <= s * s
    ensures before * sum <= U128_MAX
    ensures (before * sum / s) * (m - r) <= s * s
  {
    var product := before * sum;
    FloorSpec(product, s);
    MulMono(0, before, 0, sum);
    FloorAtLeast(0, product, s);
    CrossFactors(s, r, m);
    FactorsCompose(product / s, before, sum, s, m - r, m, s - r);
    FactorsFit(before, sum, s, m, s - r);
  }

  lemma CrossFactors(s: nat, r: nat, m: nat)
    requires r < m <= s
    ensures (m - r) * s <= m * (s - r)
  {
    DistributeMinus(m, r, s);
    DistributeMinus(s, r, m);
    MulMono(r, r, m, s);
  }

  lemma FactorsFit(before: nat, sum: nat, s: nat, m: nat, q: nat)
    requires 0 < s <= NAD && 0 < m && 0 < q
    requires before * m <= s * s && sum * q <= s * s
    ensures before * sum <= U128_MAX
  {
    MulMono(s, NAD, s, NAD);
    MulMono(1, m, before, before);
    MulMono(1, q, sum, sum);
    MulMono(before, NAD * NAD, sum, NAD * NAD);
  }

  lemma FactorsCompose(after: nat, before: nat, sum: nat, s: nat, p: nat, m: nat, q: nat)
    requires s > 0 && after * s <= before * sum && p * s <= m * q
    requires before * m <= s * s && sum * q <= s * s
    ensures after * p <= s * s
  {
    var s2 := s * s;
    calc {
      (after * p) * s2;
    ==  { Regroup(after, p, s, s); }
      (after * s) * (p * s);
    <=  { MulMono(0, after, 0, s); MulMono(0, p, 0, s); MulMono(after * s, before * sum, p * s, m * q); }
      (before * sum) * (m * q);
    ==  { Regroup(before, sum, m, q); }
      (before * m) * (sum * q);
    <=  { MulMono(0, before, 0, m); MulMono(0, sum, 0, q); MulMono(before * m, s2, sum * q, s2); }
      s2 * s2;
    }
    MulMono(1, s, 1, s);
    CancelLe(after * p, s2, s2);
  }

  /** Bernoulli, lower side: the j-th power of at least (S + r) / S is at least
      (S + j * r) / S, also when it saturates. */
  lemma {:induction false} PowerAboveLinear(j: nat, r: nat, sum: u128, s: u64)
    requires 0 < s && r <= U64_MAX && s + r <= sum && j <= 10
    ensures Power(j, sum, s) >= s + j * r
  {
    if j > 0 {
      PowerAboveLinear(j - 1, r, sum, s);
      LinearStep(Power(j - 1, sum, s), j - 1, r, sum, s);
      MulMono(j, 10, r, U64_MAX);
    }
  }

  lemma LinearStep(before: nat, j: nat, r: nat, sum: nat, s: nat)
    requires 0 < s && s + r <= sum && before >= s + j * r
    ensures before * sum / s >= s + (j + 1) * r
  {
    var low := s + j * r;
    MulMono(0, j, 0, r);
    MulMono(low, before, s + r, sum);
    assert low * (s + r) == low * s + low * r;
    MulMono(s, low, r, r);
    assert (low + r) * s == low * s + r * s;
    assert low + r == s + (j + 1) * r;
    FloorAtLeast(low + r, before * sum, s);
  }

  // ---------------------------------------------------------------- two-sided bound

  /** For every argument -t in (i64::MIN, 0]: the result never panics, is at least
      NAD - t, and at most NAD^2 / (NAD + 10 * (t / 10)). */
  lemma TaylorExpBounds(t: int)
    requires 0 <= t < -I64_MIN
    ensures TaylorExp(-t, NAD, TAYLOR_TERMS).Ok?
    ensures NAD - t <= TaylorExp(-t, NAD, TAYLOR_TERMS).value <= NAD
    ensures TaylorExp(-t, NAD, TAYLOR_TERMS).value * (NAD + 10 * (t / 10)) <= NAD * NAD
  {
    TaylorExpUnfold(t);
    PowerAbove(t);
    if t < NAD {
      PowerBelow(t);
    }
    Reciprocal(Power(10, Sum(TAYLOR_TERMS, t / 10, NAD), NAD), t);
  }

  /** Zero takes the branch without the reciprocal, but its power is exactly one. */
  lemma TaylorExpUnfold(t: int)
    requires 0 <= t < -I64_MIN
    ensures Power(10, Sum(TAYLOR_TERMS, t / 10, NAD), NAD) >= NAD
    ensures TaylorExp(-t, NAD, TAYLOR_TERMS)
         == Ok(NAD * NAD / Power(10, Sum(TAYLOR_TERMS, t / 10, NAD), NAD))
  {
    var power := Power(10, Sum(TAYLOR_TERMS, t / 10, NAD), NAD);
    PowerAbove(t);
    FloorAntitone(NAD * NAD, NAD, power);
    AsU64Keeps(NAD * NAD / power);
    if t == 0 {
      PowerBelow(0);
      CancelLe(power, NAD, NAD);
      AsU64Keeps(power);
    }
  }

  lemma AsU64Keeps(v: u128)
    requires v <= U64_MAX
    ensures AsU64(v) == v
  {
  }

  lemma PowerAbove(t: nat)
    requires t < -I64_MIN
    ensures Power(10, Sum(TAYLOR_TERMS, t / 10, NAD), NAD) >= NAD + 10 * (t / 10)
  {
    SumAboveLinear(TAYLOR_TERMS, t / 10, NAD);
    PowerAboveLinear(10, t / 10, Sum(TAYLOR_TERMS, t / 10, NAD), NAD);
  }

  lemma PowerBelow(t: nat)
    requires t < NAD
    ensures Power(10, Sum(TAYLOR_TERMS, t / 10, NAD), NAD) * (NAD - t) <= NAD * NAD
  {
    var r := t / 10;
    var sum := Sum(TAYLOR_TERMS, r, NAD);
    SumBelowGeometric(TAYLOR_TERMS, r, NAD);
    MulMono(0, Term(TAYLOR_TERMS, r, NAD), 0, r);
    PowerBelowReciprocal(10, r, NAD - 10 * r, sum, NAD);
    MulMono(NAD - t, NAD - 10 * r, Power(10, sum, NAD), Power(10, sum, NAD));
  }

  lemma Reciprocal(power: nat, t: nat)
    requires power >= NAD + 10 * (t / 10)
    requires t < NAD ==> power * (NAD - t) <= NAD * NAD
    ensures NAD - t <= NAD * NAD / power <= NAD
    ensures 0 <= (NAD * NAD / power) * (NAD + 10 * (t / 10)) <= NAD * NAD
  {
    var out := NAD * NAD / power;
    FloorSpec(NAD * NAD, power);
    FloorAntitone(NAD * NAD, NAD, power);
    MulMono(out, out, NAD + 10 * (t / 10), power);
    if t < NAD {
      FloorAtLeast(NAD - t, NAD * NAD, power);
    }
  }

  // ---------------------------------------------------------------- monotonicity

  function PowerOf(base: nat, e: nat): nat {
    if e == 0 then 1 else base * PowerOf(base, e - 1)
  }

  /** Below r = 9 * NAD no term overflows. */
  lemma {:induction false} TermsStaySmall(i: nat, r: u128)
    requires i <= TAYLOR_TERMS && r < 9 * NAD
    ensures Term(i, r, NAD) <= PowerOf(9, i) * NAD
    ensures Term(i, r, NAD) * r <= U128_MAX
  {
    PowersOfNine(i);
    if i > 0 {
      TermsStaySmall(i - 1, r);
      TermShrinks(i, r, NAD);
      TermAtMostNineTimes(Term(i, r, NAD), Term(i - 1, r, NAD), r);
    }
    MulMono(Term(i, r, NAD), 59049 * NAD, r, 9 * NAD);
  }

  lemma PowersOfNine(i: nat)
    requires i <= TAYLOR_TERMS
    ensures PowerOf(9, i) <= 59049
    ensures i > 0 ==> PowerOf(9, i) == 9 * PowerOf(9, i - 1)
  {
    PowerOfMono(9, i, 5);
    assert PowerOf(9, 3) == 729;
    assert PowerOf(9, 5) == 59049;
  }

  lemma TermAtMostNineTimes(term: nat, previous: nat, r: nat)
    requires term * NAD <= previous * r && r < 9 * NAD
    ensures term <= 9 * previous
  {
    MulMono(previous, previous, r, 9 * NAD);
    CancelLe(term, 9 * previous, NAD);
  }

  lemma {:induction false} TermMono(i: nat, a: u128, b: u128)
    requires i <= TAYLOR_TERMS && a <= b < 9 * NAD
    ensures Term(i, a, NAD) <= Term(i, b, NAD)
  {
    if i > 0 {
      TermMono(i - 1, a, b);
      TermsStaySmall(i - 1, b);
      MulMono(Term(i - 1, a, NAD), Term(i - 1, b, NAD), a, b);
      FloorMono(Term(i - 1, a, NAD) * a, Term(i - 1, b, NAD) * b, i * NAD);
    }
  }

  lemma {:induction false} SumMono(i: nat, a: u128, b: u128)
    requires i <= TAYLOR_TERMS && a <= b < 9 * NAD
    ensures Sum(i, a, NAD) <= Sum(i, b, NAD)
  {
    if i > 0 {
      SumMono(i - 1, a, b);
      TermMono(i, a, b);
    }
  }

  /** Saturation is monotone: an overflowing product is replaced by the largest word. */
  lemma {:induction false} PowerMono(j: nat, a: u128, b: u128)
    requires a <= b
    ensures Power(j, a, NAD) <= Power(j, b, NAD)
  {
    if j > 0 {
      PowerMono(j - 1, a, b);
      MulMono(Power(j - 1, a, NAD), Power(j - 1, b, NAD), a, b);
      if Power(j - 1, b, NAD) * b <= U128_MAX {
        FloorMono(Power(j - 1, a, NAD) * a, Power(j - 1, b, NAD) * b, NAD);
      }
    }
  }

  /** From base ten up the tenth power exceeds NAD^2, so the reciprocal rounds to zero. */
  lemma {:induction false} PowerGrows(j: nat, sum: u128)
    requires j <= 10 && sum >= 10 * NAD
    ensures Power(j, sum, NAD) >= PowerOf(10, j) * NAD
  {
    assert PowerOf(10, 5) == 100_000;
    assert PowerOf(10, 10) == 10_000_000_000;
    if j > 0 {
      PowerGrows(j - 1, sum);
      var before := Power(j - 1, sum, NAD);
      PowerOfMono(10, j, 10);
      MulMono(PowerOf(10, j - 1) * NAD, before, 10 * NAD, sum);
      FloorAtLeast(PowerOf(10, j) * NAD, before * sum, NAD);
    }
  }

  lemma {:induction false} PowerOfMono(base: nat, e: nat, f: nat)
    requires base >= 1 && e <= f
    ensures 1 <= PowerOf(base, e) <= PowerOf(base, f)
    decreases f
  {
    if e < f {
      PowerOfMono(base, e, f - 1);
      MulMono(1, base, PowerOf(base, f - 1), PowerOf(base, f - 1));
    } else if e > 0 {
      PowerOfMono(base, e - 1, f - 1);
      MulMono(1, base, PowerOf(base, f - 1), PowerOf(base, f - 1));
    }
  }

  /** The exponential is antitone in |x| over the whole range of the argument, the inputs
      whose Taylor terms overflow included: those all give zero. */
  lemma TaylorExpAntitone(t: int, u: int)
    requires 0 <= t <= u < -I64_MIN
    ensures TaylorExp(-t, NAD, TAYLOR_TERMS).Ok? && TaylorExp(-u, NAD, TAYLOR_TERMS).Ok?
    ensures TaylorExp(-u, NAD, TAYLOR_TERMS).value <= TaylorExp(-t, NAD, TAYLOR_TERMS).value
  {
    TaylorExpBounds(t);
    TaylorExpBounds(u);
    TaylorExpUnfold(t);
    TaylorExpUnfold(u);
    PowersOrdered(t / 10, u / 10);
  }

  lemma PowersOrdered(a: u128, b: u128)
    requires a <= b <= U64_MAX
    ensures 0 < Power(10, Sum(TAYLOR_TERMS, a, NAD), NAD)
    ensures 0 < Power(10, Sum(TAYLOR_TERMS, b, NAD), NAD)
    ensures NAD * NAD / Power(10, Sum(TAYLOR_TERMS, b, NAD), NAD)
         <= NAD * NAD / Power(10, Sum(TAYLOR_TERMS, a, NAD), NAD)
  {
    var sumA, sumB := Sum(TAYLOR_TERMS, a, NAD), Sum(TAYLOR_TERMS, b, NAD);
    var powerA, powerB := Power(10, sumA, NAD), Power(10, sumB, NAD);
    SumAboveLinear(TAYLOR_TERMS, a, NAD);
    SumAboveLinear(TAYLOR_TERMS, b, NAD);
    PowerAboveLinear(10, a, sumA, NAD);
    PowerAboveLinear(10, b, sumB, NAD);
    if b >= 9 * NAD {
      PowerGrows(10, sumB);
      LargePowerVanishes(powerB);
      FloorAtLeast(0, NAD * NAD, powerA);
    } else {
      SumMono(TAYLOR_TERMS, a, b);
      PowerMono(10, sumA, sumB);
      FloorAntitone(NAD * NAD, powerA, powerB);
    }
  }

  lemma LargePowerVanishes(power: nat)
    requires power >= PowerOf(10, 10) * NAD
    ensures NAD * NAD / power == 0
  {
    assert PowerOf(10, 5) == 100_000;
    assert PowerOf(10, 10) == 10_000_000_000;
    FloorAtLeast(1, NAD * NAD, power);
    FloorAtLeast(0, NAD * NAD, power);
  }

  // ---------------------------------------------------------------- decay factor

  /** The cast to i64 keeps every exponent below 2^63. */
  lemma CastKeepsSmall(x: int)
    requires 0 <= x < -I64_MIN
    ensures Decay(x) == TaylorExp(-x, NAD, TAYLOR_TERMS)
  {
    AsI64Keeps(x);
  }

  lemma AsI64Keeps(x: u128)
    requires x < -I64_MIN
    ensures AsI64(x) == x
  {
  }

  /** On every exponent the cast keeps, the decay factor is defined and obeys both bounds. */
  lemma DecayBounds(x: u128)
    requires x < -I64_MIN
    ensures Decay(x).Ok?
    ensures NAD - x <= Decay(x).value <= NAD
    ensures Decay(x).value * (NAD + 10 * (x / 10)) <= NAD * NAD
  {
    CastKeepsSmall(x);
    TaylorExpBounds(x);
  }

  lemma DecayAntitone(x: u128, y: u128)
    requires x <= y < -I64_MIN
    ensures Decay(x).Ok? && Decay(y).Ok? && Decay(y).value <= Decay(x).value
  {
    CastKeepsSmall(x);
    CastKeepsSmall(y);
    TaylorExpAntitone(x, y);
  }
}
